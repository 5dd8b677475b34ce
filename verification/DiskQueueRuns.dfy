/**
 Any number of requests waiting at once: runs of get_block's misses, each with its ata_read, and of disk interrupts,
 in any order, each call and each interrupt taken as a whole.  The ring is a queue in every such run; whether
 a buffer gets the block it wants depends on how full the ring was when the requests came.
 */
module DiskQueueRuns {
  import opened Machine
  import opened DiskModel

  datatype Event<B> = Ask(b: B, blk: nat) | Irq

  // asked pairs each request with the block its buffer was named after, and alone says whether it found the ring
  // empty; answered pairs each request retired with the block the drive delivered for it.
  datatype Log<B> = Log(q: Disk<B>, asked: seq<(B, nat)>, alone: seq<bool>, answered: seq<(B, nat)>)

  // A buffer for which no request waits is named after a block and queued, while the ring has a slot left; an
  // interrupt is served while the drive owes one and a request waits.
  ghost predicate Possible<B>(w: Log<B>, e: Event<B>) {
    && Shape(w.q)
    && match e
       case Ask(b, _) => !w.q.lock && b in w.q.blk && b !in Pending(w.q) && Waiting(w.q) < QUEUE_COUNT - 1
       case Irq => w.q.flight != [] && w.q.req != w.q.tail
  }

  ghost function After<B>(w: Log<B>, e: Event<B>, disk: Image): Log<B>
    requires Possible(w, e)
  {
    match e
    case Ask(b, blk) =>
      RenamingKeepsRing(w.q, b, blk);
      Log(AtaRead(Renamed(w.q, b, blk), b), w.asked + [(b, blk)], w.alone + [Pending(w.q) == []], w.answered)
    case Irq => Log(Interrupt(w.q, disk), w.asked, w.alone, w.answered + [(Pending(w.q)[0], w.q.flight[0])])
  }

  ghost predicate IsRun<B>(ws: seq<Log<B>>, es: seq<Event<B>>, disk: Image) {
    && |ws| == |es| + 1
    && AtRest(ws[0].q) && ws[0].asked == ws[0].answered == [] && ws[0].alone == []
    && forall i :: 0 <= i < |es| ==> Possible(ws[i], es[i]) && ws[i + 1] == After(ws[i], es[i], disk)
  }

  // ----- The ring is a queue -----

  // The requests asked are those retired followed by those waiting, whose buffers still have their names.
  ghost predicate Fifo<B>(w: Log<B>) {
    && Shape(w.q) && !w.q.lock
    && |w.asked| == |w.alone|
    && BuffersOf(w.asked) == BuffersOf(w.answered) + Pending(w.q)
    && (forall i :: |w.answered| <= i < |w.asked| ==> w.asked[i].0 in w.q.blk && w.q.blk[w.asked[i].0] == w.asked[i].1)
    && |w.q.flight| >= Waiting(w.q)
  }

  // One event, without the ring's indices: the block a command names is the one the oldest request wants.
  lemma AskedEffect<B>(w: Log<B>, b: B, blk: nat, disk: Image)
    requires Fifo(w) && Possible(w, Ask(b, blk))
    ensures var v := After(w, Ask(b, blk), disk);
            && Fifo(v) && v.asked == w.asked + [(b, blk)] && v.answered == w.answered && |w.answered| <= |w.asked|
            && v.alone == w.alone + [|w.asked| == |w.answered|]
            && v.q.flight == w.q.flight + [v.asked[|v.answered|].1]
            && Waiting(v.q) == Waiting(w.q) + 1 == |v.asked| - |v.answered|
  {
    hide Shape, Waiting, AtaRead, Renamed;
    RenamingKeepsRing(w.q, b, blk);
    var m := Renamed(w.q, b, blk);
    AtaReadEffect(m, b);
    var v := After(w, Ask(b, blk), disk);
    assert BuffersOf(v.asked) == BuffersOf(w.asked) + [b];
    forall i | |v.answered| <= i < |v.asked|
      ensures v.asked[i].0 in v.q.blk && v.q.blk[v.asked[i].0] == v.asked[i].1
    {
      if i < |w.asked| {
        assert BuffersOf(w.asked)[i] == Pending(w.q)[i - |w.answered|];
      }
    }
    assert BuffersOf(v.asked)[|v.answered|] == Pending(v.q)[0];
  }

  lemma AnsweredEffect<B>(w: Log<B>, disk: Image)
    requires Fifo(w) && Possible(w, Irq)
    ensures |w.answered| < |w.asked| && w.q.flight != []
    ensures var v := After(w, Irq, disk);
            && Fifo(v) && v.asked == w.asked && v.alone == w.alone
            && v.answered == w.answered + [(w.asked[|w.answered|].0, w.q.flight[0])]
            && v.q.flight == w.q.flight[1..] + (if |v.answered| == |v.asked| then [] else [v.asked[|v.answered|].1])
            && Waiting(w.q) == Waiting(v.q) + 1 == |w.asked| - |w.answered|
  {
    hide Shape, Waiting, Interrupt;
    SomeWait(w.q);
    InterruptRetiresOldest(w.q, disk);
    var v := After(w, Irq, disk);
    assert BuffersOf(w.asked)[|w.answered|] == Pending(w.q)[0];
    assert BuffersOf(v.answered) == BuffersOf(w.answered) + [Pending(w.q)[0]];
    if |v.answered| < |v.asked| { assert BuffersOf(v.asked)[|v.answered|] == Pending(v.q)[0]; }
  }

  /** However many requests wait and wherever the interrupts fall between the calls: each request is retired
      exactly once, in the order asked, and the drive owes at least one interrupt for every request waiting. */
  lemma {:induction false} EveryQueueRunIsFifo<B>(ws: seq<Log<B>>, es: seq<Event<B>>, disk: Image, n: nat)
    requires IsRun(ws, es, disk) && n < |ws|
    ensures Fifo(ws[n]) && BuffersOf(ws[n].asked) == BuffersOf(ws[n].answered) + Pending(ws[n].q)
  {
    if n > 0 {
      hide Possible, After;
      EveryQueueRunIsFifo(ws, es, disk, n - 1);
      match es[n - 1] {
        case Ask(b, blk) => AskedEffect(ws[n - 1], b, blk, disk);
        case Irq => AnsweredEffect(ws[n - 1], disk);
      }
    }
  }

  // ----- Which buffers get the block they want -----

  ghost predicate AllRight<B>(asked: seq<(B, nat)>, answered: seq<(B, nat)>)
    requires |answered| <= |asked|
  {
    forall i :: 0 <= i < |answered| ==> answered[i].1 == asked[i].1
  }

  // Once a request has found another one waiting, every request retired from it on wants the block which the
  // one before it wanted.
  ghost predicate SameSince<B>(asked: seq<(B, nat)>, alone: seq<bool>, n: nat)
    requires n <= |asked| == |alone|
  {
    forall i, j :: 0 < j <= i < n && !alone[j] ==> asked[i].1 == asked[j - 1].1
  }

  ghost predicate AllAlone(alone: seq<bool>, n: nat)
    requires n <= |alone|
  {
    forall i :: 0 <= i < n ==> alone[i]
  }

  // Every request retired so far found the ring empty, and so did the oldest one waiting: the commands in
  // flight, one per request waiting, are all for its block.
  ghost predicate InStep<B>(w: Log<B>) {
    var r := |w.answered|;
    && |w.asked| == |w.alone| && r <= |w.asked| && |w.q.flight| == |w.asked| - r
    && AllRight(w.asked, w.answered) && AllAlone(w.alone, r)
    && (r < |w.asked| ==> w.alone[r])
    && (forall i :: r < i < |w.alone| ==> !w.alone[i])
    && (forall i :: 0 <= i < |w.q.flight| ==> w.q.flight[i] == w.asked[r].1)
  }

  // Request j was the first to find another one waiting, which has been retired since; the next command to be
  // answered is for that one's block, and so is every other but those issued for the oldest request waiting.
  ghost predicate Behind<B>(w: Log<B>, j: nat) {
    var r := |w.answered|;
    && |w.asked| == |w.alone| && 0 < j <= r <= |w.asked| && j < |w.asked| && |w.q.flight| > |w.asked| - r
    && AllAlone(w.alone, j) && !w.alone[j]
    && AllRight(w.asked, w.answered)
    && (forall i :: j <= i < r ==> w.asked[i].1 == w.asked[j - 1].1)
    && w.q.flight[0] == w.asked[j - 1].1
    && forall i :: 0 <= i < |w.q.flight| ==>
         w.q.flight[i] == w.asked[j - 1].1 || (r < |w.asked| && w.q.flight[i] == w.asked[r].1)
  }

  ghost predicate Slipped<B>(w: Log<B>) {
    var r := |w.answered|;
    && |w.asked| == |w.alone| && r <= |w.asked| && |w.q.flight| > |w.asked| - r
    && !AllRight(w.asked, w.answered) && !SameSince(w.asked, w.alone, r) && !AllAlone(w.alone, r)
  }

  ghost predicate InPhase<B>(w: Log<B>) {
    InStep(w) || (exists j: nat :: Behind(w, j)) || Slipped(w)
  }

  lemma AskKeepsPhase<B>(w: Log<B>, b: B, blk: nat, disk: Image)
    requires Fifo(w) && InPhase(w) && Possible(w, Ask(b, blk))
    ensures InPhase(After(w, Ask(b, blk), disk))
  {
    hide Possible, After, Fifo;
    AskedEffect(w, b, blk, disk);
    var v := After(w, Ask(b, blk), disk);
    if InStep(w) {
      assert InStep(v);
    } else if Slipped(w) {
      SlippedStays(w, v);
    } else {
      var j: nat :| Behind(w, j);
      assert Behind(v, j);
    }
  }

  // More requests asked or retired do not make a slipped queue right again.
  lemma SlippedStays<B>(w: Log<B>, v: Log<B>)
    requires Slipped(w) && |v.asked| == |v.alone| && |v.answered| <= |v.asked| && |v.q.flight| > |v.asked| - |v.answered|
    requires w.asked <= v.asked && w.alone <= v.alone && w.answered <= v.answered
    ensures Slipped(v)
  {
    hide AllRight, SameSince, AllAlone;
    WrongStays(w.asked, w.answered, v.asked, v.answered);
    MixedStays(w.asked, w.alone, |w.answered|, v.asked, v.alone, |v.answered|);
  }

  lemma WrongStays<B>(asked: seq<(B, nat)>, answered: seq<(B, nat)>, asked': seq<(B, nat)>, answered': seq<(B, nat)>)
    requires asked <= asked' && answered <= answered' && |answered| <= |asked| && |answered'| <= |asked'|
    requires !AllRight(asked, answered)
    ensures !AllRight(asked', answered')
  {
    var i :| 0 <= i < |answered| && answered[i].1 != asked[i].1;
    assert answered'[i].1 != asked'[i].1;
  }

  lemma MixedStays<B>(asked: seq<(B, nat)>, alone: seq<bool>, n: nat, asked': seq<(B, nat)>, alone': seq<bool>, n': nat)
    requires asked <= asked' && alone <= alone' && n <= n' && n <= |asked| == |alone| && n' <= |asked'| == |alone'|
    requires !SameSince(asked, alone, n)
    ensures !SameSince(asked', alone', n') && !AllAlone(alone', n')
  {
    var k, j :| 0 < j <= k < n && !alone[j] && asked[k].1 != asked[j - 1].1;
    assert !alone'[j] && asked'[k].1 != asked'[j - 1].1;
  }

  lemma IrqMovesPhase<B>(w: Log<B>, disk: Image)
    requires Fifo(w) && InPhase(w) && Possible(w, Irq)
    ensures InPhase(After(w, Irq, disk))
  {
    hide Possible, After, Fifo;
    AnsweredEffect(w, disk);
    var v := After(w, Irq, disk);
    if InStep(w) {
      InStepAnswered(w, v);
    } else if Slipped(w) {
      SlippedStays(w, v);
    } else {
      var j: nat :| Behind(w, j);
      BehindAnswered(w, v, j);
    }
  }

  // What an interrupt does to the log.
  ghost predicate Answered<B>(w: Log<B>, v: Log<B>) {
    var r := |w.answered|;
    && |w.asked| == |w.alone| && r < |w.asked| && w.q.flight != []
    && v.asked == w.asked && v.alone == w.alone && v.answered == w.answered + [(w.asked[r].0, w.q.flight[0])]
    && v.q.flight == w.q.flight[1..] + (if r + 1 == |v.asked| then [] else [v.asked[r + 1].1])
  }

  // The request behind one in step found it waiting.
  lemma InStepAnswered<B>(w: Log<B>, v: Log<B>)
    requires InStep(w) && Answered(w, v)
    ensures InStep(v) || Behind(v, |v.answered|)
  {
  }

  // A request that wants another block than the one the commands are behind with gets the wrong one.
  lemma BehindAnswered<B>(w: Log<B>, v: Log<B>, j: nat)
    requires Behind(w, j) && Answered(w, v)
    ensures Behind(v, j) || Slipped(v)
  {
    var r := |w.answered|;
    if w.asked[r].1 != w.asked[j - 1].1 {
      assert v.answered[r].1 != v.asked[r].1;
      assert !v.alone[j] && v.asked[r].1 != v.asked[j - 1].1;
    }
  }

  lemma {:induction false} RunKeepsPhase<B>(ws: seq<Log<B>>, es: seq<Event<B>>, disk: Image, n: nat)
    requires IsRun(ws, es, disk) && n < |ws|
    ensures InPhase(ws[n])
  {
    hide Possible, After, Fifo, Shape;
    if n == 0 {
      assert InStep(ws[0]);
    } else {
      RunKeepsPhase(ws, es, disk, n - 1);
      EveryQueueRunIsFifo(ws, es, disk, n - 1);
      match es[n - 1] {
        case Ask(b, blk) => AskKeepsPhase(ws[n - 1], b, blk, disk);
        case Irq => IrqMovesPhase(ws[n - 1], disk);
      }
    }
  }

  lemma PhaseTells<B>(w: Log<B>)
    requires InPhase(w)
    ensures |w.answered| <= |w.asked| == |w.alone|
    ensures AllRight(w.asked, w.answered) <==> SameSince(w.asked, w.alone, |w.answered|)
    ensures |w.answered| == |w.asked| ==> (w.q.flight == [] <==> AllAlone(w.alone, |w.alone|))
  {
    if !InStep(w) && !Slipped(w) {
      var j: nat :| Behind(w, j);
      assert !w.alone[j] && forall i :: 0 <= i < j ==> w.alone[i];
    }
  }

  /** Every buffer retired so far got the block it wanted in exactly this case: from the first request on that found
      another one waiting, all requests retired want the block which the one before it wanted.  And once the
      ring is empty the drive owes no further interrupt exactly if no request has found another one waiting. */
  lemma OwnBlocksIff<B>(ws: seq<Log<B>>, es: seq<Event<B>>, disk: Image, n: nat)
    requires IsRun(ws, es, disk) && n < |ws|
    ensures |ws[n].answered| <= |ws[n].asked| == |ws[n].alone| && Shape(ws[n].q)
    ensures AllRight(ws[n].asked, ws[n].answered) <==> SameSince(ws[n].asked, ws[n].alone, |ws[n].answered|)
    ensures Pending(ws[n].q) == [] ==> (ws[n].q.flight == [] <==> AllAlone(ws[n].alone, |ws[n].alone|))
  {
    hide InPhase, AllRight, SameSince, AllAlone;
    EveryQueueRunIsFifo(ws, es, disk, n);
    RunKeepsPhase(ws, es, disk, n);
    PhaseTells(ws[n]);
    assert |BuffersOf(ws[n].asked)| == |ws[n].answered| + |Pending(ws[n].q)|;
  }

  // No request names a block that a request waiting at the time names, as through the cache of one device.
  ghost predicate NamesApart<B>(ws: seq<Log<B>>, es: seq<Event<B>>)
    requires |ws| == |es| + 1
  {
    forall i, k :: 0 <= i < |es| && es[i].Ask? && |ws[i].answered| <= k < |ws[i].asked| ==> ws[i].asked[k].1 != es[i].blk
  }

  ghost predicate NeighboursApart<B>(w: Log<B>) {
    && |w.asked| == |w.alone|
    && forall j :: 0 < j < |w.asked| && !w.alone[j] ==> w.asked[j].1 != w.asked[j - 1].1
  }

  lemma {:induction false} RunKeepsNeighboursApart<B>(ws: seq<Log<B>>, es: seq<Event<B>>, disk: Image, n: nat)
    requires IsRun(ws, es, disk) && n < |ws| && NamesApart(ws, es)
    ensures NeighboursApart(ws[n]) && (ws[n].alone != [] ==> ws[n].alone[0])
  {
    hide Possible, After, Fifo, Shape;
    if n > 0 {
      RunKeepsNeighboursApart(ws, es, disk, n - 1);
      EveryQueueRunIsFifo(ws, es, disk, n - 1);
      match es[n - 1] {
        case Ask(b, blk) => AskedEffect(ws[n - 1], b, blk, disk);
        case Irq => AnsweredEffect(ws[n - 1], disk);
      }
    }
  }

  /** As long as waiting requests want different blocks, every buffer retired so far got its own exactly if none of
      their requests found another one waiting. */
  lemma DistinctBlocksIff<B>(ws: seq<Log<B>>, es: seq<Event<B>>, disk: Image, n: nat)
    requires IsRun(ws, es, disk) && n < |ws| && NamesApart(ws, es)
    ensures |ws[n].answered| <= |ws[n].asked| == |ws[n].alone|
    ensures AllRight(ws[n].asked, ws[n].answered) <==> AllAlone(ws[n].alone, |ws[n].answered|)
  {
    hide AllRight, IsRun, NamesApart, Fifo;
    OwnBlocksIff(ws, es, disk, n);
    RunKeepsNeighboursApart(ws, es, disk, n);
    var w := ws[n];
    if i :| 0 <= i < |w.answered| && !w.alone[i] {
      assert 0 < i <= i && w.asked[i].1 != w.asked[i - 1].1;
    }
  }
}
