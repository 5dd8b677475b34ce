/**
 ata_read against the disk, one machine step at a time.  The kernel thread runs _get_block, ata_read,
 do_request and, if it chooses to, wait_for; the disk interrupt may be served between any two of its steps as
 long as the drive owes one.  The handler runs with interrupts disabled, hence in one step.
 */
module DiskRuns {
  import opened Machine
  import opened DiskModel

  // Where the kernel thread is, with its locals.  Each name is the action it does next for buffer b.
  datatype Pc<B> =
    | Idle
    | Fill(b: B)                // write the tail slot
    | Advance(b: B)             // move disk_queue_tail
    | Lock(b: B)                // lock(&dr_lock)
    | Load(b: B)                // req = disk_queue.dr_req
    | Check(b: B, req: nat)     // anything to issue?
    | Fetch(b: B, req: nat)     // buffer = req->dr_buf, and its block number
    | Issue(b: B, blk: nat)     // ata_cmd
    | Unlock(b: B)              // unlock(&dr_lock)
    | Queued(b: B)              // ata_read has returned
    | Wait(b: B)                // wait_for
    | Crashed                   // the handler ran on an empty ring

  // asked and answered log every request queued and every command's data delivered to a buffer.  slips counts the
  // interrupts that left another request waiting, and issued its command; skips the calls of do_request that
  // issued none.
  datatype World<B> = World(q: Disk<B>, pc: Pc<B>, asked: seq<(B, nat)>, answered: seq<(B, nat)>, slips: nat, skips: nat)

  ghost predicate ThreadStep<B>(w: World<B>, v: World<B>) {
    && Shape(w.q)
    && match w.pc
       case Idle => exists b, blk: nat :: b in w.q.blk && CanMiss(w.q, b) && v == w.(q := Renamed(w.q, b, blk), pc := Fill(b))
       case Fill(b) => b in w.q.blk && v == w.(q := FillTail(w.q, b), pc := Advance(b))
       case Advance(b) =>
         b in w.q.blk && v == w.(q := AdvanceTail(w.q), pc := Lock(b), asked := w.asked + [(b, w.q.blk[b])])
       case Lock(b) => v == if w.q.lock then w.(pc := Queued(b), skips := w.skips + 1) else w.(q := w.q.(lock := true), pc := Load(b))
       case Load(b) => v == w.(pc := Check(b, w.q.req))
       case Check(b, req) =>
         v == if req == w.q.tail || NoBuffer(w.q, req) then w.(q := w.q.(lock := false), pc := Queued(b), skips := w.skips + 1)
              else w.(pc := Fetch(b, req))
       case Fetch(b, req) => !NoBuffer(w.q, req) && v == w.(pc := Issue(b, w.q.blk[w.q.slots[req].buf.value]))
       case Issue(b, blk) => v == w.(q := w.q.(flight := w.q.flight + [blk]), pc := Unlock(b))
       case Unlock(b) => v == w.(q := w.q.(lock := false), pc := Queued(b))
       case Queued(b) => v == w.(pc := Wait(b)) || v == w.(pc := Idle)
       case Wait(b) => b in w.q.status && v == if w.q.status[b] == BUF_FREE then w.(pc := Idle) else w
       case Crashed => false
  }

  predicate NoBuffer<B>(q: Disk<B>, req: nat)
    requires |q.slots| == QUEUE_COUNT
  {
    req < QUEUE_COUNT ==> q.slots[req].buf.None?
  }

  // _get_block may hand out a buffer that no request is waiting for, while the ring has a slot left.
  ghost predicate CanMiss<B>(q: Disk<B>, b: B) {
    Shape(q) && b in q.blk && b !in Pending(q) && Waiting(q) < QUEUE_COUNT - 1
  }

  ghost predicate InterruptStep<B>(w: World<B>, v: World<B>, disk: Image) {
    && Shape(w.q) && w.q.flight != [] && w.pc != Crashed
    && v == if w.q.req != w.q.tail
            then w.(q := Interrupt(w.q, disk),
                    answered := w.answered + [(Pending(w.q)[0], w.q.flight[0])],
                    slips := if Waiting(w.q) > 1 then w.slips + 1 else w.slips)
            else w.(pc := Crashed)
  }

  ghost predicate Step<B>(w: World<B>, v: World<B>, disk: Image) {
    ThreadStep(w, v) || InterruptStep(w, v, disk)
  }

  ghost predicate IsRun<B>(ws: seq<World<B>>, disk: Image) {
    && ws != []
    && Started(ws[0])
    && forall i :: 0 < i < |ws| ==> Step(ws[i - 1], ws[i], disk)
  }

  // After init_disk: the ring is empty, nothing is locked, in flight or busy.
  ghost predicate Started<B>(w: World<B>) {
    && w.pc == Idle && w.asked == w.answered == [] && w.slips == w.skips == 0
    && AtRest(w.q)
    && forall x :: x in w.q.status ==> w.q.status[x] != BUF_BUSY
  }

  // ----- Runs in which the thread may queue further requests at once -----

  // The thread's buffer and locals fit the ring.
  ghost predicate LocalsFit<B>(q: Disk<B>, pc: Pc<B>)
    requires Shape(q)
  {
    match pc
    case Fill(b) => CanMiss(q, b)
    case Advance(b) => CanMiss(q, b) && q.slots[q.tail] == Slot(Some(b), ATA_CMD_READ)
    case Check(_, req) => req < QUEUE_COUNT
    case Fetch(_, req) => req < QUEUE_COUNT && q.slots[req].buf.Some?
    case _ => true
  }

  ghost predicate Fifo<B>(w: World<B>) {
    && Shape(w.q)
    && LocalsFit(w.q, w.pc)
    && BuffersOf(w.asked) == BuffersOf(w.answered) + Pending(w.q)
  }

  lemma SameRing<B>(q: Disk<B>, r: Disk<B>)
    requires Shape(q) && Shape(r) && q.slots == r.slots && q.req == r.req && q.tail == r.tail
    ensures Pending(q) == Pending(r)
  {
  }

  lemma QueueingKeepsFifo<B>(w: World<B>, v: World<B>)
    requires Fifo(w) && ThreadStep(w, v) && (w.pc.Idle? || w.pc.Fill? || w.pc.Advance?)
    ensures Fifo(v)
  {
    match w.pc
    case Idle => SameRing(w.q, v.q);
    case Fill(b) =>
      assert forall i :: 0 <= i < Waiting(w.q) ==> Slide(w.q.req, i) != w.q.tail;
      assert Pending(v.q) == Pending(w.q);
    case Advance(b) =>
      assert FillTail(w.q, b) == w.q;
      FillingKeepsShape(w.q, b);
      assert BuffersOf(v.asked) == BuffersOf(w.asked) + [b];
  }

  lemma IssuingKeepsFifo<B>(w: World<B>, v: World<B>)
    requires Fifo(w) && ThreadStep(w, v) && !w.pc.Idle? && !w.pc.Fill? && !w.pc.Advance?
    ensures Fifo(v)
  {
    SameRing(w.q, v.q);
  }

  // An interrupt between any two steps retires the oldest request and leaves the locals' slots alone.
  lemma InterruptKeepsFifo<B>(w: World<B>, v: World<B>, disk: Image)
    requires Fifo(w) && InterruptStep(w, v, disk) && v.pc != Crashed
    ensures Fifo(v)
  {
    hide Interrupt, LocalsFit, Waiting;
    SomeWait(w.q);
    InterruptRetiresOldest(w.q, disk);
    InterruptKeepsLocals(w.q, w.pc, disk);
    assert BuffersOf(v.answered) == BuffersOf(w.answered) + [Pending(w.q)[0]];
  }

  lemma InterruptKeepsLocals<B>(q: Disk<B>, pc: Pc<B>, disk: Image)
    requires Shape(q) && q.flight != [] && q.req != q.tail && LocalsFit(q, pc)
    ensures Shape(Interrupt(q, disk)) && LocalsFit(Interrupt(q, disk), pc)
  {
    hide Interrupt;
    InterruptRetiresOldest(q, disk);
    InterruptLeavesTail(q, disk);
  }

  lemma InterruptLeavesTail<B>(q: Disk<B>, disk: Image)
    requires Shape(q) && q.flight != [] && q.req != q.tail
    ensures var r := Interrupt(q, disk); r.slots == q.slots && r.tail == q.tail && Waiting(r) == Waiting(q) - 1
  {
  }

  /** Wherever the interrupts fall between the steps of any number of requests, queued with or without waiting:
      until an interrupt meets an empty ring, every request queued has been retired once, in the order
      queued, or still waits in the ring. */
  lemma {:induction false} EveryRunIsFifo<B>(ws: seq<World<B>>, disk: Image, n: nat)
    requires IsRun(ws, disk) && n < |ws| && ws[n].pc != Crashed
    ensures Shape(ws[n].q) && LocalsFit(ws[n].q, ws[n].pc)
    ensures BuffersOf(ws[n].asked) == BuffersOf(ws[n].answered) + Pending(ws[n].q)
  {
    hide ThreadStep, InterruptStep;
    if n > 0 {
      var w, v := ws[n - 1], ws[n];
      CrashedStays(w, v, disk);
      EveryRunIsFifo(ws, disk, n - 1);
      if ThreadStep(w, v) {
        if w.pc.Idle? || w.pc.Fill? || w.pc.Advance? { QueueingKeepsFifo(w, v); } else { IssuingKeepsFifo(w, v); }
      } else {
        InterruptKeepsFifo(w, v, disk);
      }
    }
  }

  lemma CrashedStays<B>(w: World<B>, v: World<B>, disk: Image)
    requires Step(w, v, disk)
    ensures w.pc != Crashed
  {
  }

  // ----- When an interrupt meets an empty ring -----

  // The thread has queued a request and is still going to issue a command.
  predicate Issuing<B>(pc: Pc<B>) {
    pc.Lock? || pc.Load? || pc.Check? || pc.Fetch? || pc.Issue?
  }

  ghost predicate Balanced<B>(w: World<B>) {
    Fifo(w) && |w.q.flight| + w.skips + (if Issuing(w.pc) then 1 else 0) == Waiting(w.q) + w.slips
  }

  lemma ThreadKeepsBalance<B>(w: World<B>, v: World<B>)
    requires Balanced(w) && ThreadStep(w, v) && Fifo(v)
    ensures Balanced(v)
  {
    if w.pc.Advance? {
      FillingKeepsShape(w.q, w.pc.b);
      assert FillTail(w.q, w.pc.b) == w.q;
    }
  }

  lemma InterruptKeepsBalance<B>(w: World<B>, v: World<B>, disk: Image)
    requires Balanced(w) && InterruptStep(w, v, disk) && v.pc != Crashed && Fifo(v)
    ensures Balanced(v)
  {
    hide Interrupt;
    InterruptRetiresOldest(w.q, disk);
    InterruptLeavesTail(w.q, disk);
  }

  lemma {:induction false} RunKeepsBalance<B>(ws: seq<World<B>>, disk: Image, n: nat)
    requires IsRun(ws, disk) && n < |ws| && ws[n].pc != Crashed
    ensures Balanced(ws[n])
  {
    hide ThreadStep, InterruptStep;
    EveryRunIsFifo(ws, disk, n);
    if n > 0 {
      var w, v := ws[n - 1], ws[n];
      CrashedStays(w, v, disk);
      RunKeepsBalance(ws, disk, n - 1);
      if ThreadStep(w, v) { ThreadKeepsBalance(w, v); } else { InterruptKeepsBalance(w, v, disk); }
    }
  }

  /** At any point of any run the drive can interrupt on an empty ring in exactly this case: nothing waits, and more
      interrupts have left a request waiting than calls of do_request found nothing to issue, one that is
      still under way counted with these. */
  lemma EmptyRingInterruptIff<B>(ws: seq<World<B>>, disk: Image, n: nat)
    requires IsRun(ws, disk) && n < |ws| && ws[n].pc != Crashed
    ensures Shape(ws[n].q)
    ensures InterruptStep(ws[n], ws[n].(pc := Crashed), disk) <==>
            Waiting(ws[n].q) == 0 && ws[n].slips > ws[n].skips + (if Issuing(ws[n].pc) then 1 else 0)
  {
    RunKeepsBalance(ws, disk, n);
  }

  // ----- Runs in which the thread waits for each request, as get_block does -----

  ghost predicate IsWaitingRun<B>(ws: seq<World<B>>, disk: Image) {
    && IsRun(ws, disk)
    && forall i :: 0 < i < |ws| ==> !(ws[i - 1].pc.Queued? && ws[i].pc == Idle)
  }

  // Only b, if any buffer at all, is busy.
  ghost predicate BusyOnly<B>(q: Disk<B>, busy: Option<B>) {
    && (busy.Some? ==> busy.value in q.status)
    && forall x :: x in q.status ==> (q.status[x] == BUF_BUSY <==> busy == Some(x))
  }

  // b's request waits in the ring with the given commands in flight.
  ghost predicate InRing<B>(w: World<B>, b: B, locked: bool, issued: bool) {
    && Shape(w.q)
    && w.q.lock == locked
    && BusyOnly(w.q, Some(b))
    && b in w.q.blk && Pending(w.q) == [b]
    && w.q.flight == (if issued then [w.q.blk[b]] else [])
    && w.asked == w.answered + [(b, w.q.blk[b])]
  }

  // b's request has been served.
  ghost predicate Served<B>(w: World<B>, b: B, disk: Image) {
    && AtRest(w.q)
    && BusyOnly(w.q, None)
    && b in w.q.blk && w.q.status[b] == BUF_FREE && w.q.data[b] == disk(w.q.blk[b])
    && w.asked == w.answered
  }

  ghost predicate Inv<B>(w: World<B>, disk: Image) {
    && Shape(w.q)
    && match w.pc
       case Idle => AtRest(w.q) && BusyOnly(w.q, None) && w.asked == w.answered
       case Fill(b) => AtRest(w.q) && BusyOnly(w.q, Some(b)) && w.asked == w.answered
       case Advance(b) =>
         && AtRest(w.q) && BusyOnly(w.q, Some(b)) && w.asked == w.answered
         && w.q.slots[w.q.tail] == Slot(Some(b), ATA_CMD_READ)
       case Lock(b) => InRing(w, b, false, false)
       case Load(b) => InRing(w, b, true, false)
       case Check(b, req) => InRing(w, b, true, false) && req == w.q.req
       case Fetch(b, req) => InRing(w, b, true, false) && req == w.q.req
       case Issue(b, blk) => InRing(w, b, true, false) && blk == w.q.blk[b]
       case Unlock(b) => InRing(w, b, true, true) || Served(w, b, disk)
       case Queued(b) => InRing(w, b, false, true) || Served(w, b, disk)
       case Wait(b) => InRing(w, b, false, true) || Served(w, b, disk)
       case Crashed => false
  }

  // Queueing the request: get_block's miss and the two writes of ata_read.
  lemma QueueingKeepsInv<B>(w: World<B>, v: World<B>, disk: Image)
    requires Inv(w, disk) && ThreadStep(w, v) && (w.pc.Idle? || w.pc.Fill? || w.pc.Advance?)
    ensures Inv(v, disk)
  {
    if w.pc.Advance? {
      assert Waiting(v.q) == 1 && Slide(v.q.req, 0) == w.q.tail;
      assert Pending(v.q) == [w.pc.b];
    }
  }

  // Issuing it: do_request under the lock.
  lemma IssuingKeepsInv<B>(w: World<B>, v: World<B>, disk: Image)
    requires Inv(w, disk) && ThreadStep(w, v) && !w.pc.Idle? && !w.pc.Fill? && !w.pc.Advance?
    requires !w.pc.Unlock? && !w.pc.Queued? && !w.pc.Wait?
    ensures Inv(v, disk)
  {
    HeadIsOldest(w.q);
    assert v.q == w.q.(lock := v.q.lock, flight := v.q.flight);
    assert Pending(v.q) == Pending(w.q);
  }

  lemma WaitingKeepsInv<B>(w: World<B>, v: World<B>, disk: Image)
    requires Inv(w, disk) && ThreadStep(w, v) && (w.pc.Unlock? || w.pc.Queued? || w.pc.Wait?)
    requires !(w.pc.Queued? && v.pc == Idle)
    ensures Inv(v, disk)
  {
    assert v.q == w.q.(lock := v.q.lock);
    assert Pending(v.q) == Pending(w.q);
  }

  lemma InterruptKeepsInv<B>(w: World<B>, v: World<B>, disk: Image)
    requires Inv(w, disk) && InterruptStep(w, v, disk)
    ensures Inv(v, disk)
  {
    hide Interrupt;
    InterruptRetiresOldest(w.q, disk);
  }

  lemma {:induction false} RunKeepsInv<B>(ws: seq<World<B>>, disk: Image, n: nat)
    requires IsWaitingRun(ws, disk) && n < |ws|
    ensures Inv(ws[n], disk)
  {
    hide ThreadStep, InterruptStep, Inv;
    if n == 0 {
      StartedInv(ws[0], disk);
    } else {
      var w, v := ws[n - 1], ws[n];
      RunKeepsInv(ws, disk, n - 1);
      if !ThreadStep(w, v) {
        InterruptKeepsInv(w, v, disk);
      } else if w.pc.Idle? || w.pc.Fill? || w.pc.Advance? {
        QueueingKeepsInv(w, v, disk);
      } else if w.pc.Unlock? || w.pc.Queued? || w.pc.Wait? {
        WaitingKeepsInv(w, v, disk);
      } else {
        IssuingKeepsInv(w, v, disk);
      }
    }
  }

  lemma StartedInv<B>(w: World<B>, disk: Image)
    requires Started(w)
    ensures Inv(w, disk)
  {
  }

  /** If the thread waits for each request, then wherever the interrupts fall: the handler never meets an empty
      ring, at most one command is in flight, answers are the requests in order, each once and each with its
      own block; between calls the ring is empty, the lock free and no buffer busy, and during a call
      nothing but its own buffer is busy, and that until it has been served. */
  lemma EveryRunIsOrderly<B>(ws: seq<World<B>>, disk: Image, n: nat)
    requires IsWaitingRun(ws, disk) && n < |ws|
    ensures ws[n].pc != Crashed && |ws[n].q.flight| <= 1
    ensures ws[n].answered <= ws[n].asked && |ws[n].asked| <= |ws[n].answered| + 1
    ensures Shape(ws[n].q)
    ensures ws[n].pc == Idle ==> AtRest(ws[n].q) && BusyOnly(ws[n].q, None) && ws[n].answered == ws[n].asked
    ensures ws[n].pc != Idle ==>
              BusyOnly(ws[n].q, Some(ws[n].pc.b)) ||
              ((ws[n].pc.Unlock? || ws[n].pc.Queued? || ws[n].pc.Wait?) && BusyOnly(ws[n].q, None) &&
               ws[n].answered == ws[n].asked)
  {
    RunKeepsInv(ws, disk, n);
  }

  /** When get_block leaves its wait loop, its buffer is free and holds the block it was asked for. */
  lemma ReturnedBufferHoldsBlock<B>(ws: seq<World<B>>, disk: Image, n: nat)
    requires IsWaitingRun(ws, disk) && n + 1 < |ws|
    requires ws[n].pc.Wait? && ws[n + 1].pc == Idle
    ensures var b := ws[n].pc.b;
            b in ws[n].q.blk && ws[n + 1].q.status[b] == BUF_FREE && ws[n + 1].q.data[b] == disk(ws[n].q.blk[b])
  {
    RunKeepsInv(ws, disk, n);
    assert !InterruptStep(ws[n], ws[n + 1], disk);
  }

  /** No wake-up is lost: while get_block waits for a busy buffer the drive owes an interrupt, and serving
      it lets the wait end. */
  lemma WaitAlwaysEnds<B>(ws: seq<World<B>>, disk: Image, n: nat)
    requires IsWaitingRun(ws, disk) && n < |ws| && ws[n].pc.Wait?
    ensures var b := ws[n].pc.b;
            && Shape(ws[n].q) && b in ws[n].q.status
            && (ws[n].q.status[b] == BUF_FREE ||
                (ws[n].q.flight != [] && ws[n].q.req != ws[n].q.tail &&
                 Interrupt(ws[n].q, disk).status[b] == BUF_FREE))
  {
    hide Interrupt, IsRun;
    RunKeepsInv(ws, disk, n);
    if ws[n].q.flight != [] { InterruptRetiresOldest(ws[n].q, disk); }
  }
}
