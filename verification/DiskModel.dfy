/**
 The disk request ring of minixfs/hard_disk.c as a value, with the drive behind it.  The ring is an
 array of request slots; requests wait between `req` (the oldest) and `tail` (the next slot to fill).
 A command handed to the drive stays in `flight` until its interrupt has been served.
 */
module DiskModel {
  import opened Machine

  const BUF_FREE: nat := 1
  const BUF_BUSY: nat := 2
  const BUF_DELAYWRITE: nat := 4
  const ATA_CMD_READ: nat := 0x20

  // PAGE_SIZE / sizeof(struct DiskRequest)
  const QUEUE_COUNT: nat := 341

  datatype Slot<B> = Slot(buf: Option<B>, cmd: nat)

  datatype Disk<B> = Disk(
    slots: seq<Slot<B>>,
    req: nat,
    tail: nat,
    lock: bool,
    flight: seq<nat>,          // block numbers of the commands the drive is working on
    blk: map<B, nat>,          // bf_blk
    status: map<B, nat>,       // bf_status
    data: map<B, Block>)       // bf_data

  function Next(i: nat): nat {
    if i + 1 < QUEUE_COUNT then i + 1 else 0
  }

  function Slide(i: nat, n: nat): nat {
    if i + n < QUEUE_COUNT then i + n else i + n - QUEUE_COUNT
  }

  // Number of requests waiting in the ring.
  function Waiting<B>(q: Disk<B>): nat
    requires q.req < QUEUE_COUNT
  {
    if q.req <= q.tail then q.tail - q.req else q.tail + QUEUE_COUNT - q.req
  }

  ghost predicate Shape<B>(q: Disk<B>) {
    && |q.slots| == QUEUE_COUNT && q.req < QUEUE_COUNT && q.tail < QUEUE_COUNT
    && q.blk.Keys == q.status.Keys == q.data.Keys
    && (forall i :: 0 <= i < QUEUE_COUNT && q.slots[i].buf.Some? ==> q.slots[i].buf.value in q.blk)
    && (forall i :: 0 <= i < Waiting(q) ==>
          q.slots[Slide(q.req, i)].buf.Some? && q.slots[Slide(q.req, i)].cmd == ATA_CMD_READ)
  }

  // The requests in the ring segment from req up to tail, oldest first.
  ghost function Pending<B>(q: Disk<B>): (s: seq<B>)
    requires Shape(q)
    ensures |s| == Waiting(q)
    ensures forall b :: b in s ==> b in q.blk
  {
    seq(Waiting(q), i requires 0 <= i < Waiting(q) => q.slots[Slide(q.req, i)].buf.value)
  }

  // ----- The code's actions -----

  // ata_read before do_request: fill the tail slot and advance the tail.
  function FillTail<B>(q: Disk<B>, b: B): Disk<B>
    requires |q.slots| == QUEUE_COUNT && q.tail < QUEUE_COUNT
  {
    q.(slots := q.slots[q.tail := Slot(Some(b), ATA_CMD_READ)])
  }

  function AdvanceTail<B>(q: Disk<B>): Disk<B> {
    q.(tail := Next(q.tail))
  }

  // The buffers of a log of requests or answers.
  ghost function BuffersOf<B>(log: seq<(B, nat)>): (s: seq<B>)
    ensures |s| == |log|
  {
    seq(|log|, i requires 0 <= i < |log| => log[i].0)
  }

  // The test in do_request that finds nothing to issue.
  predicate NothingToIssue<B>(q: Disk<B>)
    requires |q.slots| == QUEUE_COUNT && q.req < QUEUE_COUNT
  {
    q.req == q.tail || q.slots[q.req].buf.None?
  }

  function IssueHead<B>(q: Disk<B>): Disk<B>
    requires Shape(q) && !NothingToIssue(q)
  {
    q.(flight := q.flight + [q.blk[q.slots[q.req].buf.value]])
  }

  // do_request run without interruption.
  function DoRequest<B>(q: Disk<B>): Disk<B>
    requires Shape(q)
  {
    if q.lock then q
    else if NothingToIssue(q) then q
    else IssueHead(q)
  }

  function AtaRead<B>(q: Disk<B>, b: B): Disk<B>
    requires Shape(q) && b in q.blk && Waiting(q) < QUEUE_COUNT - 1
  {
    FillingKeepsShape(q, b);
    DoRequest(AdvanceTail(FillTail(q, b)))
  }

  // _get_block's miss: the buffer is marked busy and named after the block.
  function Renamed<B>(q: Disk<B>, b: B, blk: nat): Disk<B> {
    q.(status := q.status[b := BUF_BUSY], blk := q.blk[b := blk])
  }

  // The first half of on_disk_handler: the drive's data goes to the buffer of the head request, whichever
  // command it answers; the request is retired and the lock is dropped.
  function Retire<B>(q: Disk<B>, disk: Image): Disk<B>
    requires Shape(q) && q.flight != [] && q.slots[q.req].buf.Some?
  {
    var b := q.slots[q.req].buf.value;
    q.(data := q.data[b := disk(q.flight[0])],
       status := if q.status[b] == BUF_BUSY then q.status[b := BUF_FREE] else q.status,
       flight := q.flight[1..],
       req := Next(q.req),
       lock := false)
  }

  // on_disk_handler for a pending request; it runs with interrupts disabled.
  function Interrupt<B>(q: Disk<B>, disk: Image): Disk<B>
    requires Shape(q) && q.flight != [] && q.req != q.tail
  {
    assert q.slots[Slide(q.req, 0)].buf.Some?;
    RetireKeepsShape(q, disk);
    DoRequest(Retire(q, disk))
  }

  // ----- The ring as a queue -----

  lemma FillingKeepsShape<B>(q: Disk<B>, b: B)
    requires Shape(q) && b in q.blk && Waiting(q) < QUEUE_COUNT - 1
    ensures var r := AdvanceTail(FillTail(q, b));
            Shape(r) && Pending(r) == Pending(q) + [b] && Waiting(r) == Waiting(q) + 1
  {
  }

  lemma RenamingKeepsRing<B>(q: Disk<B>, b: B, blk: nat)
    requires Shape(q) && b in q.blk
    ensures var r := Renamed(q, b, blk); Shape(r) && Pending(r) == Pending(q) && Waiting(r) == Waiting(q)
    ensures var r := Renamed(q, b, blk); r.blk == q.blk[b := blk] && r.lock == q.lock && r.flight == q.flight
  {
  }

  lemma RetireKeepsShape<B>(q: Disk<B>, disk: Image)
    requires Shape(q) && q.flight != [] && q.req != q.tail && q.slots[q.req].buf.Some?
    ensures var r := Retire(q, disk);
            Shape(r) && Pending(q) == [q.slots[q.req].buf.value] + Pending(r)
  {
    var r := Retire(q, disk);
    assert Waiting(r) == Waiting(q) - 1;
    assert forall i :: 0 <= i < Waiting(r) ==> Slide(r.req, i) == Slide(q.req, i + 1);
    assert Slide(q.req, 0) == q.req;
  }

  // What ata_read does when it finds the lock free, with any number of requests waiting.
  lemma AtaReadEffect<B>(q: Disk<B>, b: B)
    requires Shape(q) && !q.lock && b in q.blk && Waiting(q) < QUEUE_COUNT - 1
    ensures var r := AtaRead(q, b);
            && Shape(r) && !r.lock && Pending(r) == Pending(q) + [b]
            && r.flight == q.flight + [q.blk[Pending(r)[0]]]
            && r.blk == q.blk && r.status == q.status && r.data == q.data
  {
    FillingKeepsShape(q, b);
    var m := AdvanceTail(FillTail(q, b));
    HeadIsOldest(m);
    assert Pending(AtaRead(q, b)) == Pending(m);
  }

  lemma SomeWait<B>(q: Disk<B>)
    requires Shape(q) && q.req != q.tail
    ensures Pending(q) != []
  {
  }

  lemma HeadIsOldest<B>(q: Disk<B>)
    requires Shape(q) && Pending(q) != []
    ensures q.slots[q.req].buf == Some(Pending(q)[0]) && !NothingToIssue(q)
  {
  }

  // One command in flight for the head request, none when the ring is empty, and the lock dropped.
  ghost predicate Settled<B>(q: Disk<B>) {
    && Shape(q)
    && !q.lock
    && q.flight == (if Pending(q) == [] then [] else [q.blk[Pending(q)[0]]])
  }

  ghost predicate AtRest<B>(q: Disk<B>) {
    Shape(q) && !q.lock && q.flight == [] && q.req == q.tail
  }

  /** However many requests wait and whichever command the drive is answering, the interrupt retires exactly the
      oldest request, puts the delivered block into its buffer, frees that buffer if it was busy, touches no
      other, and issues the command of the next request; with the one command of the oldest request in flight,
      the block delivered is its own and the next command is alone again. */
  lemma InterruptRetiresOldest<B>(q: Disk<B>, disk: Image)
    requires Shape(q) && q.flight != [] && Pending(q) != []
    ensures var b := Pending(q)[0];
            var r := Interrupt(q, disk);
            && Shape(r) && !r.lock && Pending(q) == [b] + Pending(r)
            && r.flight == q.flight[1..] + (if Pending(r) == [] then [] else [q.blk[Pending(r)[0]]])
            && r.data == q.data[b := disk(q.flight[0])]
            && r.status == (if q.status[b] == BUF_BUSY then q.status[b := BUF_FREE] else q.status)
            && r.blk == q.blk
            && (Settled(q) ==> Settled(r) && r.data[b] == disk(q.blk[b]))
  {
    HeadIsOldest(q);
    RetireKeepsShape(q, disk);
    var m := Retire(q, disk);
    if Pending(m) != [] { HeadIsOldest(m); }
    assert Pending(Interrupt(q, disk)) == Pending(m);
  }

  /** An interrupt that meets an empty ring, when the slot there has been used before: the handler puts the delivered
      block into the buffer of that old request, and from then on QUEUE_COUNT - 1 old requests seem to wait. */
  lemma InterruptOnEmptyRing<B>(q: Disk<B>, disk: Image)
    requires Shape(q) && q.flight != [] && q.req == q.tail
    requires q.slots[q.req].buf.Some? && q.slots[q.req].cmd == ATA_CMD_READ
    ensures var b, r := q.slots[q.req].buf.value, Retire(q, disk);
            && r.data == q.data[b := disk(q.flight[0])]
            && r.status == (if q.status[b] == BUF_BUSY then q.status[b := BUF_FREE] else q.status)
            && r.req < QUEUE_COUNT && Waiting(r) == QUEUE_COUNT - 1 && r.slots == q.slots
  {
  }

  /** do_request drops the lock while its command is still in flight, so ata_read keeps the discipline of
      one command for the head request in exactly one case: the ring was empty. */
  lemma AtaReadSettledIff<B>(q: Disk<B>, b: B)
    requires Settled(q) && b in q.blk && Waiting(q) < QUEUE_COUNT - 1
    ensures Settled(AtaRead(q, b)) <==> Pending(q) == []
    ensures Pending(AtaRead(q, b)) == Pending(q) + [b]
  {
    AtaReadEffect(q, b);
  }

  // After two interrupts b is marked free with another buffer's block in it, and the drive still owes an interrupt
  // although the ring is empty.
  ghost predicate GetsOthersBlock<B>(q: Disk<B>, b: B, other: nat, disk: Image)
    requires Shape(q) && b in q.blk
  {
    && q.flight != [] && q.req != q.tail
    && var r := Interrupt(q, disk);
    && Shape(r) && r.flight != [] && r.req != r.tail
    && Misled(Interrupt(r, disk), b, other, q.blk[b], disk)
  }

  ghost predicate Misled<B>(q: Disk<B>, b: B, other: nat, own: nat, disk: Image) {
    && b in q.status && q.status[b] == BUF_FREE && b in q.data && q.data[b] == disk(other)
    && q.flight == [own] && q.req == q.tail
  }

  /** A second ata_read before the first interrupt issues the first command again, and the second buffer gets the
      first one's block. */
  lemma SecondReadInFlightDeliversWrongBlock<B>(q: Disk<B>, b1: B, b2: B, disk: Image)
    requires AtRest(q) && b1 in q.blk && b2 in q.blk && b1 != b2
    requires q.status[b1] == q.status[b2] == BUF_BUSY
    ensures var q1 := AtaRead(q, b1);
            && Shape(q1) && Waiting(q1) == 1 && b2 in q1.blk
            && var q2 := AtaRead(q1, b2);
            && Shape(q2) && b2 in q2.blk && GetsOthersBlock(q2, b2, q.blk[b1], disk)
  {
    hide AtaRead, GetsOthersBlock;
    AtaReadEffect(q, b1);
    var q1 := AtaRead(q, b1);
    AtaReadEffect(q1, b2);
    CommandSentTwice(AtaRead(q1, b2), b1, b2, disk);
  }

  lemma CommandSentTwice<B>(q: Disk<B>, b1: B, b2: B, disk: Image)
    requires Shape(q) && Pending(q) == [b1, b2] && b1 != b2 && b2 in q.blk && q.flight == [q.blk[b1], q.blk[b1]]
    requires q.status[b1] == q.status[b2] == BUF_BUSY
    ensures GetsOthersBlock(q, b2, q.blk[b1], disk)
  {
    hide Interrupt, Pending;
    InterruptRetiresOldest(q, disk);
    var r := Interrupt(q, disk);
    assert Pending(r) == Pending(q)[1..] == [b2];
    InterruptRetiresOldest(r, disk);
  }
}
