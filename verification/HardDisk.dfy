/**
 minixfs/hard_disk.c on its real structures: the request ring, the lock, and the buffers its handler
 fills.  Where the drive may interrupt, the model leaves the choice open with `if *`, so each contract
 holds for every placement of the interrupt.
 */
module HardDisk {
  import opened Machine
  import opened Buffers
  import opened DiskModel
  import opened AtaRegisters

  // struct DiskRequest: dr_buf and dr_cmd in slot; next is the index of the request dr_next points to.
  datatype DiskRequest = DiskRequest(slot: Slot<BlockBuffer>, next: nat)

  ghost function Blks(pool: set<BlockBuffer>): map<BlockBuffer, nat>
    reads pool`blk
  {
    map b | b in pool :: b.blk
  }

  ghost function Statuses(pool: set<BlockBuffer>): map<BlockBuffer, nat>
    reads pool`status
  {
    map b | b in pool :: b.status
  }

  ghost function Contents(pool: set<BlockBuffer>): map<BlockBuffer, Block>
    reads pool`data
  {
    map b | b in pool :: b.data
  }

  // Block numbers whose sectors the 28-bit address split can name.
  ghost predicate Addressable(pool: set<BlockBuffer>)
    reads pool`blk
  {
    forall b :: b in pool ==> b.blk < MAX_BLK
  }

  class DiskQueue {
    const req: array<DiskRequest>
    var head: nat           // disk_queue.dr_req
    var tail: nat           // disk_queue_tail
    var lock: bool          // disk_queue.dr_lock
    var flight: seq<nat>    // the drive: block numbers of commands whose interrupt is still to come
    const image: Image      // the drive: its contents

    ghost predicate Valid()
      reads this`head, this`tail, req
    {
      && req.Length == QUEUE_COUNT && head < QUEUE_COUNT && tail < QUEUE_COUNT
      && forall i :: 0 <= i < QUEUE_COUNT ==> req[i].next == Next(i)
    }

    // The queue and the buffers of the pool as a value.
    ghost function View(pool: set<BlockBuffer>): Disk<BlockBuffer>
      reads this, req, pool`blk, pool`status, pool`data
    {
      Disk(Slots(), head, tail, lock, flight,
           Blks(pool), Statuses(pool), Contents(pool))
    }

    ghost function Slots(): (s: seq<Slot<BlockBuffer>>)
      reads req
      ensures |s| == req.Length
      ensures forall i :: 0 <= i < req.Length ==> s[i] == req[i].slot
    {
      seq(req.Length, i requires 0 <= i < req.Length reads req => req[i].slot)
    }

    // init_disk
    constructor (image: Image)
      ensures Valid() && fresh(req) && this.image == image
      ensures head == tail && !lock && flight == []
      ensures forall i :: 0 <= i < QUEUE_COUNT ==> req[i].slot.buf.None?
    {
      this.image := image;
      req := new DiskRequest[QUEUE_COUNT](i => DiskRequest(Slot(None, 0), 0));
      head, tail, lock, flight := 0, 0, false, [];
      new;
      for i := 0 to QUEUE_COUNT
        invariant forall j :: 0 <= j < i ==> req[j] == DiskRequest(Slot(None, 0), j + 1)
        invariant head == tail == 0 && !lock && flight == []
      {
        req[i] := DiskRequest(Slot(None, 0), i + 1);
      }
      req[QUEUE_COUNT - 1] := req[QUEUE_COUNT - 1].(next := 0);
    }

    // do_request.  With interrupts enabled the drive may answer at any point after the command is sent.
    method DoRequest(enabled: bool, ghost pool: set<BlockBuffer>) returns (code: int)
      requires Valid() && Shape(View(pool)) && Addressable(pool)
      requires enabled ==> flight == [] && Waiting(View(pool)) <= 1
      modifies this`lock, this`flight, this`head, pool`data, pool`status
      ensures Valid()
      ensures var v := DiskModel.DoRequest(old(View(pool)));
              View(pool) == v || (enabled && v.flight != [] && v.req != v.tail && View(pool) == Interrupt(v, image))
      decreases if enabled then 2 else 0
    {
      hide Shape, Waiting, Interrupt, Slots, Statuses, Contents;
      ghost var before := View(pool);
      var taken := TryLock(pool);
      if !taken {
        return 0;
      }
      if head == tail || req[head].slot.buf == None {
        Unlock(pool);
        return -1;
      }
      HeadKnown(before);
      var blk := req[head].slot.buf.value.blk;
      AtaCmd(blk * PER_BLOCK_SECTORS % U32, pool);
      ghost var issued := IssueHead(before);
      assert View(pool) == issued.(lock := true);
      IssuedOnce(before, image);
      if enabled { MayAnswer(pool); }
      Unlock(pool);
      assert View(pool) == issued || (enabled && View(pool) == Interrupt(issued, image));
      hide IssueHead;
      if enabled { MayAnswer(pool); }
      return 0;
    }

    // lock: atomic swap with 1; a swap that reads 0 takes the lock.
    method TryLock(ghost pool: set<BlockBuffer>) returns (taken: bool)
      modifies this`lock
      ensures taken == !old(lock)
      ensures View(pool) == old(View(pool)).(lock := true)
    {
      taken, lock := !lock, true;
    }

    // unlock
    method Unlock(ghost pool: set<BlockBuffer>)
      modifies this`lock
      ensures View(pool) == old(View(pool)).(lock := false)
    {
      lock := false;
    }

    // ata_cmd: the drive accepts a command for the sector its registers name.
    method AtaCmd(lba: nat, ghost pool: set<BlockBuffer>)
      requires lba < LBA28
      modifies this`flight
      ensures View(pool) == old(View(pool)).(flight := old(flight) + [lba / PER_BLOCK_SECTORS])
    {
      SplitNamesSectorIff(lba);
      flight := flight + [Sector(Split(lba)) / PER_BLOCK_SECTORS];
    }

    // A point where a pending interrupt may be taken.
    method MayAnswer(ghost pool: set<BlockBuffer>)
      requires Valid() && Shape(View(pool)) && Addressable(pool) && (flight != [] ==> head != tail)
      modifies this`lock, this`flight, this`head, pool`data, pool`status
      ensures Valid()
      ensures View(pool) == old(View(pool)) ||
              (old(flight) != [] && View(pool) == Interrupt(old(View(pool)), image))
      decreases 1, 1
    {
      if * {
        if flight != [] {
          OnDiskHandler(pool);
        }
      }
    }

    // on_disk_handler: deliver the drive's data, free the buffer, retire the request, issue the next.
    method OnDiskHandler(ghost pool: set<BlockBuffer>)
      requires Valid() && Shape(View(pool)) && Addressable(pool) && flight != [] && head != tail
      modifies this`lock, this`flight, this`head, pool`data, pool`status
      ensures Valid() && View(pool) == Interrupt(old(View(pool)), image)
      decreases 1, 0
    {
      ghost var before := View(pool);
      assert before.slots[Slide(head, 0)] == req[head].slot;
      Deliver(pool);
      HeadIsOldest(before);
      RetireKeepsShape(before, image);
      var _ := DoRequest(false, pool);
    }

    // The statements of on_disk_handler up to the unlock.
    method Deliver(ghost pool: set<BlockBuffer>)
      requires Valid() && Shape(View(pool)) && flight != [] && req[head].slot.buf.Some? && req[head].slot.cmd == ATA_CMD_READ
      modifies this`lock, this`flight, this`head, pool`data, pool`status
      ensures Valid() && View(pool) == Retire(old(View(pool)), image)
    {
      assert req[head].slot.buf.value in pool;
      hide Shape, View;
      Transfer(req[head].slot.buf.value, req[head].slot.cmd, image(flight[0]), pool);
      NextRequest(pool);
    }

    method Transfer(buffer: BlockBuffer, cmd: nat, content: Block, ghost pool: set<BlockBuffer>)
      requires Valid() && buffer in pool && cmd == ATA_CMD_READ
      modifies buffer`data, buffer`status
      ensures Valid()
      ensures var q := old(View(pool));
              && buffer in q.status
              && View(pool) == q.(data := q.data[buffer := content],
                                  status := if q.status[buffer] == BUF_BUSY then q.status[buffer := BUF_FREE] else q.status)
    {
      ghost var before := View(pool);
      Complete(buffer, cmd, content, pool);
      assert Slots() == before.slots;
      assert Blks(pool) == before.blk;
    }

    method NextRequest(ghost pool: set<BlockBuffer>)
      requires Valid() && flight != []
      modifies this`lock, this`flight, this`head
      ensures Valid()
      ensures View(pool) == old(View(pool)).(flight := old(flight)[1..], req := Next(old(head)), lock := false)
    {
      flight := flight[1..];
      head := req[head].next;
      lock := false;
    }

    // ata_read.  With interrupts enabled it starts from rest, and the drive is free to answer at once.
    method AtaRead(buffer: BlockBuffer, enabled: bool, ghost pool: set<BlockBuffer>) returns (code: int)
      requires Valid() && Shape(View(pool)) && Addressable(pool) && buffer in pool
      requires if enabled then AtRest(View(pool)) else Waiting(View(pool)) < QUEUE_COUNT - 1
      modifies this`lock, this`flight, this`head, this`tail, req, pool`data, pool`status
      ensures Valid()
      ensures !enabled ==> Waiting(old(View(pool))) < QUEUE_COUNT - 1 && View(pool) == DiskModel.AtaRead(old(View(pool)), buffer)
      ensures enabled ==>
                && Waiting(old(View(pool))) < QUEUE_COUNT - 1
                && var v := DiskModel.AtaRead(old(View(pool)), buffer);
                && Shape(v) && v.flight != [] && v.req != v.tail
                && (View(pool) == v || View(pool) == Interrupt(v, image))
    {
      hide Shape, Waiting, Pending, Interrupt, AtRest;
      ghost var before := View(pool);
      if enabled { ReadFromRest(before, buffer); }
      FillingKeepsShape(before, buffer);
      SetTail(buffer, pool);
      StepTail(pool);
      code := DoRequest(enabled, pool);
    }

    method SetTail(buffer: BlockBuffer, ghost pool: set<BlockBuffer>)
      requires Valid()
      modifies req
      ensures Valid() && View(pool) == FillTail(old(View(pool)), buffer)
    {
      req[tail] := req[tail].(slot := Slot(Some(buffer), ATA_CMD_READ));
      assert View(pool).slots == FillTail(old(View(pool)), buffer).slots;
    }

    method StepTail(ghost pool: set<BlockBuffer>)
      requires Valid()
      modifies this`tail
      ensures Valid() && View(pool) == AdvanceTail(old(View(pool)))
    {
      tail := req[tail].next;
    }

    // wait_for: spin until the handler has freed the buffer.  patience bounds how long the drive may take.
    method WaitFor(buffer: BlockBuffer, patience: nat, ghost pool: set<BlockBuffer>)
      requires Valid() && Shape(View(pool)) && Addressable(pool) && buffer in pool
      requires buffer.status != BUF_FREE ==>
                 buffer.status == BUF_BUSY && flight != [] && Pending(View(pool)) == [buffer]
      modifies this`lock, this`flight, this`head, pool`data, pool`status
      ensures Valid() && buffer.status == BUF_FREE
      ensures old(buffer.status) == BUF_FREE ==> View(pool) == old(View(pool))
      ensures old(buffer.status) != BUF_FREE ==>
                && old(View(pool)).req != old(View(pool)).tail
                && View(pool) == Interrupt(old(View(pool)), image)
    {
      hide Shape, Waiting, Interrupt;
      var left := patience;
      ghost var before := View(pool);
      if buffer.status != BUF_FREE { ServedByInterrupt(before, buffer, image); }
      while buffer.status != BUF_FREE
        invariant Valid() && (buffer.status == BUF_FREE || View(pool) == before)
        invariant buffer.status == BUF_FREE && old(buffer.status) != BUF_FREE ==> View(pool) == Interrupt(before, image)
        invariant old(buffer.status) == BUF_FREE ==> View(pool) == before
        decreases buffer.status != BUF_FREE, left
      {
        if left == 0 {
          OnDiskHandler(pool);
          assert View(pool).status[buffer] == buffer.status;
        } else {
          left := left - 1;
        }
      }
    }
  
    // get_block on a busy buffer: ata_read, then wait_for.
    method Read(buffer: BlockBuffer, patience: nat, ghost pool: set<BlockBuffer>)
      requires Valid() && AtRest(View(pool)) && Addressable(pool) && buffer in pool && buffer.status == BUF_BUSY
      modifies this`lock, this`flight, this`head, this`tail, req, pool`data, pool`status
      ensures Valid() && AtRest(View(pool))
      ensures Contents(pool) == old(Contents(pool))[buffer := image(buffer.blk)]
      ensures buffer.status == BUF_FREE && forall b :: b in pool && b != buffer ==> b.status == old(b.status)
    {
      hide Shape, Waiting, Pending, Interrupt, DiskModel.AtaRead, Valid, Slots;
      ghost var before := Statuses(pool);
      assert forall b :: b in pool ==> before[b] == b.status;
      ReadAnswered(View(pool), buffer, image);
      var _ := AtaRead(buffer, true, pool);
      WaitFor(buffer, patience, pool);
      StatusAfter(buffer, pool, before);
    }

    lemma StatusAfter(buffer: BlockBuffer, pool: set<BlockBuffer>, before: map<BlockBuffer, nat>)
      requires buffer in pool && Statuses(pool) == before[buffer := BUF_FREE]
      ensures buffer.status == BUF_FREE && forall b :: b in pool && b != buffer ==> b in before && b.status == before[b]
    {
      assert forall b :: b in pool ==> Statuses(pool)[b] == b.status;
    }
  }

  // The transfer and the status change in on_disk_handler.
  method Complete(buffer: BlockBuffer, cmd: nat, content: Block, ghost pool: set<BlockBuffer>)
    requires buffer in pool && cmd == ATA_CMD_READ
    modifies buffer`data, buffer`status
    ensures Contents(pool) == old(Contents(pool))[buffer := content]
    ensures Statuses(pool) == if old(buffer.status) == BUF_BUSY then old(Statuses(pool))[buffer := BUF_FREE]
                              else old(Statuses(pool))
  {
    if cmd == ATA_CMD_READ {
      buffer.data := content;
    }
    if buffer.status == BUF_DELAYWRITE {
      // release_block leaves a buffer with a delayed write as it is
    } else if buffer.status == BUF_BUSY {
      buffer.status := BUF_FREE;
    }
  }

  // With one request in the ring, the command just issued may be answered before or after the unlock.
  lemma IssuedOnce<B>(q: Disk<B>, disk: Image)
    requires Shape(q) && !NothingToIssue(q)
    ensures var v := IssueHead(q);
            && Shape(v) && Shape(v.(lock := true))
            && Interrupt(v.(lock := true), disk) == Interrupt(v, disk)
            && Shape(Interrupt(v, disk)) && !Interrupt(v, disk).lock
            && (q.flight == [] && Waiting(q) <= 1 ==> Interrupt(v, disk).flight == [])
  {
    InterruptRetiresOldest(IssueHead(q), disk);
  }

  lemma HeadKnown<B>(q: Disk<B>)
    requires Shape(q) && !NothingToIssue(q)
    ensures q.slots[q.req].buf.value in q.blk
  {
  }

  lemma ReadFromRest<B>(q: Disk<B>, b: B)
    requires AtRest(q) && b in q.blk
    ensures Waiting(q) < QUEUE_COUNT - 1
    ensures var m := AdvanceTail(FillTail(q, b));
            && Shape(m) && Waiting(m) <= 1 && m.flight == []
            && AtaRead(q, b) == DiskModel.DoRequest(m)
    ensures var v := AtaRead(q, b); Shape(v) && v.flight != [] && v.req != v.tail && Pending(v) == [b]
  {
    FillingKeepsShape(q, b);
    AtaReadEffect(q, b);
  }

  lemma ServedByInterrupt<B>(q: Disk<B>, b: B, disk: Image)
    requires Shape(q) && q.flight != [] && Pending(q) == [b] && b in q.status && q.status[b] == BUF_BUSY
    ensures q.req != q.tail && Interrupt(q, disk).status[b] == BUF_FREE
  {
    InterruptRetiresOldest(q, disk);
  }

  // A read from rest, once answered, leaves the queue at rest and the block in the buffer.
  lemma ReadAnswered<B>(q: Disk<B>, b: B, image: Image)
    requires AtRest(q) && b in q.blk && q.status[b] == BUF_BUSY
    ensures Waiting(q) < QUEUE_COUNT - 1
    ensures var v := AtaRead(q, b);
            && Shape(v) && v.flight != [] && v.req != v.tail && Pending(v) == [b] && v.status == q.status
            && var r := Interrupt(v, image);
            && AtRest(r)
            && r.data == q.data[b := image(q.blk[b])] && r.status == q.status[b := BUF_FREE]
  {
    ReadFromRest(q, b);
    AtaReadEffect(q, b);
    InterruptRetiresOldest(AtaRead(q, b), image);
  }
}
