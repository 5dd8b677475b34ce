/** minixfs/buffer.c: the hash table, the free ring and the disk queue working together as the block cache. */
module BufferCache {
  import opened Machine
  import opened Buffers
  import opened CacheModel
  import opened AtaRegisters
  import FreeRing
  import HashTable
  import HardDisk
  import DiskModel

  const BUF_FREE: nat := DiskModel.BUF_FREE
  const BUF_BUSY: nat := DiskModel.BUF_BUSY
  const BUF_DELAYWRITE: nat := DiskModel.BUF_DELAYWRITE

  // PAGE_SIZE / sizeof(struct BlockBuffer)
  const BUFFER_LIST_LEN: nat := 128

  class BlockCache {
    const table: HashTable.BufferTable
    const freeList: FreeRing.FreeList
    const disk: HardDisk.DiskQueue
    ghost const pool: set<BlockBuffer>
    ghost var held: multiset<BlockBuffer>

    ghost function Repr(): set<object>
    {
      {this, table, table.map_, freeList, disk, disk.req} + pool
    }

    // The linked structures over the pool.
    ghost predicate Structure()
      reads this`held, table, table.map_, freeList
      reads pool`dev, pool`blk, pool`hashPrev, pool`hashNext, pool`prev, pool`next
    {
      && table.pool == pool && table.Valid()
      && (forall b :: b in freeList.ring ==> b in pool) && freeList.Valid()
      && (forall b :: b in held ==> b in pool)
      && HardDisk.Addressable(pool)
    }

    // Every keyed buffer, the given ones aside, has its data in place.
    ghost predicate Statuses(others: set<BlockBuffer>)
      reads pool`status, pool`dev, pool`blk, table`index
    {
      && (forall b :: b in pool && b !in others ==> b.status == BUF_FREE || b.status == 0)
      && (forall b :: b in pool && b !in others && table.Linked(b) ==> b.status == BUF_FREE)
    }

    ghost predicate Valid()
      reads Repr()
    {
      && Structure() && Statuses({})
      && disk.Valid() && DiskModel.AtRest(disk.View(pool))
    }

    ghost function View(): Cache<BlockBuffer>
      reads this, freeList, table, pool`data
    {
      Cache(pool, freeList.ring, held, table.index, HardDisk.Contents(pool))
    }

    constructor (table: HashTable.BufferTable, freeList: FreeRing.FreeList, disk: HardDisk.DiskQueue,
                 ghost pool: set<BlockBuffer>)
      requires table.pool == pool && table.Valid() && table.index == map[]
      requires freeList.Valid() && forall b :: b in freeList.ring ==> b in pool
      requires forall b :: b in pool ==> b.status == b.blk == 0
      requires disk.Valid() && DiskModel.AtRest(disk.View(pool))
      ensures this.table == table && this.freeList == freeList && this.disk == disk && this.pool == pool
      ensures held == multiset{} && Valid()
    {
      this.table, this.freeList, this.disk := table, freeList, disk;
      this.pool, held := pool, multiset{};
    }

    // _get_block.  With a buffer in the free ring the retry loop ends on its first pass.
    method Lookup(dev: nat, blk: nat) returns (buf: BlockBuffer)
      requires Structure() && Statuses({}) && blk < MAX_BLK && freeList.ring != []
      modifies table`chain, table`index, table.map_, freeList, pool`prev, pool`next, pool`hashPrev, pool`hashNext
      modifies pool`dev, pool`blk, pool`status
      ensures Structure() && buf in pool && buf == old(Chosen(View(), Key(dev, blk)))
      ensures var v := Get(old(View()), Key(dev, blk), disk.image);
              freeList.ring == v.free && table.index == v.index
      ensures Key(dev, blk) in old(table.index) ==> Statuses({}) && buf.status == BUF_FREE
      ensures Key(dev, blk) !in old(table.index) ==>
                Statuses({buf}) && buf.dev == dev && buf.blk == blk && buf.status == BUF_BUSY
    {
      var found: BlockBuffer? := null;
      while found == null
        invariant Structure()
        invariant found == null ==>
                    Statuses({}) && freeList.ring == old(freeList.ring) && table.index == old(table.index)
        invariant found != null ==>
                    && found in pool && found == old(Chosen(View(), Key(dev, blk)))
                    && (var v := Get(old(View()), Key(dev, blk), disk.image);
                        freeList.ring == v.free && table.index == v.index)
                    && if Key(dev, blk) in old(table.index) then Statuses({}) && found.status == BUF_FREE
                       else Statuses({found}) && found.dev == dev && found.blk == blk && found.status == BUF_BUSY
        decreases found == null
      {
        hide HashTable.BufferTable.Valid, FreeRing.FreeList.Valid;
        found := Attempt(dev, blk);
      }
      buf := found;
    }

    // One pass of the loop in _get_block; null stands for its `continue`.
    method Attempt(dev: nat, blk: nat) returns (buf: BlockBuffer?)
      requires Structure() && Statuses({}) && blk < MAX_BLK
      requires Key(dev, blk) in table.index ==> freeList.ring != []
      modifies table`chain, table`index, table.map_, freeList, pool`prev, pool`next, pool`hashPrev, pool`hashNext
      modifies pool`dev, pool`blk, pool`status
      ensures Structure()
      ensures old(freeList.ring) == [] ==> buf == null && Statuses({}) && freeList.ring == [] && table.index == old(table.index)
      ensures old(freeList.ring) != [] ==>
                && buf in pool && buf == old(Chosen(View(), Key(dev, blk)))
                && (var v := Get(old(View()), Key(dev, blk), disk.image);
                    freeList.ring == v.free && table.index == v.index)
                && if Key(dev, blk) in old(table.index) then Statuses({}) && buf.status == BUF_FREE
                   else Statuses({buf}) && buf.dev == dev && buf.blk == blk && buf.status == BUF_BUSY
    {
      hide HashTable.BufferTable.Valid, FreeRing.FreeList.Valid;
      table.IndexExact();
      buf := table.Find(dev, blk);
      if buf != null {
        if buf.status == BUF_BUSY {
          return null;
        } else if buf.status == BUF_FREE {
          Detach(buf);
        }
        return;
      }
      buf := freeList.Take();
      if buf == null {
        return;
      } else if buf.status == BUF_DELAYWRITE {
        return null;
      } else {
        Recycle(buf, dev, blk);
      }
    }

    // _get_block's scenario 1: the resident buffer leaves the free ring.
    method Detach(buf: BlockBuffer)
      requires Structure() && freeList.ring != []
      modifies freeList, pool`prev, pool`next
      ensures Structure() && freeList.ring == Unlinked(old(freeList.ring), buf)
    {
      hide HashTable.BufferTable.Valid, FreeRing.FreeList.Valid;
      var _ := freeList.Remove(buf);
    }

    // _get_block's scenario 2: the detached buffer becomes the busy buffer of another block.
    method Recycle(buf: BlockBuffer, dev: nat, blk: nat)
      requires Structure() && blk < MAX_BLK && buf in pool && Key(dev, blk) !in table.index
      modifies table`chain, table`index, table.map_, pool`hashPrev, pool`hashNext, buf`dev, buf`blk, buf`status
      ensures Structure() && table.index == Unkey(old(table.index), buf)[Key(dev, blk) := buf]
      requires Statuses({})
      ensures buf.dev == dev && buf.blk == blk && buf.status == BUF_BUSY && Statuses({buf})
    {
      hide HashTable.BufferTable.Valid, FreeRing.FreeList.Valid;
      table.Rekey(buf, dev, blk, BUF_BUSY);
    }

    // get_block: find or recycle a buffer, and read the block if the buffer came back busy.
    method GetBlock(dev: nat, blk: nat, patience: nat) returns (buf: BlockBuffer)
      requires Valid() && blk < MAX_BLK && freeList.ring != []
      modifies this`held, table`chain, table`index, table.map_, freeList, pool, disk, disk.req
      ensures Valid() && buf == old(Chosen(View(), Key(dev, blk)))
      ensures View() == Get(old(View()), Key(dev, blk), disk.image)
    {
      hide HashTable.BufferTable.Valid, FreeRing.FreeList.Valid, HardDisk.DiskQueue.Valid;
      hide DiskModel.AtRest, Statuses, HardDisk.DiskQueue.View, HardDisk.Contents, Unlinked, Unkey, HardDisk.Addressable;
      buf := Obtain(dev, blk, patience);
      held := held + multiset{buf};
    }

    // The code of get_block; the new hold is recorded by the caller.
    method Obtain(dev: nat, blk: nat, patience: nat) returns (buf: BlockBuffer)
      requires Valid() && blk < MAX_BLK && freeList.ring != []
      modifies table`chain, table`index, table.map_, freeList, pool, disk, disk.req
      ensures Valid() && buf in pool && buf == old(Chosen(View(), Key(dev, blk)))
      ensures View() == Get(old(View()), Key(dev, blk), disk.image).(held := held)
    {
      hide HashTable.BufferTable.Valid, FreeRing.FreeList.Valid, HardDisk.DiskQueue.Valid, HardDisk.DiskQueue.View;
      hide DiskModel.AtRest, Unlinked, Unkey, HardDisk.Contents, HardDisk.Addressable;
      buf := LookupAtRest(dev, blk);
      Fill(buf, patience);
    }

    // _get_block, seen from the disk queue, which does not notice.
    method LookupAtRest(dev: nat, blk: nat) returns (buf: BlockBuffer)
      requires Valid() && blk < MAX_BLK && freeList.ring != []
      modifies table`chain, table`index, table.map_, freeList, pool`prev, pool`next, pool`hashPrev, pool`hashNext
      modifies pool`dev, pool`blk, pool`status
      ensures Structure() && disk.Valid() && DiskModel.AtRest(disk.View(pool))
      ensures buf in pool && buf == old(Chosen(View(), Key(dev, blk)))
      ensures var v := Get(old(View()), Key(dev, blk), disk.image);
              freeList.ring == v.free && table.index == v.index
      ensures Key(dev, blk) in old(table.index) ==> Statuses({}) && buf.status == BUF_FREE
      ensures Key(dev, blk) !in old(table.index) ==>
                Statuses({buf}) && buf.blk == blk && buf.status == BUF_BUSY
    {
      hide HashTable.BufferTable.Valid, FreeRing.FreeList.Valid, HardDisk.DiskQueue.Valid, HardDisk.DiskQueue.Slots;
      hide DiskModel.Shape, DiskModel.Waiting, Unlinked, Unkey;
      ghost var q := disk.View(pool);
      buf := Lookup(dev, blk);
      SameRing(q, disk.View(pool));
    }

    // The end of get_block: a busy buffer is read from the disk.
    method Fill(buf: BlockBuffer, patience: nat)
      requires Structure() && buf in pool && Statuses({buf}) && (buf.status == BUF_BUSY || Statuses({}))
      requires disk.Valid() && DiskModel.AtRest(disk.View(pool))
      modifies disk, disk.req, pool`data, pool`status
      ensures Structure() && Statuses({}) && disk.Valid() && DiskModel.AtRest(disk.View(pool))
      ensures HardDisk.Contents(pool) ==
                if old(buf.status) == BUF_BUSY then old(HardDisk.Contents(pool))[buf := disk.image(buf.blk)]
                else old(HardDisk.Contents(pool))
    {
      hide HashTable.BufferTable.Valid, FreeRing.FreeList.Valid, HardDisk.DiskQueue.Valid, HardDisk.DiskQueue.Slots;
      hide DiskModel.AtRest;
      if buf.status == BUF_BUSY {
        assert HardDisk.Addressable(pool);
        hide Structure;
        disk.Read(buf, patience, pool);
      }
    }

    // release_block.  Releasing a buffer that is already in the ring would tie the ring into a knot.
    method ReleaseBlock(buf: BlockBuffer)
      requires Valid() && buf in pool && buf !in freeList.ring
      modifies this`held, freeList, pool`prev, pool`next
      ensures Valid() && View() == Release(old(View()), buf)
    {
      hide HashTable.BufferTable.Valid, FreeRing.FreeList.Valid, HardDisk.DiskQueue.Valid;
      hide DiskModel.AtRest, HardDisk.DiskQueue.View, Statuses, HardDisk.Contents, HardDisk.Addressable;
      Settled(buf);
      PutBack(buf);
      held := held - multiset{buf};
    }

    // Between calls no buffer is busy or waiting to be written.
    lemma Settled(buf: BlockBuffer)
      requires Statuses({}) && buf in pool
      ensures buf.status != BUF_DELAYWRITE && buf.status != BUF_BUSY
    {
    }

    // The code of release_block; a delayed-write or busy buffer is left alone.
    method PutBack(buf: BlockBuffer)
      requires Structure() && buf in pool && buf !in freeList.ring
      modifies freeList, pool`prev, pool`next
      ensures Structure()
      ensures freeList.ring == if buf.status == BUF_DELAYWRITE || buf.status == BUF_BUSY then old(freeList.ring)
                               else old(freeList.ring) + [buf]
    {
      hide HashTable.BufferTable.Valid, FreeRing.FreeList.Valid;
      if buf.status == BUF_DELAYWRITE {
      } else if buf.status == BUF_BUSY {
      } else {
        freeList.Append(buf);
      }
    }

    // A client stores new contents in the buffer it holds.
    method WriteData(buf: BlockBuffer, content: Block)
      requires Valid() && buf in pool
      modifies buf`data
      ensures Valid() && View() == Write(old(View()), buf, content) && buf.data == content
    {
      hide HashTable.BufferTable.Valid, FreeRing.FreeList.Valid, HardDisk.DiskQueue.Valid, HardDisk.DiskQueue.Slots;
      hide DiskModel.Shape;
      ghost var q := disk.View(pool);
      buf.data := content;
      SameRing(q, disk.View(pool));
    }
  }

  // init_disk and init_block_buffer.
  method InitBlockBuffer(image: Image) returns (c: BlockCache)
    ensures fresh(c) && c.Valid() && c.disk.image == image
    ensures c.View().index == map[] && c.View().held == multiset{}
    ensures |c.View().free| == BUFFER_LIST_LEN && Exclusive(c.View())
  {
    hide Distinct, IsRing, DiskModel.Shape, HashTable.BufferTable.Links, HashTable.BufferTable.Coupled;
    var bufs := ZeroPage();
    FreeRing.LinkAll(bufs);
    ghost var pool := set b | b in bufs;
    var table := new HashTable.BufferTable(pool);
    var freeList := new FreeRing.FreeList(bufs);
    var disk := new HardDisk.DiskQueue(image);
    EmptyRingShape(disk.View(pool));
    AllOwned(bufs, pool);
    c := new BlockCache(table, freeList, disk, pool);
  }

  lemma SameRing<B>(q: DiskModel.Disk<B>, r: DiskModel.Disk<B>)
    requires DiskModel.AtRest(q)
    requires r.slots == q.slots && r.req == q.req && r.tail == q.tail && r.lock == q.lock && r.flight == q.flight
    requires r.blk.Keys == r.status.Keys == r.data.Keys == q.blk.Keys
    ensures DiskModel.AtRest(r)
  {
  }

  lemma EmptyRingShape<B>(q: DiskModel.Disk<B>)
    requires |q.slots| == DiskModel.QUEUE_COUNT && q.req == q.tail < DiskModel.QUEUE_COUNT
    requires q.blk.Keys == q.status.Keys == q.data.Keys
    requires forall i :: 0 <= i < DiskModel.QUEUE_COUNT ==> q.slots[i].buf.None?
    ensures DiskModel.Shape(q)
  {
  }

  // The page alloc_page hands to init_block_buffer, seen as an array of buffer records.
  method ZeroPage() returns (bufs: seq<BlockBuffer>)
    ensures |bufs| == BUFFER_LIST_LEN && Distinct(bufs) && fresh(set b | b in bufs)
    ensures forall b :: b in bufs ==>
              b.dev == b.blk == b.status == 0 && b.hashPrev == b.hashNext == null
  {
    bufs := [];
    for i := 0 to BUFFER_LIST_LEN
      invariant |bufs| == i && Distinct(bufs) && fresh(set b | b in bufs)
      invariant forall b :: b in bufs ==>
                  b.dev == b.blk == b.status == 0 && b.hashPrev == b.hashNext == null
    {
      var b := new BlockBuffer();
      bufs := bufs + [b];
    }
  }

  lemma AllOwned<B>(s: seq<B>, pool: set<B>)
    requires Distinct(s) && pool == set b | b in s
    ensures multiset(s) == multiset(pool)
  {
    DistinctMultiplicity(s);
  }
}
