/** minixfs/inodes.c: the table of resident inodes, on top of the block cache. */
module Inodes {
  import opened Machine
  import opened AtaRegisters
  import opened Buffers
  import opened CacheModel
  import opened CacheRuns
  import opened CacheClient
  import opened InodeModel
  import opened InodeStore
  import opened BufferCache
  import opened CacheExecution
  import opened Zones

  const INODE_LOCK: nat := 1

  // struct IndexNode; dev and inum double as the hash key.
  class IndexNode {
    var inode: PyIndexNode
    var dev: nat
    var status: nat
    var inum: nat
    var refs: nat
    var next: IndexNode?

    constructor (garbage: PyIndexNode)
      ensures next == null
    {
      inode := garbage;
      dev, status, inum, refs, next := 0, 0, 0, 0, null;
    }
  }

  class InodeTable {
    const cache: BlockCache
    const nstart: nat
    const inodeBegin: nat
    var ihash: map<(nat, nat), IndexNode>   // ihash_map and its chains
    var inFree: IndexNode?                  // free_inodes.in_free
    ghost var spare: seq<IndexNode>         // the list it heads

    ghost var nodes: set<IndexNode>         // every node allocated so far

    // Residency is exclusive ownership: every node in the table is locked, with a single reference.
    ghost predicate Resident()
      reads this`ihash, this`nodes, nodes`dev, nodes`inum, nodes`refs, nodes`status
    {
      && (forall k :: k in ihash ==>
            var n := ihash[k]; n in nodes && (n.dev, n.inum) == k && n.refs == 1 && n.status == INODE_LOCK)
      && forall k, l :: k in ihash && l in ihash && ihash[k] == ihash[l] ==> k == l
    }

    ghost predicate Spare()
      reads this`inFree, this`spare, this`nodes, nodes`next
    {
      && Distinct(spare) && (forall n :: n in spare ==> n in nodes)
      && inFree == (if spare == [] then null else spare[0])
      && forall i {:trigger spare[i].next} :: 0 <= i < |spare| ==>
           spare[i].next == if i + 1 < |spare| then spare[i + 1] else null
    }

    ghost predicate Valid()
      reads this`ihash, this`inFree, this`spare, this`nodes
      reads nodes`dev, nodes`inum, nodes`refs, nodes`status, nodes`next
    {
      && Resident() && Spare()
      && forall k :: k in ihash ==> ihash[k] !in spare
    }

    constructor (cache: BlockCache, nstart: nat, inodeBegin: nat)
      ensures this.cache == cache && this.nstart == nstart && this.inodeBegin == inodeBegin
      ensures Valid() && ihash == map[]
    {
      this.cache, this.nstart, this.inodeBegin := cache, nstart, inodeBegin;
      ihash, inFree, spare, nodes := map[], null, [], {};
    }

    // Take a node from the free list, or allocate one (alloc_object, assumed to succeed).
    method NewNode() returns (node: IndexNode)
      requires Valid()
      modifies this`inFree, this`spare, this`nodes
      ensures Valid() && (forall k :: k in ihash ==> ihash[k] != node) && node !in spare
      ensures nodes == old(nodes) + {node} && (fresh(node) || node in old(nodes))
    {
      if inFree == null {
        var garbage: PyIndexNode := *;
        node := new IndexNode(garbage);
        nodes := nodes + {node};
      } else {
        node := inFree;
        inFree := node.next;
        spare := spare[1..];
      }
    }

    // get_inode.  A resident inode is locked, so asking for it again would wait forever.
    method GetInode(dev: nat, idx: nat, ghost home: Key, ghost before: Cache<BlockBuffer>) returns (node: IndexNode)
      requires Valid() && Serviceable(cache) && before == cache.View() && idx < U16 && (dev, idx) !in ihash
      requires home == Key(dev, InodeBlock(inodeBegin, idx)) && home.blk < MAX_BLK && Available(before, home)
      modifies this, nodes, cache.Repr()
      ensures Valid() && Serviceable(cache) && cache.View() == Borrowed(before, home, cache.disk.image)
      ensures ihash == old(ihash)[(dev, idx) := node]
      ensures nodes == old(nodes) + {node} && (fresh(node) || node in old(nodes))
      ensures node.inode == InodeIn(before, home, cache.disk.image, InodeSlot(idx))
      ensures idx >= 1 ==> InTable(before, dev, inodeBegin, cache.disk.image, idx, node.inode)
    {
      hide Serviceable, Available, Borrowed, InodeIn, WellFormed, Valid, BlockCache.View, InTable;
      SoundFound(before, home);
      if idx >= 1 { InodeIsInTable(before, dev, inodeBegin, cache.disk.image, idx); }
      node := NewNode();
      var inode := ReadInode(dev, idx, home, before);
      Install(node, dev, idx, inode);
    }

    // The middle of get_inode: the inode's bytes from its block of the inode table.
    method ReadInode(dev: nat, idx: nat, ghost home: Key, ghost before: Cache<BlockBuffer>) returns (inode: PyIndexNode)
      requires Valid() && Serviceable(cache) && before == cache.View() && idx < U16
      requires home == Key(dev, InodeBlock(inodeBegin, idx)) && home.blk < MAX_BLK && Available(before, home)
      modifies cache.Repr()
      ensures Valid() && ihash == old(ihash) && spare == old(spare) && nodes == old(nodes)
      ensures Serviceable(cache) && cache.View() == Borrowed(before, home, cache.disk.image)
      ensures inode == InodeIn(before, home, cache.disk.image, InodeSlot(idx))
    {
      hide Serviceable, Borrowed, Logical, Slot, Valid;
      Unrelated(cache);
      var content := Borrow(cache, dev, InodeBlock(inodeBegin, idx), before);
      inode := Slot(content, InodeSlot(idx));
    }

    lemma SoundFound(c: Cache<BlockBuffer>, k: Key)
      requires Available(c, k)
      ensures Sound(c) && WellFormed(c)
    {
    }

    lemma UnrelatedNode(cache: BlockCache, node: IndexNode)
      ensures this !in cache.Repr() && node !in cache.Repr()
    {
    }

    // No inode shares memory with the block cache.
    lemma Unrelated(cache: BlockCache)
      ensures this !in cache.Repr()
      ensures forall n: IndexNode :: n !in cache.Repr()
    {
    }

    // The copy in get_inode and what follows it.
    method Install(node: IndexNode, dev: nat, idx: nat, inode: PyIndexNode)
      requires Valid() && (forall k :: k in ihash ==> ihash[k] != node) && node !in spare && node in nodes
      modifies this`ihash, node
      ensures Valid() && ihash == old(ihash)[(dev, idx) := node] && node.inode == inode
    {
      node.inode := inode;
      Enter(node, dev, idx);
    }

    // The initialisation at the end of get_inode and alloc_inode, and _put_hash_entity.
    method Enter(node: IndexNode, dev: nat, idx: nat)
      requires Valid() && (forall k :: k in ihash ==> ihash[k] != node) && node !in spare && node in nodes
      modifies this`ihash, node`dev, node`status, node`inum, node`refs
      ensures Valid() && ihash == old(ihash)[(dev, idx) := node]
    {
      node.dev := dev;
      node.status := INODE_LOCK;
      node.inum := idx;
      node.refs := 1;
      ihash := ihash[(dev, idx) := node];
    }

    // release_inode: the node leaves the table for the free list, its contents go back to the block.
    method ReleaseInode(node: IndexNode, ghost home: Key, ghost idx: nat, ghost before: Cache<BlockBuffer>)
      requires Valid() && (home.dev, idx) in ihash && ihash[(home.dev, idx)] == node
      requires idx < U16 && home.blk == InodeBlock(inodeBegin, idx) && home.blk < MAX_BLK
      requires cache.Valid() && before == cache.View() && Available(before, home)
      modifies this, nodes, cache.Repr()
      ensures Valid() && ihash == old(ihash) - {(home.dev, idx)} && spare == [node] + old(spare) && nodes == old(nodes)
      ensures node.inode == old(node.inode) && cache.Valid()
      ensures cache.View() == Stored(before, home, cache.disk.image, InodeSlot(idx), old(node.inode))
      ensures idx >= 1 ==>
                && Sound(cache.View())
                && InTable(cache.View(), home.dev, inodeBegin, cache.disk.image, idx, old(node.inode))
                && RestSame(before, cache.View(), home.dev, inodeBegin, cache.disk.image, idx)
    {
      hide Valid, Available, BlockCache.Valid, BlockCache.View, Stored, InodeBlock, InodeSlot, InTable, RestSame, WellFormed,
        Exclusive;
      SoundFound(before, home);
      assert home == Key(home.dev, InodeBlock(inodeBegin, idx));
      if idx >= 1 { StoredInTable(before, home.dev, inodeBegin, cache.disk.image, idx, node.inode); }
      Located(node, home.dev, idx);
      UnhashApart(node, before);
      StoreInode(Key(node.dev, InodeBlock(inodeBegin, node.inum)), InodeSlot(node.inum), node, before);
    }

    lemma Located(node: IndexNode, dev: nat, idx: nat)
      requires Valid() && (dev, idx) in ihash && ihash[(dev, idx)] == node
      ensures node in nodes && node.dev == dev && node.inum == idx
    {
    }

    // The end of release_inode: the node's contents go into its slot of the inode table, the lock is cleared.
    method StoreInode(home: Key, i: nat, node: IndexNode, ghost before: Cache<BlockBuffer>)
      requires Valid() && (forall k :: k in ihash ==> ihash[k] != node) && i < PER_BLOCK_INODES
      requires before == cache.View() && home.blk < MAX_BLK && Available(before, home) && cache.Valid()
      modifies cache.Repr(), node`status
      ensures Valid() && ihash == old(ihash) && spare == old(spare) && nodes == old(nodes)
      ensures node.inode == old(node.inode) && cache.View() == Stored(before, home, cache.disk.image, i, node.inode)
      ensures cache.Valid()
    {
      hide Valid, Available, BlockCache.Valid, Stored, BlockCache.View;
      UnrelatedNode(cache, node);
      CopyIn(home, i, node, before);
      ClearStatus(node);
    }

    method CopyIn(home: Key, i: nat, node: IndexNode, ghost before: Cache<BlockBuffer>)
      requires Valid() && i < PER_BLOCK_INODES
      requires before == cache.View() && home.blk < MAX_BLK && Available(before, home) && cache.Valid()
      modifies cache.Repr()
      ensures Valid() && ihash == old(ihash) && spare == old(spare) && nodes == old(nodes)
      ensures node.inode == old(node.inode) && cache.View() == Stored(before, home, cache.disk.image, i, node.inode)
      ensures cache.Valid()
    {
      hide Valid, Available, BlockCache.Valid, Stored;
      Unrelated(cache);
      WriteBack(cache, home.dev, home.blk, i, node.inode, before);
    }

    method ClearStatus(node: IndexNode)
      requires Valid() && forall k :: k in ihash ==> ihash[k] != node
      modifies node`status
      ensures Valid()
    {
      node.status := 0;
    }

    // The cache does not notice.
    method UnhashApart(node: IndexNode, ghost before: Cache<BlockBuffer>)
      requires Valid() && (node.dev, node.inum) in ihash && ihash[(node.dev, node.inum)] == node
      requires cache.Valid() && before == cache.View()
      modifies this`ihash, this`inFree, this`spare, node`refs, node`next
      ensures Valid() && forall k :: k in ihash ==> ihash[k] != node
      ensures ihash == old(ihash) - {(node.dev, node.inum)} && spare == [node] + old(spare)
      ensures cache.Valid() && before == cache.View()
    {
      hide Valid, BlockCache.Valid, BlockCache.View;
      UnrelatedNode(cache, node);
      Unhash(node);
    }

    // refs -= 1, and at zero the free list and _remove_hash_entity.
    method Unhash(node: IndexNode)
      requires Valid() && (node.dev, node.inum) in ihash && ihash[(node.dev, node.inum)] == node
      modifies this`ihash, this`inFree, this`spare, node`refs, node`next
      ensures Valid() && node.refs == 0 && forall k :: k in ihash ==> ihash[k] != node
      ensures ihash == old(ihash) - {(node.dev, node.inum)} && spare == [node] + old(spare)
    {
      node.refs := node.refs - 1;
      if node.refs == 0 {
        node.next := inFree;
        inFree := node;
        spare := [node] + spare;
        ihash := ihash - {(node.dev, node.inum)};
      }
    }
  }

  // get_block, memcpy of an inode into its slot, release_block.
  method WriteBack(cache: BlockCache, dev: nat, blk: nat, i: nat, inode: PyIndexNode, ghost before: Cache<BlockBuffer>)
    requires before == cache.View() && blk < MAX_BLK && i < PER_BLOCK_INODES && Available(before, Key(dev, blk))
    requires cache.Valid()
    modifies cache.Repr()
    ensures cache.View() == Stored(before, Key(dev, blk), cache.disk.image, i, inode)
    ensures cache.Valid()
  {
    hide BlockCache.Valid, WellFormed, Patch, Logical, Lossless, SameLogical;
    TakeUnheld(before, Key(dev, blk), cache.disk.image);
    var patience: nat := *;
    var buf := cache.GetBlock(dev, blk, patience);
    cache.WriteData(buf, Patch(buf.data, i, inode));
    cache.ReleaseBlock(buf);
  }

  /** release_inode, any calls that leave the block alone, get_inode: the node comes back with the bytes that
      were released, and the other fifteen inodes of the block read as before the release. */
  method ReleaseAndGetBack(table: InodeTable, node: IndexNode, dev: nat, idx: nat, ops: seq<Op<BlockBuffer>>,
                           ghost home: Key, ghost before: Cache<BlockBuffer>)
    returns (again: IndexNode)
    requires table.Valid() && (dev, idx) in table.ihash && table.ihash[(dev, idx)] == node && idx < U16
    requires Serviceable(table.cache) && before == table.cache.View() && Addressable(ops)
    requires home == Key(dev, InodeBlock(table.inodeBegin, idx)) && home.blk < MAX_BLK && Available(before, home)
    requires LeftAlone(before, home, table.cache.disk.image, InodeSlot(idx), node.inode, ops)
    modifies table, table.nodes, table.cache.Repr()
    ensures table.Valid() && Serviceable(table.cache) && table.ihash == old(table.ihash)[(dev, idx) := again]
    ensures again.inode == old(node.inode)
    ensures WellFormed(table.cache.View())
    ensures OthersSame(before, table.cache.View(), home, table.cache.disk.image, InodeSlot(idx))
  {
    ghost var image, i, inode := table.cache.disk.image, InodeSlot(idx), node.inode;
    ghost var stored, resident := Stored(before, home, image, i, inode), table.ihash;
    ghost var between := Run(stored, ops, image).value;
    StoredSlots(before, home, image, i, inode);
    StoredInodeReadsBack(before, home, image, i, inode, ops);
    BorrowedInodes(before, between, home, image, i);
    hide InodeTable.Valid, BlockCache.Valid, BlockCache.View, Available, WellFormed, Exclusive, Stored, Run, LeftAlone;
    hide InodeIn, OthersSame, Borrowed, InodeBlock, Addressable, Quiet;
    table.ReleaseInode(node, home, idx, before);
    Meanwhile(table, ops, stored);
    again := table.GetInode(dev, idx, home, between);
    OutAndIn(resident, (dev, idx), again);
  }

  lemma OutAndIn<K, T>(m: map<K, T>, k: K, x: T)
    ensures (m - {k})[k := x] == m[k := x]
  {
  }

  // Calls on the cache do not touch the inode table.
  method Meanwhile(table: InodeTable, ops: seq<Op<BlockBuffer>>, ghost c: Cache<BlockBuffer>)
    requires table.Valid() && table.cache.Valid() && table.cache.View() == c && WellFormed(c) && Exclusive(c)
    requires Run(c, ops, table.cache.disk.image).Some? && Addressable(ops)
    modifies table.cache.Repr()
    ensures table.Valid() && table.ihash == old(table.ihash) && table.nodes == old(table.nodes)
    ensures table.cache.Valid() && Run(c, ops, table.cache.disk.image) == Some(table.cache.View())
  {
    hide InodeTable.Valid, BlockCache.Valid, WellFormed, Exclusive, Run, BlockCache.View;
    table.Unrelated(table.cache);
    Execute(table.cache, ops, c);
  }

  lemma BorrowedInodes<B>(c: Cache<B>, d: Cache<B>, k: Key, disk: Image, i: nat)
    requires WellFormed(c) && Available(d, k) && OthersSame(c, d, k, disk, i)
    ensures WellFormed(Borrowed(d, k, disk)) && OthersSame(c, Borrowed(d, k, disk), k, disk, i)
  {
    BorrowIsQuiet(d, k, disk);
    TakeUnheld(d, k, disk);
    assert Logical(Borrowed(d, k, disk), k, disk) == Logical(d, k, disk);
    hide Borrowed, Get, Logical, WellFormed;
  }
}
