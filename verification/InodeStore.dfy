/** What release_inode does to the cache, and what get_inode then reads. */
module InodeStore {
  import opened Machine
  import opened CacheModel
  import opened CacheRuns
  import opened CacheClient
  import opened InodeModel

  // What the cache holds after an inode has been copied into its block.
  ghost function Stored<B>(c: Cache<B>, k: Key, disk: Image, i: nat, inode: PyIndexNode): Cache<B>
    requires i < PER_BLOCK_INODES && Available(c, k)
  {
    GetReturnsBlock(c, k, disk);
    var b := Chosen(c, k);
    var g := Get(c, k, disk);
    Release(Write(g, b, Patch(g.data[b], i, inode)), b)
  }

  // What get_inode finds in slot i of block k.
  ghost function InodeIn<B>(c: Cache<B>, k: Key, disk: Image, i: nat): PyIndexNode
    requires i < PER_BLOCK_INODES && WellFormed(c)
  {
    Slot(Logical(c, k, disk), i)
  }

  // The inodes of block k but the i-th read the same in both states.
  ghost predicate OthersSame<B>(c: Cache<B>, d: Cache<B>, k: Key, disk: Image, i: nat)
    requires WellFormed(c) && WellFormed(d)
  {
    forall j :: 0 <= j < PER_BLOCK_INODES && j != i ==> InodeIn(d, k, disk, j) == InodeIn(c, k, disk, j)
  }

  /** Storing an inode is invisible to every client, and changes its slot of its block alone. */
  lemma StoredSlots<B>(c: Cache<B>, k: Key, disk: Image, i: nat, inode: PyIndexNode)
    requires Available(c, k) && i < PER_BLOCK_INODES
    ensures var s := Stored(c, k, disk, i, inode);
            && Available(s, k) && Quiet(c, s)
            && InodeIn(s, k, disk, i) == inode && OthersSame(c, s, k, disk, i)
  {
    StoredLogical(c, k, disk, i, inode);
    PatchedSlots(Logical(c, k, disk), i, inode);
  }

  lemma StoredLogical<B>(c: Cache<B>, k: Key, disk: Image, i: nat, inode: PyIndexNode)
    requires Available(c, k) && i < PER_BLOCK_INODES
    ensures var s := Stored(c, k, disk, i, inode);
            && Available(s, k) && Quiet(c, s)
            && Logical(s, k, disk) == Patch(Logical(c, k, disk), i, inode)
  {
    TakeUnheld(c, k, disk);
    BorrowIsQuiet(c, k, disk);
    BorrowedKeyed(c, k, disk);
    StoredIsBorrowed(c, k, disk, i, inode);
    var d, b := Borrowed(c, k, disk), Chosen(c, k);
    hide Get, Chosen, Release, Quiet, Exclusive, WellFormed, Holding, SameLogical, Lossless, Clean, Patch, Stored;
    Rewritten(c, d, k, b, Patch(d.data[b], i, inode), disk);
  }

  // New contents for k's buffer, which nobody holds.
  lemma Rewritten<B>(c: Cache<B>, d: Cache<B>, k: Key, b: B, content: Block, disk: Image)
    requires !Holding(c, k) && Sound(d) && Quiet(c, d) && b !in c.held
    requires k in d.index && d.index[k] == b && b in d.data
    ensures var s := d.(data := d.data[b := content]);
            Available(s, k) && Quiet(c, s) && Logical(s, k, disk) == content
  {
    hide WellFormed, Exclusive, Distinct;
    ContentsApart(d, b, content);
    RewrittenQuiet(c, d, b, content);
  }

  // The form of the cache does not depend on what its buffers hold.
  lemma ContentsApart<B>(d: Cache<B>, b: B, content: Block)
    requires WellFormed(d) && Exclusive(d) && b in d.data
    ensures var s := d.(data := d.data[b := content]); WellFormed(s) && Exclusive(s)
  {
    hide Distinct;
  }

  lemma RewrittenQuiet<B>(c: Cache<B>, d: Cache<B>, b: B, content: Block)
    requires Quiet(c, d) && b !in c.held
    ensures Quiet(c, d.(data := d.data[b := content]))
  {
  }

  lemma BorrowedKeyed<B>(c: Cache<B>, k: Key, disk: Image)
    requires Available(c, k) && k in Get(c, k, disk).index
    ensures Borrowed(c, k, disk).index == Get(c, k, disk).index && Borrowed(c, k, disk).data == Get(c, k, disk).data
  {
  }

  // Storing differs from borrowing in the contents of one buffer, which nobody holds.
  lemma StoredIsBorrowed<B>(c: Cache<B>, k: Key, disk: Image, i: nat, inode: PyIndexNode)
    requires Available(c, k) && i < PER_BLOCK_INODES
    requires Chosen(c, k) in Get(c, k, disk).data
    ensures var d, b := Borrowed(c, k, disk), Chosen(c, k);
            && b in d.data
            && Stored(c, k, disk, i, inode) == d.(data := d.data[b := Patch(d.data[b], i, inode)])
  {
  }

  /** Giving back an inode nobody changed is the same as having borrowed its block. */
  lemma UnchangedStoreIsBorrow<B>(c: Cache<B>, k: Key, disk: Image, i: nat)
    requires Available(c, k) && i < PER_BLOCK_INODES
    ensures Stored(c, k, disk, i, InodeIn(c, k, disk, i)) == Borrowed(c, k, disk)
  {
    TakeUnheld(c, k, disk);
    StoredIsBorrowed(c, k, disk, i, InodeIn(c, k, disk, i));
    PatchedSlots(Logical(c, k, disk), i, InodeIn(c, k, disk, i));
    hide Get, Chosen, Patch, Slot, Exclusive, Lossless, SameLogical;
  }

  // Calls after the inode has been stored, at whose end its block is there to be fetched again: nobody has
  // written it or lost it meanwhile.
  ghost predicate LeftAlone<B>(c: Cache<B>, k: Key, disk: Image, i: nat, inode: PyIndexNode, ops: seq<Op<B>>)
    requires Available(c, k) && i < PER_BLOCK_INODES
  {
    StoredSlots(c, k, disk, i, inode);
    var s := Stored(c, k, disk, i, inode);
    && Run(s, ops, disk).Some? && QuietRun(s, ops, k, disk)
    && Available(Run(s, ops, disk).value, k)
  }

  /** release_inode then get_inode: whatever happens to other blocks in between, as long as the inode's block
      is not recycled before its contents could be lost and nobody writes it, get_inode finds exactly what
      was released, and in the other fifteen slots of the block what they held before the release. */
  lemma StoredInodeReadsBack<B>(c: Cache<B>, k: Key, disk: Image, i: nat, inode: PyIndexNode, ops: seq<Op<B>>)
    requires Available(c, k) && i < PER_BLOCK_INODES && LeftAlone(c, k, disk, i, inode, ops)
    ensures var d := Run(Stored(c, k, disk, i, inode), ops, disk).value;
            WellFormed(d) && InodeIn(d, k, disk, i) == inode && OthersSame(c, d, k, disk, i)
  {
    StoredSlots(c, k, disk, i, inode);
    QuietRunKeepsBlock(Stored(c, k, disk, i, inode), ops, k, disk);
  }

  // ----- The inode table byte by byte -----

  // Byte x of the inode table that begins at a block of the device, as it reads in c.
  ghost function TableByte<B>(c: Cache<B>, dev: nat, begin: nat, disk: Image, x: nat): bv8
    requires WellFormed(c)
  {
    Logical(c, Key(dev, (begin + x / 1024) % 0x1_0000_0000), disk)[x % 1024]
  }

  // Inode idx of the table, counted from 1, has these bytes.
  ghost predicate InTable<B>(c: Cache<B>, dev: nat, begin: nat, disk: Image, idx: nat, node: PyIndexNode)
    requires WellFormed(c) && idx >= 1
  {
    forall j :: 0 <= j < 64 ==> TableByte(c, dev, begin, disk, 64 * (idx - 1) + j) == node[j]
  }

  // The block of inode idx reads the same in both states outside the inode.
  ghost predicate RestSame<B>(c: Cache<B>, d: Cache<B>, dev: nat, begin: nat, disk: Image, idx: nat)
    requires WellFormed(c) && WellFormed(d) && idx >= 1
  {
    forall x :: x / 1024 == (idx - 1) / 16 && !(64 * (idx - 1) <= x < 64 * idx) ==>
      TableByte(d, dev, begin, disk, x) == TableByte(c, dev, begin, disk, x)
  }

  lemma WithinBlock(idx: nat, j: nat)
    requires idx >= 1 && j < 64
    ensures var x := 64 * (idx - 1);
            (x + j) / 1024 == x / 1024 == (idx - 1) / 16 && (x + j) % 1024 == x % 1024 + j
  {
    var q, r := (idx - 1) / 16, (idx - 1) % 16;
    assert 64 * (idx - 1) == 1024 * q + 64 * r;
    Parts(q, 64 * r);
    Parts(q, 64 * r + j);
  }

  lemma Parts(q: nat, r: nat)
    requires r < 1024
    ensures (1024 * q + r) / 1024 == q && (1024 * q + r) % 1024 == r
  {
  }

  lemma InodeIsInTable<B>(c: Cache<B>, dev: nat, begin: nat, disk: Image, idx: nat)
    requires WellFormed(c) && 1 <= idx < U16
    ensures InTable(c, dev, begin, disk, idx, InodeIn(c, Key(dev, InodeBlock(begin, idx)), disk, InodeSlot(idx)))
  {
    hide WellFormed, Logical, InodeBlock, InodeSlot;
    InodePlace(begin, idx);
    var k, node := Key(dev, InodeBlock(begin, idx)), InodeIn(c, Key(dev, InodeBlock(begin, idx)), disk, InodeSlot(idx));
    forall j | 0 <= j < 64 ensures TableByte(c, dev, begin, disk, 64 * (idx - 1) + j) == node[j] {
      WithinBlock(idx, j);
    }
  }

  /** Storing inode idx puts its bytes at its place in the inode table and changes no other byte of the block. */
  lemma StoredInTable<B>(c: Cache<B>, dev: nat, begin: nat, disk: Image, idx: nat, node: PyIndexNode)
    requires 1 <= idx < U16 && Available(c, Key(dev, InodeBlock(begin, idx)))
    ensures var s := Stored(c, Key(dev, InodeBlock(begin, idx)), disk, InodeSlot(idx), node);
            && Sound(s) && InTable(s, dev, begin, disk, idx, node) && RestSame(c, s, dev, begin, disk, idx)
  {
    hide WellFormed, Exclusive, Holding, Quiet, Logical, Stored, InodeBlock, InodeSlot;
    var k, i := Key(dev, InodeBlock(begin, idx)), InodeSlot(idx);
    var s := Stored(c, k, disk, i, node);
    StoredSlots(c, k, disk, i, node);
    StoredLogical(c, k, disk, i, node);
    InodeIsInTable(s, dev, begin, disk, idx);
    InodePlace(begin, idx);
    var before, after := Logical(c, k, disk), Logical(s, k, disk);
    forall x | x / 1024 == (idx - 1) / 16 && !(64 * (idx - 1) <= x < 64 * idx)
      ensures TableByte(s, dev, begin, disk, x) == TableByte(c, dev, begin, disk, x)
    {
      WithinBlock(idx, 0);
      assert x % 1024 < 64 * i || x % 1024 >= 64 * i + 64;
      assert after[x % 1024] == before[x % 1024];
    }
  }
}
