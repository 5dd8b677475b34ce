/** name_to_inode of minixfs/path.c as a function of the cache it runs on. */
module PathReadings {
  import opened Machine
  import opened AtaRegisters
  import opened CacheModel
  import opened CacheClient
  import opened InodeModel
  import opened InodeStore
  import opened PathModel
  import opened Readings

  // A file system: its device, where its inode table begins, and the inodes that are resident and locked.
  datatype Files = Files(m: Device, inodeBegin: nat, busy: set<nat>) {
    function Home(idx: nat): Key
      requires idx < U16
    {
      Key(m.dev, InodeBlock(inodeBegin, idx))
    }
  }

  // get_inode
  ghost function GetIn<B>(c: Cache<B>, f: Files, idx: nat): (r: Reading<B, PyIndexNode>)
    requires Sound(c) && idx < U16
    ensures Sound(r.c) && Keeps(c, r, f.m.image)
    ensures r.value.Some? ==>
              && f.Home(idx).blk < MAX_BLK && Available(c, f.Home(idx)) && Available(r.c, f.Home(idx))
              && r.value.value == InodeIn(c, f.Home(idx), f.m.image, InodeSlot(idx))
              && (r.lossless ==> r.value.value == InodeIn(r.c, f.Home(idx), f.m.image, InodeSlot(idx)))
  {
    var d := ReadIn(c, f.m, f.Home(idx).blk);
    var inode := if idx in f.busy || d.value.None? then None else Some(Slot(d.value.value, InodeSlot(idx)));
    if inode.None? then
      KeepsNow(c, inode, f.m.image);
      Reading(None, c, true)
    else
      KeepsWith(c, d, inode, f.m.image);
      With(d, inode)
  }

  // release_inode of an inode with these contents.
  ghost function PutIn<B>(c: Cache<B>, f: Files, idx: nat, inode: PyIndexNode, answer: nat): (r: Reading<B, nat>)
    requires idx < U16 && Available(c, f.Home(idx))
    ensures Sound(r.c) && Quiet(c, r.c) && r.value == Some(answer)
    ensures inode == InodeIn(c, f.Home(idx), f.m.image, InodeSlot(idx)) ==> Keeps(c, r, f.m.image)
  {
    var k := f.Home(idx);
    StoredSlots(c, k, f.m.image, InodeSlot(idx), inode);
    UnchangedStoreIsBorrow(c, k, f.m.image, InodeSlot(idx));
    BorrowIsQuiet(c, k, f.m.image);
    hide Stored, Sound, Quiet, Lossless, Clean, InodeIn, Borrowed;
    Reading(Some(answer), Stored(c, k, f.m.image, InodeSlot(idx), inode), Lossless(c, k, f.m.image))
  }

  // One turn of name_to_inode's loop: get_inode, _search_file, release_inode.
  ghost function ChildIn<B>(c: Cache<B>, f: Files, work: nat, comp: seq<bv8>): (r: Reading<B, nat>)
    requires Sound(c) && work < U16
    ensures Sound(r.c) && Keeps(c, r, f.m.image)
    ensures r.value.Some? ==> r.value.value < U16
  {
    hide Sound, Keeps, GetIn, SearchIn, PutIn;
    var g := GetIn(c, f, work);
    if g.value.None? then
      KeepsWith<B, PyIndexNode, nat>(c, g, None, f.m.image);
      With(g, None)
    else
      var s := SearchIn(g.c, f.m, g.value.value, comp);
      KeepsThen(c, g, s, f.m.image);
      if s.value.None? then Then(g, s)
      else
        StillThere(c, f, work, comp);
        var p := PutIn(s.c, f, work, g.value.value, s.value.value);
        KeepsPut(c, f, Then(g, s), p);
        Then(Then(g, s), p)
  }

  // After the search the inode's block can be fetched again, and unless something was lost it holds the inode.
  lemma StillThere<B>(c: Cache<B>, f: Files, work: nat, comp: seq<bv8>)
    requires Sound(c) && work < U16 && GetIn(c, f, work).value.Some?
    ensures var g := GetIn(c, f, work);
            var s := SearchIn(g.c, f.m, g.value.value, comp);
            && Available(s.c, f.Home(work))
            && (g.lossless && s.lossless ==> g.value.value == InodeIn(s.c, f.Home(work), f.m.image, InodeSlot(work)))
  {
  }

  lemma KeepsPut<B>(c: Cache<B>, f: Files, s: Reading<B, nat>, p: Reading<B, nat>)
    requires Sound(c) && Keeps(c, s, f.m.image) && Sound(p.c) && Quiet(s.c, p.c)
    requires s.lossless ==> Keeps(s.c, p, f.m.image)
    ensures Keeps(c, Then(s, p), f.m.image)
  {
  }

  // name_to_inode's loop from a working inode.
  ghost function WalkIn<B>(c: Cache<B>, f: Files, work: nat, name: seq<bv8>): (r: Reading<B, nat>)
    requires Sound(c) && work < U16
    ensures Sound(r.c) && Keeps(c, r, f.m.image)
    ensures r.value.Some? ==> r.value.value < U16
    decreases |name|
  {
    hide Sound, Keeps, ChildIn;
    if name == [] then
      KeepsNow(c, Some(work), f.m.image);
      Reading(Some(work), c, true)
    else
      var d := ChildIn(c, f, work, name[..FirstSlash(name)]);
      if d.value.None? then d
      else
        var r := WalkIn(d.c, f, d.value.value, Rest(name));
        KeepsThen(c, d, r, f.m.image);
        Then(d, r)
  }

  // ----- Against the volume -----

  // The file system as it reads in c.
  ghost predicate ShowsFs<B>(fs: Fs, c: Cache<B>, f: Files)
    requires WellFormed(c)
  {
    Shows(fs.vol, c, f.m) && fs.inodeBegin == f.inodeBegin && fs.busy == f.busy
  }

  lemma GetShown<B>(fs: Fs, c: Cache<B>, f: Files, idx: nat)
    requires Sound(c) && ShowsFs(fs, c, f) && idx < U16
    ensures GetIn(c, f, idx).value == fs.ReadInode(idx)
  {
  }

  lemma ChildShown<B>(fs: Fs, c: Cache<B>, f: Files, work: nat, comp: seq<bv8>)
    requires Sound(c) && ShowsFs(fs, c, f) && work < U16 && ChildIn(c, f, work, comp).lossless
    ensures ChildIn(c, f, work, comp).value == Child(fs, work, comp)
  {
    hide GetIn, SearchIn, Search, Keeps, Sound, Fs.ReadInode, Shows;
    GetShown(fs, c, f, work);
    var g := GetIn(c, f, work);
    if g.value.Some? {
      ShowsThen(fs.vol, c, f.m, g);
      SearchShown(fs.vol, g.c, f.m, g.value.value, comp);
    }
  }

  /** name_to_inode run on the cache, with its index blocks, directories and inodes fetched one by one and every
      inode written back, gives the answer of the path walk over the volume as its blocks read at the
      start; only if a modified buffer is recycled on the way may it differ. */
  lemma {:induction false} WalkShown<B>(fs: Fs, c: Cache<B>, f: Files, work: nat, name: seq<bv8>)
    requires Sound(c) && ShowsFs(fs, c, f) && work < U16 && WalkIn(c, f, work, name).lossless
    ensures WalkIn(c, f, work, name).value == Walk(fs, work, name)
    decreases |name|
  {
    hide ChildIn, Keeps, Sound, Shows, Child;
    if name != [] {
      var d := ChildIn(c, f, work, name[..FirstSlash(name)]);
      ChildShown(fs, c, f, work, name[..FirstSlash(name)]);
      ShowsThen(fs.vol, c, f.m, d);
      WalkOnce(fs, work, name);
      if d.value.Some? { WalkShown(fs, d.c, f, d.value.value, Rest(name)); }
    }
  }

  lemma WalkOnce(fs: Fs, work: nat, name: seq<bv8>)
    requires work < U16 && name != []
    ensures var d := Child(fs, work, name[..FirstSlash(name)]);
            Walk(fs, work, name) == if d.None? then None else Walk(fs, d.value, Rest(name))
  {
  }

  /** With no modified block in the free ring nothing can be lost: name_to_inode gives the answer of the walk over the
      volume as it reads now, holds and their contents stay, and the ring stays clean. */
  lemma CleanWalk<B>(c: Cache<B>, f: Files, work: nat, name: seq<bv8>)
    requires Sound(c) && work < U16 && Clean(c, f.m.image)
    ensures var r := WalkIn(c, f, work, name);
            && r.value == Walk(Fs(VolumeOf(c, f.m), f.inodeBegin, f.busy), work, name)
            && Sound(r.c) && Quiet(c, r.c) && Clean(r.c, f.m.image) && SameLogical(c, r.c, f.m.image)
  {
    WalkShown(Fs(VolumeOf(c, f.m), f.inodeBegin, f.busy), c, f, work, name);
  }

  /** Put together: with no modified block in the free ring the answer is the left fold of directory search over the
      components of the name. */
  lemma CleanFold<B>(c: Cache<B>, f: Files, work: nat, name: seq<bv8>)
    requires Sound(c) && work < U16 && Clean(c, f.m.image)
    ensures WalkIn(c, f, work, name).value ==
            FoldLeft(Fs(VolumeOf(c, f.m), f.inodeBegin, f.busy), Some(work), Components(name))
  {
    CleanWalk(c, f, work, name);
    WalkIsFold(Fs(VolumeOf(c, f.m), f.inodeBegin, f.busy), work, name);
  }
}
