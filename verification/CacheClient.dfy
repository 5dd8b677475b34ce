/**
 What a client that takes a block, reads it and gives it back can rely on, and what that does to everybody
 else.  Released blocks may have been modified; nothing writes them back, so a miss may lose one.
 */
module CacheClient {
  import opened Machine
  import opened CacheModel
  import opened CacheRuns

  // The state in which blocks can be fetched: buffers owned once, and two of them free.
  ghost predicate Sound<B>(c: Cache<B>) {
    WellFormed(c) && Exclusive(c) && |c.free| >= 2
  }

  // A block that can be fetched without sharing it with another client.
  ghost predicate Available<B>(c: Cache<B>, k: Key) {
    Sound(c) && !Holding(c, k)
  }

  // No free buffer holds contents the disk does not have.
  ghost predicate Clean<B>(c: Cache<B>, disk: Image)
    requires WellFormed(c)
  {
    forall k :: k in c.index && c.index[k] in c.free ==> c.data[c.index[k]] == disk(k.blk)
  }

  // Fetching k recycles no modified buffer.
  ghost predicate Lossless<B>(c: Cache<B>, k: Key, disk: Image)
    requires WellFormed(c) && c.free != []
  {
    k in c.index || CleanVictim(c, disk)
  }

  // Every block reads the same in both states.
  ghost predicate SameLogical<B>(c: Cache<B>, d: Cache<B>, disk: Image)
    requires WellFormed(c) && WellFormed(d)
  {
    forall l :: Logical(d, l, disk) == Logical(c, l, disk)
  }

  // The blocks of a device that some client holds.
  ghost function Pinned<B>(c: Cache<B>, dev: nat): (s: set<nat>)
    ensures forall blk :: blk in s <==> Holding(c, Key(dev, blk))
  {
    set k | k in c.index && c.index[k] in c.held && k.dev == dev :: k.blk
  }

  // From c to d nothing changed that clients can see: who holds what, the held contents, what is pinned.
  ghost predicate Quiet<B>(c: Cache<B>, d: Cache<B>) {
    && d.pool == c.pool && d.held == c.held && |d.free| == |c.free|
    && (forall b :: b in c.held ==> b in c.data && b in d.data && d.data[b] == c.data[b])
    && (forall k :: Holding(c, k) ==> Holding(d, k) && c.index[k] == d.index[k])
    && (forall k :: Holding(d, k) ==> Holding(c, k))
  }

  // An unheld block that is resident is in the free ring.
  lemma UnheldResidentIsFree<B>(c: Cache<B>, k: Key)
    requires WellFormed(c) && Exclusive(c) && k in c.index && !Holding(c, k)
    ensures c.index[k] in c.free
  {
    ExclusiveMeansOneOwner(c);
  }

  /** Taking an unheld block: the buffer was nobody's, carries what the block reads as, and is the only one
      to leave the free ring. */
  lemma TakeUnheld<B>(c: Cache<B>, k: Key, disk: Image)
    requires Available(c, k)
    ensures var d, b := Get(c, k, disk), Chosen(c, k);
            && WellFormed(d) && Exclusive(d) && b in c.free && b !in d.free && b !in c.held && b in d.pool
            && d.data[b] == Logical(c, k, disk)
            && |d.free| == |c.free| - 1
            && k in d.index && d.index[k] == b
            && (Lossless(c, k, disk) <==> SameLogical(c, d, disk))
  {
    var d, b := Get(c, k, disk), Chosen(c, k);
    GetReturnsBlock(c, k, disk);
    GetKeepsOwnershipIff(c, k, disk);
    GetKeepsLogicalIff(c, k, disk);
    if k in c.index { UnheldResidentIsFree(c, k); }
    ExclusiveMeansOneOwner(c);
    ExclusiveMeansOneOwner(d);
  }

  // The cache after a block has been borrowed and given back.
  ghost function Borrowed<B>(c: Cache<B>, k: Key, disk: Image): Cache<B>
    requires Available(c, k)
  {
    Release(Get(c, k, disk), Chosen(c, k))
  }

  /** Borrowing an unheld block and giving it back is invisible to every other client; every block still reads
      as before exactly if no modified buffer was recycled, and a clean ring stays clean. */
  lemma BorrowIsQuiet<B>(c: Cache<B>, k: Key, disk: Image)
    requires Available(c, k)
    ensures var d := Borrowed(c, k, disk);
            && Sound(d) && Quiet(c, d)
            && (Lossless(c, k, disk) <==> SameLogical(c, d, disk))
            && (Clean(c, disk) ==> Lossless(c, k, disk) && Clean(d, disk))
  {
    TakeUnheld(c, k, disk);
    BorrowHolds(c, k, disk);
    BorrowIsSound(c, k, disk);
    if Clean(c, disk) { BorrowStaysClean(c, k, disk); }
    ReleaseKeepsLogical(Get(c, k, disk), Chosen(c, k), disk);
    hide Get, Release, Quiet, Holding, Exclusive, WellFormed, Clean, Logical;
  }

  lemma ReleaseKeepsLogical<B>(c: Cache<B>, b: B, disk: Image)
    requires WellFormed(c) && WellFormed(Release(c, b))
    ensures SameLogical(c, Release(c, b), disk)
  {
  }

  lemma BorrowIsSound<B>(c: Cache<B>, k: Key, disk: Image)
    requires Available(c, k)
    ensures var d := Borrowed(c, k, disk); WellFormed(d) && Exclusive(d) && |d.free| == |c.free|
  {
    TakeUnheld(c, k, disk);
    hide Unlinked, Unkey, Exclusive, Logical, Lossless, SameLogical;
    ReleaseKeepsOwnershipIff(Get(c, k, disk), Chosen(c, k));
  }

  lemma BorrowHolds<B>(c: Cache<B>, k: Key, disk: Image)
    requires Available(c, k)
    requires Chosen(c, k) !in c.held && |Get(c, k, disk).free| == |c.free| - 1
    ensures Quiet(c, Borrowed(c, k, disk))
  {
    BorrowIndex(c, k, disk);
    BorrowHeld(c, k, disk);
    hide Get, Chosen, Holding, Exclusive, WellFormed;
    SameHolds(c, Borrowed(c, k, disk));
  }

  lemma BorrowHeld<B>(c: Cache<B>, k: Key, disk: Image)
    requires Available(c, k)
    ensures Borrowed(c, k, disk).held == c.held && Get(c, k, disk).pool == c.pool
  {
  }

  lemma SameHolds<B>(c: Cache<B>, d: Cache<B>)
    requires d.pool == c.pool && d.held == c.held && |d.free| == |c.free| && SameContents(c, d)
    ensures Quiet(c, d)
  {
  }

  ghost predicate SameContents<B>(c: Cache<B>, d: Cache<B>) {
    && (forall b :: b in c.held ==> b in c.data && b in d.data && d.data[b] == c.data[b])
    && (forall l :: Holding(c, l) ==> l in d.index && c.index[l] == d.index[l])
    && (forall l :: l in d.index && d.index[l] in c.held ==> Holding(c, l))
  }

  // Blocks in anybody's hands keep their buffers, and no block comes into anybody's hands.
  lemma BorrowIndex<B>(c: Cache<B>, k: Key, disk: Image)
    requires Available(c, k) && Chosen(c, k) !in c.held
    ensures SameContents(c, Borrowed(c, k, disk))
  {
    hide Unlinked, Exclusive;
  }

  lemma BorrowStaysClean<B>(c: Cache<B>, k: Key, disk: Image)
    requires Available(c, k) && Clean(c, disk) && Chosen(c, k) in c.free
    requires WellFormed(Get(c, k, disk)) && WellFormed(Borrowed(c, k, disk))
    requires k in Get(c, k, disk).index && Get(c, k, disk).index[k] == Chosen(c, k)
    requires Get(c, k, disk).data[Chosen(c, k)] == Logical(c, k, disk)
    ensures Lossless(c, k, disk) && Clean(Borrowed(c, k, disk), disk)
  {
  }

  // The buffer that comes back for an unheld block was free.
  lemma ChosenIsFree<B>(c: Cache<B>, k: Key)
    requires WellFormed(c) && Exclusive(c) && c.free != [] && !Holding(c, k)
    ensures Chosen(c, k) in c.free && Chosen(c, k) !in c.held
  {
    if k in c.index { UnheldResidentIsFree(c, k); }
    ExclusiveMeansOneOwner(c);
  }

  /** Taking an unheld block for good: it joins the held blocks, the others keep their buffers and contents,
      and unless the ring has come down to one buffer its buffer leaves the ring. */
  lemma TakeForGood<B>(c: Cache<B>, k: Key, disk: Image)
    requires WellFormed(c) && Exclusive(c) && c.free != [] && !Holding(c, k)
    ensures var d := Get(c, k, disk);
            && WellFormed(d) && d.held == c.held + multiset{Chosen(c, k)}
            && (|c.free| >= 2 ==> Exclusive(d) && |d.free| == |c.free| - 1)
            && (forall l :: Holding(d, l) <==> Holding(c, l) || l == k)
            && (forall l :: Holding(c, l) ==> d.index[l] == c.index[l] && d.data[d.index[l]] == c.data[c.index[l]])
  {
    GetReturnsBlock(c, k, disk);
    ChosenIsFree(c, k);
    if |c.free| >= 2 { TakeUnheld(c, k, disk); }
    hide Exclusive, Unlinked, Logical, Lossless, SameLogical;
  }

  // The blocks from `begin` on that nobody holds yet, up to `end`.
  ghost predicate Unheld<B>(c: Cache<B>, dev: nat, begin: nat, end: nat) {
    forall blk :: begin <= blk < end ==> !Holding(c, Key(dev, blk))
  }

  // n consecutive blocks can be taken: nobody holds one of them, and there are buffers for them.
  ghost predicate Takeable<B>(c: Cache<B>, dev: nat, begin: nat, n: nat) {
    WellFormed(c) && Exclusive(c) && |c.free| >= n && Unheld(c, dev, begin, begin + n)
  }

  // Held in d are the blocks held in c and the n from begin on.
  ghost predicate HoldsMore<B>(c: Cache<B>, d: Cache<B>, dev: nat, begin: nat, n: nat) {
    forall l :: Holding(d, l) <==> Holding(c, l) || (l.dev == dev && begin <= l.blk < begin + n)
  }

  // The cache after n consecutive blocks have been taken for good.
  ghost function Gathered<B>(c: Cache<B>, disk: Image, dev: nat, begin: nat, n: nat): (d: Cache<B>)
    requires Takeable(c, dev, begin, n)
    ensures WellFormed(d) && HoldsMore(c, d, dev, begin, n)
    ensures n == 0 || n < |c.free| ==> Exclusive(d) && |d.free| == |c.free| - n
  {
    if n == 0 then c
    else
      var k, before := Key(dev, begin + n - 1), Gathered(c, disk, dev, begin, n - 1);
      TakeForGood(before, k, disk);
      Get(before, k, disk)
  }

  lemma GatheredNext<B>(c: Cache<B>, disk: Image, dev: nat, begin: nat, n: nat)
    requires Takeable(c, dev, begin, n + 1)
    ensures Takeable(c, dev, begin, n)
    ensures var d := Gathered(c, disk, dev, begin, n);
            d.free != [] && Gathered(c, disk, dev, begin, n + 1) == Get(d, Key(dev, begin + n), disk)
  {
  }

  // k is held in buffer b with these contents.
  ghost predicate HeldAs<B>(c: Cache<B>, k: Key, b: B, content: Block) {
    Holding(c, k) && c.index[k] == b && b in c.data && c.data[b] == content
  }

  lemma LastIsHeld<B>(c: Cache<B>, disk: Image, dev: nat, begin: nat, n: nat)
    requires Takeable(c, dev, begin, n + 1) && Takeable(c, dev, begin, n)
    ensures var e, k := Gathered(c, disk, dev, begin, n), Key(dev, begin + n);
            e.free != [] && HeldAs(Gathered(c, disk, dev, begin, n + 1), k, Chosen(e, k), Logical(e, k, disk))
  {
  }

  lemma EarlierStaysHeld<B>(c: Cache<B>, disk: Image, dev: nat, begin: nat, n: nat, k: Key, b: B, content: Block)
    requires Takeable(c, dev, begin, n + 1) && Takeable(c, dev, begin, n)
    requires HeldAs(Gathered(c, disk, dev, begin, n), k, b, content)
    ensures HeldAs(Gathered(c, disk, dev, begin, n + 1), k, b, content)
  {
  }

  lemma TakeableLess<B>(c: Cache<B>, dev: nat, begin: nat, n: nat, i: nat)
    requires Takeable(c, dev, begin, n) && i <= n
    ensures Takeable(c, dev, begin, i)
  {
  }

  // The i-th block taken is still held by the buffer that came back for it, with what it read as then.
  lemma {:induction false} GatheredStays<B>(c: Cache<B>, disk: Image, dev: nat, begin: nat, n: nat, i: nat)
    requires Takeable(c, dev, begin, n) && i < n && Takeable(c, dev, begin, i)
    ensures var e, k := Gathered(c, disk, dev, begin, i), Key(dev, begin + i);
            e.free != [] && HeldAs(Gathered(c, disk, dev, begin, n), k, Chosen(e, k), Logical(e, k, disk))
    decreases n
  {
    hide Gathered, Get, Chosen, Takeable, HoldsMore, HeldAs, WellFormed, Exclusive, Unheld, Logical;
    TakeableLess(c, dev, begin, n, n - 1);
    if i == n - 1 {
      LastIsHeld(c, disk, dev, begin, i);
    } else {
      var e, k := Gathered(c, disk, dev, begin, i), Key(dev, begin + i);
      GatheredStays(c, disk, dev, begin, n - 1, i);
      EarlierStaysHeld(c, disk, dev, begin, n - 1, k, Chosen(e, k), Logical(e, k, disk));
    }
  }

  // As long as no modified buffer was recycled, every block reads as before the first was taken.
  lemma {:induction false} GatheredKeepsLogical<B>(c: Cache<B>, disk: Image, dev: nat, begin: nat, n: nat)
    requires Takeable(c, dev, begin, n)
    requires forall i :: 0 <= i < n ==> Lossless(Gathered(c, disk, dev, begin, i), Key(dev, begin + i), disk)
    ensures SameLogical(c, Gathered(c, disk, dev, begin, n), disk)
  {
    hide Get, Chosen, WellFormed, Exclusive, Holding, CleanVictim, Logical;
    if n > 0 {
      GatheredKeepsLogical(c, disk, dev, begin, n - 1);
      GetKeepsLogicalIff(Gathered(c, disk, dev, begin, n - 1), Key(dev, begin + n - 1), disk);
    }
  }
}
