/**
 The block buffer cache of minixfs/buffer.c seen through its specification: which buffers are free and
 in which order, which are held by clients and how often, which block each buffer caches, and what the
 buffers contain.  The class in BufferCache.dfy is proved to perform exactly these steps on the linked
 structures; here the steps are composed into whole runs.
 */
module CacheModel {
  import opened Machine

  datatype Key = Key(dev: nat, blk: nat)

  // free is the circular free list read from its head; held counts every outstanding get_block.
  datatype Cache<B> = Cache(
    pool: set<B>,
    free: seq<B>,
    held: multiset<B>,
    index: map<Key, B>,
    data: map<B, Block>)

  ghost predicate WellFormed<B>(c: Cache<B>) {
    && Distinct(c.free)
    && (forall b :: b in c.free ==> b in c.pool)
    && (forall b :: b in c.held ==> b in c.pool)
    && (forall k :: k in c.index ==> c.index[k] in c.pool)
    && (forall k, l :: k in c.index && l in c.index && c.index[k] == c.index[l] ==> k == l)
    && c.data.Keys == c.pool
  }

  // Every buffer is owned exactly once: in the free ring, or by one client, never both.
  ghost predicate Exclusive<B>(c: Cache<B>) {
    multiset(c.free) + c.held == multiset(c.pool)
  }

  ghost predicate Holding<B>(c: Cache<B>, k: Key) {
    k in c.index && c.index[k] in c.held
  }

  // The block a buffer caches is forgotten.
  ghost function Unkey<B>(index: map<Key, B>, b: B): map<Key, B> {
    map k | k in index && index[k] != b :: index[k]
  }

  ghost function IndexIn<B>(s: seq<B>, b: B): (i: nat)
    requires b in s
    ensures i < |s| && s[i] == b && b !in s[..i]
  {
    if s[0] == b then 0 else 1 + IndexIn(s[1..], b)
  }

  // The free ring after a hit on b.  A singleton ring keeps its only element.
  ghost function Unlinked<B>(free: seq<B>, b: B): seq<B> {
    if b in free && |free| >= 2 then Without(free, IndexIn(free, b)) else free
  }

  // get_block(k) with a non-empty free ring: which buffer comes back.
  ghost function Chosen<B>(c: Cache<B>, k: Key): B
    requires c.free != []
  {
    if k in c.index then c.index[k] else c.free[0]
  }

  ghost function Get<B>(c: Cache<B>, k: Key, disk: Image): Cache<B>
    requires c.free != []
  {
    var b := Chosen(c, k);
    if k in c.index then
      c.(free := Unlinked(c.free, b), held := c.held + multiset{b})
    else
      c.(free := c.free[1..], held := c.held + multiset{b},
         index := Unkey(c.index, b)[k := b], data := c.data[b := disk(k.blk)])
  }

  ghost function Release<B>(c: Cache<B>, b: B): Cache<B> {
    c.(free := c.free + [b], held := c.held - multiset{b})
  }

  // A client writes into the buffer it holds.
  ghost function Write<B>(c: Cache<B>, b: B, d: Block): Cache<B> {
    c.(data := c.data[b := d])
  }

  // What a reader of block k sees: the resident contents if cached, else the disk.
  ghost function Logical<B>(c: Cache<B>, k: Key, disk: Image): Block
    requires WellFormed(c)
  {
    if k in c.index then c.data[c.index[k]] else disk(k.blk)
  }

  // ----- Ownership -----

  lemma WithoutMultiset<B>(s: seq<B>, i: nat)
    requires i < |s|
    ensures multiset(Without(s, i)) + multiset{s[i]} == multiset(s)
  {
    assert s == s[..i] + [s[i]] + s[i + 1..];
  }

  lemma DistinctMultiplicity<B>(s: seq<B>)
    requires Distinct(s)
    ensures forall b :: multiset(s)[b] == if b in s then 1 else 0
  {
    if s != [] {
      var t := s[1..];
      assert s == [s[0]] + t;
      DistinctMultiplicity(t);
      assert s[0] !in t;
    }
  }

  /** get_block keeps exclusive ownership in exactly these cases: nobody holds the block already, and on a
      hit the free ring has a second element. */
  lemma GetKeepsOwnershipIff<B>(c: Cache<B>, k: Key, disk: Image)
    requires WellFormed(c) && Exclusive(c) && c.free != []
    ensures Exclusive(Get(c, k, disk)) <==> !Holding(c, k) && (k in c.index ==> |c.free| >= 2)
  {
    var b := Chosen(c, k);
    var d := Get(c, k, disk);
    assert multiset(c.free)[b] + c.held[b] == multiset(c.pool)[b];
    if k !in c.index {
      assert c.free == [b] + d.free;
      assert multiset(d.free) + d.held == multiset(c.free) + c.held;
    } else if b in c.free && |c.free| >= 2 {
      WithoutMultiset(c.free, IndexIn(c.free, b));
      assert multiset(d.free) + d.held == multiset(c.free) + c.held;
      DistinctMultiplicity(c.free);
      assert b !in c.held;
    } else {
      assert (multiset(d.free) + d.held)[b] == (multiset(c.free) + c.held)[b] + 1;
      assert b in c.free || b in c.held;
    }
  }

  lemma ReleaseKeepsOwnershipIff<B>(c: Cache<B>, b: B)
    requires WellFormed(c) && Exclusive(c)
    ensures Exclusive(Release(c, b)) <==> b in c.held
  {
    var d := Release(c, b);
    if b in c.held {
      assert multiset(d.free) + d.held == multiset(c.free) + c.held;
    } else {
      assert (multiset(d.free) + d.held)[b] == (multiset(c.free) + c.held)[b] + 1;
    }
  }

  // ----- The logical contents of the disk -----

  /** The buffer get_block returns carries the requested block: its resident contents, or the disk's. */
  lemma GetReturnsBlock<B>(c: Cache<B>, k: Key, disk: Image)
    requires WellFormed(c) && c.free != []
    ensures WellFormed(Get(c, k, disk))
    ensures var d := Get(c, k, disk);
            && k in d.index && d.index[k] == Chosen(c, k)
            && d.data[Chosen(c, k)] == Logical(c, k, disk) == Logical(d, k, disk)
  {
    var b := Chosen(c, k);
    var d := Get(c, k, disk);
    if b in c.free && k in c.index && |c.free| >= 2 {
      var i := IndexIn(c.free, b);
      assert d.free == Without(c.free, i);
      forall x | x in d.free ensures x in c.pool { assert x in c.free; }
    }
    assert Distinct(d.free);
    assert forall x :: x in d.free ==> x in c.free;
  }

  // The block cached by the buffer a miss would recycle reads the same from the disk.
  ghost predicate CleanVictim<B>(c: Cache<B>, disk: Image)
    requires WellFormed(c) && c.free != []
  {
    forall k :: k in c.index && c.index[k] == c.free[0] ==> c.data[c.free[0]] == disk(k.blk)
  }

  /** A hit never changes what any block reads as; a miss leaves every block's logical contents alone
      exactly when the recycled buffer holds nothing that differs from the disk, because the buffer is
      reused without being written back. */
  lemma GetKeepsLogicalIff<B>(c: Cache<B>, k: Key, disk: Image)
    requires WellFormed(c) && c.free != []
    ensures WellFormed(Get(c, k, disk))
    ensures (forall l :: Logical(Get(c, k, disk), l, disk) == Logical(c, l, disk))
            <==> k in c.index || CleanVictim(c, disk)
  {
    GetReturnsBlock(c, k, disk);
    var d := Get(c, k, disk);
    if k !in c.index {
      if CleanVictim(c, disk) {
        forall l ensures Logical(d, l, disk) == Logical(c, l, disk) {
        }
      } else {
        var l :| l in c.index && c.index[l] == c.free[0] && c.data[c.free[0]] != disk(l.blk);
        assert l !in d.index;
        assert Logical(d, l, disk) != Logical(c, l, disk);
      }
    }
  }
}
