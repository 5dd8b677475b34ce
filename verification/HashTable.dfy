/** The hash table of minixfs/buffer.c: one null-terminated doubly linked chain per bucket. */
module HashTable {
  import opened Machine
  import opened Buffers
  import opened CacheModel

  class BufferTable {
    const map_: array<BlockBuffer?>
    ghost const pool: set<BlockBuffer>
    ghost var chain: seq<seq<BlockBuffer>>
    ghost var index: map<Key, BlockBuffer>

    // What bucket h may hold: buffers indexed under their own key, whose block hashes to h.
    ghost predicate Belongs(h: nat, s: seq<BlockBuffer>, index: map<Key, BlockBuffer>)
      reads pool`dev, pool`blk
    {
      && Distinct(s)
      && forall b :: b in s ==>
           b in pool && Hash(b.blk) == h && Key(b.dev, b.blk) in index && index[Key(b.dev, b.blk)] == b
    }

    // The buckets hold exactly the indexed buffers, each in the bucket its block hashes to.
    ghost predicate Coupled(chain: seq<seq<BlockBuffer>>, index: map<Key, BlockBuffer>)
      reads pool`dev, pool`blk
    {
      && |chain| == HASH_LEN
      && (forall h :: 0 <= h < HASH_LEN ==> Belongs(h, chain[h], index))
      && (forall k :: k in index ==>
            && index[k] in pool && index[k].dev == k.dev && index[k].blk == k.blk
            && index[k] in chain[Hash(k.blk)])
    }

    ghost predicate Links(chain: seq<seq<BlockBuffer>>)
      reads map_, pool`hashPrev, pool`hashNext
    {
      && map_.Length == |chain|
      && forall h :: 0 <= h < |chain| ==> (forall b :: b in chain[h] ==> b in pool) && IsChain(map_[h], chain[h])
    }

    ghost predicate Valid()
      reads this, map_, pool`dev, pool`blk, pool`hashPrev, pool`hashNext
    {
      && Coupled(chain, index)
      && Links(chain)
      && (forall b :: b in pool && !Linked(b) ==> b.hashPrev == b.hashNext == null)
    }

    ghost predicate Linked(b: BlockBuffer)
      reads this`index, b`dev, b`blk
    {
      Key(b.dev, b.blk) in index && index[Key(b.dev, b.blk)] == b
    }

    // The zero-initialised hash_map over a page of unkeyed buffers.
    constructor (ghost pool: set<BlockBuffer>)
      requires forall b :: b in pool ==> b.hashPrev == b.hashNext == null
      ensures Valid() && index == map[] && this.pool == pool && fresh(map_)
    {
      map_ := new BlockBuffer?[HASH_LEN](_ => null);
      this.pool := pool;
      chain := seq(HASH_LEN, _ => []);
      index := map[];
    }

    // _get_hash_entity
    method Find(dev: nat, blk: nat) returns (buf: BlockBuffer?)
      requires Valid()
      ensures buf == if Key(dev, blk) in index then index[Key(dev, blk)] else null
    {
      var h := Hash(blk);
      buf := map_[h];
      assert IsChain(map_[h], chain[h]);
      ghost var i := 0;
      while buf != null
        invariant i <= |chain[h]|
        invariant buf == if i < |chain[h]| then chain[h][i] else null
        invariant forall j :: 0 <= j < i ==> chain[h][j].dev != dev || chain[h][j].blk != blk
        decreases |chain[h]| - i
      {
        if buf.dev == dev && buf.blk == blk {
          return;
        }
        buf := buf.hashNext;
        i := i + 1;
      }
    }

    // _remove_hash_entity.  A buffer that was never keyed has null links and is no bucket's head.
    method Remove(buf: BlockBuffer)
      requires Valid() && buf in pool
      modifies this`chain, this`index, map_, pool`hashPrev, pool`hashNext
      ensures Valid() && index == Unkey(old(index), buf)
      ensures buf.hashPrev == buf.hashNext == null
    {
      hide Belongs, Links;
      OtherBuckets(buf);
      RemovalKeepsCoupling(buf);
      Detach(buf);
      index := Unkey(index, buf);
      forall b | b in pool && !Linked(b) ensures b.hashPrev == b.hashNext == null {
        assert b != buf ==> old(!Linked(b));
      }
    }

    // The statements of _remove_hash_entity.
    method Detach(buf: BlockBuffer)
      requires |chain| == HASH_LEN && Links(chain)
      requires buf !in chain[Hash(buf.blk)] ==> buf.hashPrev == buf.hashNext == null
      requires forall g :: 0 <= g < HASH_LEN && g != Hash(buf.blk) ==>
                buf !in chain[g] && forall b :: b in chain[g] ==> b !in chain[Hash(buf.blk)]
      modifies this`chain, map_
      modifies chain[Hash(buf.blk)]`hashPrev, chain[Hash(buf.blk)]`hashNext, buf`hashPrev, buf`hashNext
      ensures buf.hashPrev == buf.hashNext == null
      ensures chain == old(chain[Hash(buf.blk) := Unchained(chain[Hash(buf.blk)], buf)])
      ensures Links(chain)
    {
      var h := Hash(buf.blk);
      assert IsChain(map_[h], chain[h]);
      if map_[h] == buf {
        map_[h] := buf.hashNext;
      }
      Splice(chain[h], buf);
      forall g | 0 <= g < HASH_LEN && g != h ensures IsChain(map_[g], chain[g]) {
        assert old(IsChain(map_[g], chain[g]));
        assert forall i :: 0 <= i < |chain[g]| ==> chain[g][i] in chain[g];
      }
      chain := chain[h := Unchained(chain[h], buf)];
    }

    // _put_hash_entity for a buffer that is in no bucket: evict a buffer with the same key, then push.
    method Put(buf: BlockBuffer)
      requires Valid() && buf in pool && (forall k :: k in index ==> index[k] != buf)
      modifies this`chain, this`index, map_, pool`hashPrev, pool`hashNext
      ensures Valid() && index == old(index)[Key(buf.dev, buf.blk) := buf]
    {
      hide Belongs, Links;
      var org := Find(buf.dev, buf.blk);
      if org != null {
        Remove(org);
      }
      assert index == old(index) - {Key(buf.dev, buf.blk)};
      Insert(buf);
    }

    // _get_block's reuse of a buffer for another block: forget the old key, set the new one, file it.
    method Rekey(buf: BlockBuffer, dev: nat, blk: nat, status: nat)
      requires Valid() && buf in pool && Key(dev, blk) !in index
      modifies this`chain, this`index, map_, pool`hashPrev, pool`hashNext, buf`dev, buf`blk, buf`status
      ensures Valid() && index == Unkey(old(index), buf)[Key(dev, blk) := buf]
      ensures buf.dev == dev && buf.blk == blk && buf.status == status
    {
      Remove(buf);
      UnkeyedNowhere(buf);
      Relabel(buf, dev, blk, status);
      Put(buf);
    }

    method Relabel(buf: BlockBuffer, dev: nat, blk: nat, status: nat)
      requires Valid() && buf in pool && (forall k :: k in index ==> index[k] != buf)
      requires forall g :: 0 <= g < HASH_LEN ==> buf !in chain[g]
      modifies buf`dev, buf`blk, buf`status
      ensures Valid() && buf.dev == dev && buf.blk == blk && buf.status == status
    {
      buf.dev := dev;
      buf.blk := blk;
      buf.status := status;
      forall g | 0 <= g < HASH_LEN ensures Belongs(g, chain[g], index) {
        assert old(Belongs(g, chain[g], index));
      }
    }

    // The index tells each buffer's key and nothing else.
    lemma IndexExact()
      requires Valid()
      ensures forall k :: k in index ==> index[k] in pool && index[k].dev == k.dev && index[k].blk == k.blk
      ensures forall b :: b in pool ==> (Linked(b) <==> exists k :: k in index && index[k] == b)
    {
    }

    lemma UnkeyedNowhere(buf: BlockBuffer)
      requires Coupled(chain, index) && forall k :: k in index ==> index[k] != buf
      ensures forall g :: 0 <= g < HASH_LEN ==> buf !in chain[g]
    {
    }

    // _put_hash_entity once no buffer has the key.
    method Insert(buf: BlockBuffer)
      requires Valid() && buf in pool && Key(buf.dev, buf.blk) !in index
      requires forall k :: k in index ==> index[k] != buf
      modifies this`chain, this`index, map_, pool`hashPrev, pool`hashNext
      ensures Valid() && index == old(index)[Key(buf.dev, buf.blk) := buf]
    {
      hide Belongs, Links;
      OtherBuckets(buf);
      PushKeepsCoupling(buf);
      Push(buf);
      index := index[Key(buf.dev, buf.blk) := buf];
      forall b | b in pool && !Linked(b) ensures b.hashPrev == b.hashNext == null {
        assert b != buf && old(!Linked(b));
      }
    }

    // The statements of _put_hash_entity after the eviction.
    method Push(buf: BlockBuffer)
      requires |chain| == HASH_LEN && Links(chain) && buf in pool
      requires forall g :: 0 <= g < HASH_LEN ==> buf !in chain[g]
      requires forall g :: 0 <= g < HASH_LEN && g != Hash(buf.blk) ==>
                forall b :: b in chain[g] ==> b !in chain[Hash(buf.blk)]
      modifies this`chain, map_, chain[Hash(buf.blk)]`hashPrev, buf`hashPrev, buf`hashNext
      ensures chain == old(chain[Hash(buf.blk) := [buf] + chain[Hash(buf.blk)]])
      ensures Links(chain)
    {
      hide Hash;
      var h := Hash(buf.blk);
      assert IsChain(map_[h], chain[h]);
      var head := map_[h];
      buf.hashNext := head;
      buf.hashPrev := null;
      if head != null { head.hashPrev := buf; }
      map_[h] := buf;
      forall g | 0 <= g < HASH_LEN && g != h ensures IsChain(map_[g], chain[g]) {
        assert old(IsChain(map_[g], chain[g]));
        assert forall i :: 0 <= i < |chain[g]| ==> chain[g][i] in chain[g];
      }
      chain := chain[h := [buf] + chain[h]];
    }

    lemma PushKeepsCoupling(buf: BlockBuffer)
      requires Coupled(chain, index) && buf in pool && Key(buf.dev, buf.blk) !in index
      requires forall k :: k in index ==> index[k] != buf
      ensures forall g :: 0 <= g < HASH_LEN ==> buf !in chain[g]
      ensures var h := Hash(buf.blk);
              Coupled(chain[h := [buf] + chain[h]], index[Key(buf.dev, buf.blk) := buf])
    {
    }

    lemma OtherBuckets(buf: BlockBuffer)
      requires Coupled(chain, index) && buf in pool
      ensures forall g :: 0 <= g < HASH_LEN && g != Hash(buf.blk) ==>
                buf !in chain[g] && forall b :: b in chain[g] ==> b !in chain[Hash(buf.blk)]
      ensures forall b :: b in chain[Hash(buf.blk)] ==> b in pool && Linked(b)
    {
    }

    lemma RemovalKeepsCoupling(buf: BlockBuffer)
      requires Coupled(chain, index) && buf in pool
      ensures var h := Hash(buf.blk);
              Coupled(chain[h := Unchained(chain[h], buf)], Unkey(index, buf))
    {
      var h := Hash(buf.blk);
      assert Belongs(h, chain[h], index);
      if buf in chain[h] { DistinctWithout(chain[h], IndexIn(chain[h], buf)); }
      OtherBuckets(buf);
      var c, x := chain[h := Unchained(chain[h], buf)], Unkey(index, buf);
      forall g | 0 <= g < HASH_LEN ensures Belongs(g, c[g], x) {
        assert Belongs(g, chain[g], index);
      }
    }
  }

  ghost function Unchained(s: seq<BlockBuffer>, buf: BlockBuffer): (t: seq<BlockBuffer>)
    ensures forall b :: b in t ==> b in s
  {
    if buf in s then Without(s, IndexIn(s, buf)) else s
  }

  // Join the neighbours of buf and clear its links.
  method Splice(ghost s: seq<BlockBuffer>, buf: BlockBuffer)
    requires s != [] ==> IsChain(s[0], s)
    requires buf !in s ==> buf.hashPrev == buf.hashNext == null
    modifies s`hashPrev, s`hashNext, buf`hashPrev, buf`hashNext
    ensures buf.hashPrev == buf.hashNext == null
    ensures var t := Unchained(s, buf); IsChain(if t == [] then null else t[0], t)
  {
    ghost var i := if buf in s then IndexIn(s, buf) else 0;
    var prev, next := buf.hashPrev, buf.hashNext;
    if prev != null { prev.hashNext := next; }
    if next != null { next.hashPrev := prev; }
    buf.hashPrev := null;
    buf.hashNext := null;
    if buf in s {
      ChainWithout(s, i);
    }
  }

  // The chain links after the neighbours of the element at i have been joined.
  lemma ChainWithout(s: seq<BlockBuffer>, i: nat)
    requires Distinct(s) && i < |s|
    requires i > 0 ==> s[i - 1].hashNext == if i + 1 < |s| then s[i + 1] else null
    requires i + 1 < |s| ==> s[i + 1].hashPrev == if i > 0 then s[i - 1] else null
    requires forall k {:trigger s[k].hashNext} :: 0 <= k < |s| && k != i && k + 1 != i ==>
               s[k].hashNext == if k + 1 < |s| then s[k + 1] else null
    requires forall k {:trigger s[k].hashPrev} :: 0 <= k < |s| && k != i && k != i + 1 ==>
               s[k].hashPrev == if k > 0 then s[k - 1] else null
    ensures forall b :: b in Without(s, i) <==> b in s && b != s[i]
    ensures IsChain(if |s| == 1 then null else Without(s, i)[0], Without(s, i))
  {
  }
}
