/** The free list of minixfs/buffer.c: a circular list whose head is the next buffer to recycle. */
module FreeRing {
  import opened Machine
  import opened Buffers
  import opened CacheModel

  // struct BlockBufferHead
  class FreeList {
    var head: BlockBuffer?
    ghost var ring: seq<BlockBuffer>

    ghost predicate Valid()
      reads this, ring`prev, ring`next
    {
      IsRing(head, ring)
    }

    constructor (bufs: seq<BlockBuffer>)
      requires bufs != [] && IsRing(bufs[0], bufs)
      ensures Valid() && ring == bufs
    {
      head, ring := bufs[0], bufs;
    }

    // buffer_new: detach the head.
    method Take() returns (ret: BlockBuffer?)
      requires Valid()
      modifies this, ring`prev, ring`next
      ensures Valid()
      ensures old(ring) == [] ==> ret == null && ring == []
      ensures old(ring) != [] ==> ret == old(ring)[0] && ring == old(ring)[1..] && ret.prev == ret.next == null
    {
      if head == null {
        return null;
      }
      ret := head;
      head := ret.next;
      if head == ret {
        head := null;
      } else {
        if ret.prev != null { ret.prev.next := ret.next; }
        if ret.next != null { ret.next.prev := ret.prev; }
      }
      ret.prev := null;
      ret.next := null;
      if |ring| >= 2 {
        RingWithout(ring, 0);
      }
      ring := Without(ring, 0);
    }

    // release_block for a buffer that is neither delayed-write nor busy: append before the head.
    method Append(buf: BlockBuffer)
      requires Valid() && buf !in ring
      modifies this, ring`prev, ring`next, buf`prev, buf`next
      ensures Valid() && ring == old(ring) + [buf]
    {
      if head != null {
        buf.next := head;
        buf.prev := head.prev;
        buf.prev.next := buf;
        head.prev := buf;
      } else {
        head := buf;
        buf.next := buf;
        buf.prev := buf;
      }
      ring := ring + [buf];
    }

    // remove_from_freelist.  The do-while loop reads through the head first, so the ring must not be empty.
    // A singleton ring keeps its element: it is its own neighbour and stays the head.
    method Remove(buf: BlockBuffer) returns (code: int)
      requires Valid() && ring != []
      modifies this, ring`prev, ring`next
      ensures Valid()
      ensures code == if buf in old(ring) then 0 else -1
      ensures ring == Unlinked(old(ring), buf) && forall b :: b in ring ==> b in old(ring)
    {
      var iter: BlockBuffer? := head;
      ghost var i := 0;
      while true
        invariant 0 <= i < |ring| && iter == ring[i] && buf !in ring[..i]
        invariant Valid() && ring == old(ring) && head == old(head)
        decreases |ring| - i
      {
        if iter == buf {
          assert IndexIn(ring, buf) == i;
          Unlink(iter, i);
          return 0;
        }
        iter := iter.next;
        if iter == null || iter == head {
          assert i + 1 == |ring|;
          return -1;
        }
        i := i + 1;
      }
    }

    // The body of the loop once the buffer is found.
    method Unlink(iter: BlockBuffer, ghost i: nat)
      requires Valid() && i < |ring| && ring[i] == iter
      modifies this, ring`prev, ring`next
      ensures Valid()
      ensures ring == if |old(ring)| >= 2 then Without(old(ring), i) else old(ring)
    {
      var prev, next := iter.prev, iter.next;
      prev.next := next;
      next.prev := prev;
      if iter == head {
        head := head.next;
      }
      if |ring| >= 2 {
        RingWithout(ring, i);
        ring := Without(ring, i);
      }
    }
  }

  // The ring links after the neighbours of the element at i have been joined.
  lemma RingWithout(s: seq<BlockBuffer>, i: nat)
    requires Distinct(s) && i < |s| && |s| >= 2
    requires s[Pred(i, |s|)].next == s[Succ(i, |s|)] && s[Succ(i, |s|)].prev == s[Pred(i, |s|)]
    requires forall k {:trigger s[k].next} :: 0 <= k < |s| && k != i && k != Pred(i, |s|) ==> s[k].next == s[Succ(k, |s|)]
    requires forall k {:trigger s[k].prev} :: 0 <= k < |s| && k != i && k != Succ(i, |s|) ==> s[k].prev == s[Pred(k, |s|)]
    ensures IsRing(Without(s, i)[0], Without(s, i))
  {
    var t := Without(s, i);
    DistinctWithout(s, i);
    forall j | 0 <= j < |t| ensures t[j].next == t[Succ(j, |t|)] && t[j].prev == t[Pred(j, |t|)] {
      NeighboursWithout(s, i, j);
    }
  }

  // init_block_buffer: chain the buffers of the page in order and close the circle.
  method LinkAll(bufs: seq<BlockBuffer>)
    requires bufs != [] && Distinct(bufs)
    modifies bufs`prev, bufs`next
    ensures IsRing(bufs[0], bufs)
  {
    hide IsRing;
    var prev := bufs[0];
    for i := 1 to |bufs|
      invariant prev == bufs[i - 1]
      invariant forall j :: 0 < j < i ==> bufs[j].prev == bufs[j - 1]
      invariant forall j :: 0 <= j < i - 1 ==> bufs[j].next == bufs[j + 1]
    {
      bufs[i].prev := prev;
      prev.next := bufs[i];
      prev := bufs[i];
    }
    prev.next := bufs[0];
    bufs[0].prev := prev;
    Closed(bufs);
  }

  lemma Closed(bufs: seq<BlockBuffer>)
    requires bufs != [] && Distinct(bufs)
    requires forall j :: 0 < j < |bufs| ==> bufs[j].prev == bufs[j - 1]
    requires forall j :: 0 <= j < |bufs| - 1 ==> bufs[j].next == bufs[j + 1]
    requires bufs[|bufs| - 1].next == bufs[0] && bufs[0].prev == bufs[|bufs| - 1]
    ensures IsRing(bufs[0], bufs)
  {
  }
}
