/**
 mem/memory.c on physical memory: nine free lists whose next pointers live in the first word of the free
 blocks themselves.
 */
module Allocator {
  import opened Machine
  import opened Ram
  import opened ArenaModel
  import opened ArenaSafety

  const MIN_LOG_SIZE: nat := 5
  const MAX_LOG_SIZE: nat := 10
  const SLICE_LISTS: nat := 6     // OBJ_LIST_LEN
  const OBJECT_LISTS: nat := 2    // EObjectMax

  // The largest aligned end for which start + PAGE_SIZE does not wrap around in init_memory's loop.
  const LAST_END: nat := 0xFFFF_E000

  // 1 << logSize
  function Shift(logSize: nat): nat
    requires MIN_LOG_SIZE <= logSize <= MAX_LOG_SIZE
  {
    [32, 64, 128, 256, 512, 1024][logSize - MIN_LOG_SIZE]
  }

  class MemoryManager {
    var mem: Memory
    var plFree: nat                 // free_memory.pl_free
    const msFree: array<nat>        // slice_list[].ms_free
    const moFree: array<nat>        // object_list[].mo_free
    ghost const sizes: seq<nat>
    ghost var arena: Arena
    ghost var lo: nat
    ghost var hi: nat

    function Head(c: nat): nat
      requires c < LISTS && msFree.Length == SLICE_LISTS && moFree.Length == OBJECT_LISTS
      reads this`plFree, msFree, moFree
    {
      if c == 0 then plFree else if c < FIRST_OBJECT then msFree[c - 1] else moFree[c - FIRST_OBJECT]
    }

    ghost predicate Shape()
      reads {}
    {
      Sizes(sizes) && msFree.Length == SLICE_LISTS && moFree.Length == OBJECT_LISTS && msFree != moFree
    }

    // The nine lists as they stand in memory.
    ghost predicate Linked(lists: seq<seq<nat>>)
      requires Shape()
      reads this`mem, this`plFree, msFree, moFree
    {
      && |lists| == LISTS
      && forall c :: 0 <= c < LISTS ==> IsList(mem, Head(c), lists[c])
    }

    ghost predicate Valid()
      reads this, msFree, moFree
    {
      && Shape() && lo <= hi <= U32
      && Inv(arena, sizes, lo, hi)
      && Linked(arena.lists)
    }

    // Zero-initialised statics; the object sizes are those the callers will pass.
    constructor (mem: Memory, ghost objectSizes: (nat, nat))
      requires 4 <= objectSizes.0 <= PAGE_SIZE && 4 <= objectSizes.1 <= PAGE_SIZE
      ensures Valid() && arena == Arena(seq(LISTS, _ => []), {}) && fresh(msFree) && fresh(moFree)
    {
      this.mem := mem;
      plFree := 0;
      msFree := new nat[SLICE_LISTS](_ => 0);
      moFree := new nat[OBJECT_LISTS](_ => 0);
      sizes := [PAGE_SIZE, 32, 64, 128, 256, 512, 1024, objectSizes.0, objectSizes.1];
      arena, lo, hi := Arena(seq(LISTS, _ => []), {}), 0, 0;
    }

    // The word at p lies in no free block.
    ghost predicate Outside(p: nat, size: nat, lists: seq<seq<nat>>)
    {
      forall c :: 0 <= c < |lists| ==> Apart(p, size, lists[c])
    }

    // node->next = head; head = node, the step shared by free_page, mfree_n and free_object_n.
    method Link(c: nat, p: nat, ghost lists: seq<seq<nat>>)
      requires Shape() && Linked(lists) && c < LISTS && 0 < p && p + 4 <= U32 && Outside(p, 4, lists)
      modifies this`mem, this`plFree, msFree, moFree
      ensures Linked(lists[c := [p] + lists[c]])
    {
      ghost var before := mem;
      LinkKeepsLists(before, Head(c), lists, c, p);
      if c == 0 {
        mem := Write32(mem, p, plFree);
        plFree := p;
      } else if c < FIRST_OBJECT {
        mem := Write32(mem, p, msFree[c - 1]);
        msFree[c - 1] := p;
      } else {
        mem := Write32(mem, p, moFree[c - FIRST_OBJECT]);
        moFree[c - FIRST_OBJECT] := p;
      }
    }

    lemma LinkKeepsLists(m: Memory, head: nat, lists: seq<seq<nat>>, c: nat, p: nat)
      requires Shape() && mem == m && Linked(lists) && c < LISTS && head == Head(c)
      requires 0 < p && p + 4 <= U32 && Outside(p, 4, lists)
      ensures head < U32
      ensures var n := Write32(m, p, head);
              && IsList(n, p, [p] + lists[c])
              && forall d :: 0 <= d < LISTS && d != c ==> IsList(n, Head(d), lists[d])
    {
      assert IsList(mem, Head(c), lists[c]);
      if lists[c] != [] { assert Node(m, lists[c], 0); }
      ListPushed(m, head, lists[c], p);
      var n := Write32(m, p, head);
      forall d | 0 <= d < LISTS && d != c ensures IsList(n, Head(d), lists[d]) {
        assert IsList(mem, Head(d), lists[d]) && Apart(p, 4, lists[d]);
        ListKept(m, n, Head(d), lists[d]);
      }
    }
  
    // head = head->next, the step shared by alloc_page, malloc and alloc_object.
    method Unlink(c: nat, ghost lists: seq<seq<nat>>) returns (p: nat)
      requires Shape() && Linked(lists) && c < LISTS && lists[c] != []
      modifies this`plFree, msFree, moFree
      ensures p == lists[c][0] && 0 < p && Linked(lists[c := lists[c][1..]])
    {
      assert IsList(mem, Head(c), lists[c]);
      ListPopped(mem, Head(c), lists[c]);
      if c == 0 {
        p := plFree;
        plFree := Read32(mem, p);
      } else if c < FIRST_OBJECT {
        p := msFree[c - 1];
        msFree[c - 1] := Read32(mem, p);
      } else {
        p := moFree[c - FIRST_OBJECT];
        moFree[c - FIRST_OBJECT] := Read32(mem, p);
      }
    }

    // alloc_page
    method AllocPage() returns (page: nat)
      requires Valid()
      modifies this`plFree, this`arena, msFree, moFree
      ensures Valid()
      ensures old(arena).lists[0] == [] ==> page == 0 && arena == old(arena)
      ensures old(arena).lists[0] != [] ==>
                page == old(arena).lists[0][0] && page != 0 && arena == Pop(old(arena), 0, PAGE_SIZE)
    {
      NullHeads(arena.lists);
      page := plFree;
      if page != 0 {
        page := Unlink(0, arena.lists);
        PopKeepsInv(arena, 0, sizes, lo, hi);
        arena := Pop(arena, 0, PAGE_SIZE);
      }
    }

    // A head is NULL exactly when its list is empty.
    lemma NullHeads(lists: seq<seq<nat>>)
      requires Shape() && Linked(lists)
      ensures forall c :: 0 <= c < LISTS ==> (Head(c) == 0 <==> lists[c] == [])
    {
      forall c | 0 <= c < LISTS ensures Head(c) == 0 <==> lists[c] == [] {
        assert IsList(mem, Head(c), lists[c]);
        if lists[c] != [] { ListPopped(mem, Head(c), lists[c]); }
      }
    }

    // free_page
    method FreePage(page: nat) returns (code: int)
      requires Valid()
      requires page != 0 && page % PAGE_SIZE == 0 ==> Tile(page, PAGE_SIZE, Live(0)) in arena.tiles
      modifies this`mem, this`plFree, this`arena, msFree, moFree
      ensures Valid() && code == if page == 0 || page % PAGE_SIZE != 0 then -1 else 0
      ensures code == -1 ==> mem == old(mem) && arena == old(arena)
      ensures code == 0 ==> arena == Push(old(arena), 0, page, PAGE_SIZE)
    {
      if page == 0 {
        return -1;
      }
      if page % PAGE_SIZE != 0 {
        return -1;
      }
      LiveBlockOutside(Tile(page, PAGE_SIZE, Live(0)));
      Link(0, page, arena.lists);
      PushKeepsInv(arena, 0, page, sizes, lo, hi);
      arena := Push(arena, 0, page, PAGE_SIZE);
      return 0;
    }

    // get_free_space: the list is acyclic, so the walk ends and counts the free pages exactly.
    method GetFreeSpace() returns (cnt: nat)
      requires Valid()
      ensures cnt == |arena.lists[0]|
    {
      ghost var s := arena.lists[0];
      assert IsList(mem, Head(0), s);
      var node := plFree;
      cnt := 0;
      while node != 0
        invariant cnt <= |s| && IsList(mem, node, s[cnt..])
        decreases |s| - cnt
      {
        ListPopped(mem, node, s[cnt..]);
        assert s[cnt..][1..] == s[cnt + 1..];
        cnt := cnt + 1;
        node := Read32(mem, node);
      }
      if cnt < |s| { ListPopped(mem, node, s[cnt..]); }
    }

    // mfree_n and free_object_n: push num consecutive blocks, the last one ending up first.
    method FreeN(c: nat, obj: nat, size: nat, num: nat, ghost lists: seq<seq<nat>>)
      requires Shape() && Linked(lists) && 0 < c < LISTS && 4 <= size
      requires 0 < obj && obj + num * size <= U32 && Outside(obj, num * size, lists)
      modifies this`mem, this`plFree, msFree, moFree
      ensures Linked(lists[c := Carved(obj, size, num) + lists[c]])
    {
      var bytePtr := obj;
      assert Carved(obj, size, 0) + lists[c] == lists[c];
      for n := 0 to num
        invariant bytePtr == obj + n * size
        invariant Linked(lists[c := Carved(obj, size, n) + lists[c]])
      {
        PushNth(c, bytePtr, obj, size, num, n, lists);
        NextBlock(obj, size, n);
        bytePtr := bytePtr + size;
      }
    }

    lemma NextBlock(obj: nat, size: nat, n: nat)
      ensures obj + n * size + size == obj + (n + 1) * size
    {
    }

    // One turn of the loop.
    method PushNth(c: nat, bytePtr: nat, ghost obj: nat, ghost size: nat, ghost num: nat, ghost n: nat,
                   ghost lists: seq<seq<nat>>)
      requires Shape() && 0 < c < LISTS && |lists| == LISTS && 4 <= size && n < num
      requires Linked(lists[c := Carved(obj, size, n) + lists[c]])
      requires 0 < obj && obj + num * size <= U32 && Outside(obj, num * size, lists) && bytePtr == obj + n * size
      modifies this`mem, this`plFree, msFree, moFree
      ensures Linked(lists[c := Carved(obj, size, n + 1) + lists[c]])
    {
      hide Carved, Outside, Linked;
      BlockOutside(c, obj, size, num, n, lists);
      OneMore(obj, size, n, lists[c]);
      ghost var now := lists[c := Carved(obj, size, n) + lists[c]];
      assert now[c := [bytePtr] + now[c]] == lists[c := Carved(obj, size, n + 1) + lists[c]];
      Link(c, bytePtr, now);
    }

    lemma OneMore(obj: nat, size: nat, n: nat, s: seq<nat>)
      ensures [obj + n * size] + (Carved(obj, size, n) + s) == Carved(obj, size, n + 1) + s
    {
    }

    // The n-th of the blocks being freed meets no list node, old or just pushed.
    lemma BlockOutside(c: nat, obj: nat, size: nat, num: nat, n: nat, lists: seq<seq<nat>>)
      requires c < |lists| && 4 <= size && n < num && Outside(obj, num * size, lists)
      ensures obj + n * size + size <= obj + num * size
      ensures Outside(obj + n * size, 4, lists[c := Carved(obj, size, n) + lists[c]])
    {
      Ordered(n, num, size);
      CarvedExact(obj, size, n);
      forall q | q in Carved(obj, size, n) ensures q + 4 <= obj + n * size {
        var i :| 0 <= i < n && q == obj + i * size;
        Ordered(i, n, size);
      }
      forall d | 0 <= d < |lists| ensures Apart(obj + n * size, 4, lists[d]) {
        assert Apart(obj, num * size, lists[d]);
      }
    }

    // malloc and alloc_object on a list whose blocks have the given size.
    method Obtain(c: nat, size: nat) returns (p: nat)
      requires Valid() && 0 < c < LISTS && size == sizes[c]
      modifies this`mem, this`plFree, this`arena, msFree, moFree
      ensures Valid()
      ensures p == Answer(old(arena), c, size) && arena == After(old(arena), c, size)
      ensures Answered(old(arena), arena, c, size, p) && TakenFrom(old(arena), arena, c, size, p)
    {
      hide Answered, TakenFrom, Inv;
      AllocAnswers(arena, c, sizes, lo, hi);
      ghost var before := arena;
      NullHeads(arena.lists);
      if Head(c) == 0 {
        var page := AllocPage();
        if page == 0 {
          return 0;
        }
        CarvePage(c, size, page);
      }
      assert arena == if before.lists[c] == [] then Refill(before, c, size) else before;
      p := Unlink(c, arena.lists);
      PopKeepsInv(arena, c, sizes, lo, hi);
      arena := Pop(arena, c, size);
    }

    // The page just taken becomes PAGE_SIZE / size free blocks.
    method CarvePage(c: nat, size: nat, page: nat)
      requires Valid() && 0 < c < LISTS && size == sizes[c] && Tile(page, PAGE_SIZE, Live(0)) in arena.tiles
      modifies this`mem, this`plFree, this`arena, msFree, moFree
      ensures Valid() && arena == Split(old(arena), c, page, size)
    {
      LiveBlockOutside(Tile(page, PAGE_SIZE, Live(0)));
      var num := PerPage(size);
      FreeN(c, page, size, num, arena.lists);
      SplitKeepsInv(arena, c, page, sizes, lo, hi);
      arena := Split(arena, c, page, size);
    }

    // malloc
    method Malloc(logSize: nat) returns (p: nat)
      requires Valid()
      modifies this`mem, this`plFree, this`arena, msFree, moFree
      ensures Valid()
      ensures logSize < MIN_LOG_SIZE || logSize > MAX_LOG_SIZE ==> p == 0 && arena == old(arena)
      ensures MIN_LOG_SIZE <= logSize <= MAX_LOG_SIZE ==>
                var c := logSize - MIN_LOG_SIZE + 1;
                && (p == 0 <==> old(arena).lists[c] == [] && old(arena).lists[0] == [])
                && p == Answer(old(arena), c, sizes[c]) && arena == After(old(arena), c, sizes[c])
                && Answered(old(arena), arena, c, sizes[c], p) && TakenFrom(old(arena), arena, c, sizes[c], p)
    {
      if logSize < MIN_LOG_SIZE || logSize > MAX_LOG_SIZE {
        return 0;
      }
      assert Shift(logSize) == sizes[logSize - MIN_LOG_SIZE + 1];
      hide Valid, Answer, After, TakenFrom;
      p := Obtain(logSize - MIN_LOG_SIZE + 1, Shift(logSize));
    }

    // mfree
    method Mfree(obj: nat, logSize: nat) returns (code: int)
      requires Valid()
      requires MIN_LOG_SIZE <= logSize <= MAX_LOG_SIZE ==>
                 Tile(obj, Shift(logSize), Live(logSize - MIN_LOG_SIZE + 1)) in arena.tiles
      modifies this`mem, this`plFree, this`arena, msFree, moFree
      ensures Valid() && code == if logSize < MIN_LOG_SIZE || logSize > MAX_LOG_SIZE then -1 else 0
      ensures code == -1 ==> mem == old(mem) && arena == old(arena)
      ensures code == 0 ==> arena == Push(old(arena), logSize - MIN_LOG_SIZE + 1, obj, Shift(logSize))
    {
      if logSize < MIN_LOG_SIZE || logSize > MAX_LOG_SIZE {
        return -1;
      }
      GiveBack(logSize - MIN_LOG_SIZE + 1, obj, Shift(logSize));
      return 0;
    }

    // alloc_object: type 0 or 1, always with the same size.
    method AllocObject(objType: nat, objSize: nat) returns (p: nat)
      requires Valid() && objType < OBJECT_LISTS && objSize == sizes[FIRST_OBJECT + objType]
      modifies this`mem, this`plFree, this`arena, msFree, moFree
      ensures Valid()
      ensures var c := FIRST_OBJECT + objType;
              && (p == 0 <==> old(arena).lists[c] == [] && old(arena).lists[0] == [])
              && p == Answer(old(arena), c, objSize) && arena == After(old(arena), c, objSize)
              && Answered(old(arena), arena, c, objSize, p) && TakenFrom(old(arena), arena, c, objSize, p)
    {
      p := Obtain(FIRST_OBJECT + objType, objSize);
    }

    // free_object
    method FreeObject(obj: nat, objType: nat, objSize: nat) returns (code: int)
      requires Valid() && objType < OBJECT_LISTS && objSize == sizes[FIRST_OBJECT + objType]
      requires Tile(obj, objSize, Live(FIRST_OBJECT + objType)) in arena.tiles
      modifies this`mem, this`plFree, this`arena, msFree, moFree
      ensures Valid() && code == 0 && arena == Push(old(arena), FIRST_OBJECT + objType, obj, objSize)
    {
      GiveBack(FIRST_OBJECT + objType, obj, objSize);
      return 0;
    }

    // mfree_n or free_object_n with num == 1.
    method GiveBack(c: nat, obj: nat, size: nat)
      requires Valid() && 0 < c < LISTS && size == sizes[c] && Tile(obj, size, Live(c)) in arena.tiles
      modifies this`mem, this`plFree, this`arena, msFree, moFree
      ensures Valid() && arena == Push(old(arena), c, obj, size)
    {
      LiveBlockOutside(Tile(obj, size, Live(c)));
      FreeN(c, obj, size, 1, arena.lists);
      assert Carved(obj, size, 1) + arena.lists[c] == [obj] + arena.lists[c];
      PushKeepsInv(arena, c, obj, sizes, lo, hi);
      arena := Push(arena, c, obj, size);
    }

    // init_memory's loop on a valid range: every page but page 0 joins the page list.
    method InitMemory(start: nat, end: nat)
      requires Valid() && arena == Arena(seq(LISTS, _ => []), {})
      requires start < U32 && end < U32
      requires start <= end && start % PAGE_SIZE == 0 && end % PAGE_SIZE == 0 ==> end <= LAST_END
      modifies this, msFree, moFree
      ensures Valid()
      ensures start > end || start % PAGE_SIZE != 0 || end % PAGE_SIZE != 0 ==>
                arena == old(arena) && lo == old(lo) && hi == old(hi)
      ensures start <= end && start % PAGE_SIZE == 0 && end % PAGE_SIZE == 0 ==>
                && lo == (if start == 0 < end then PAGE_SIZE else start) && hi == end
                && forall t :: t in arena.tiles ==> t.state == Free(0)
    {
      if start > end || start % PAGE_SIZE != 0 || end % PAGE_SIZE != 0 {
        return;
      }
      plFree := 0;
      lo := if start == 0 < end then PAGE_SIZE else start;
      hi := lo;
      var page := start;
      while (page + PAGE_SIZE) % U32 <= end
        invariant page % PAGE_SIZE == 0 && start <= page <= end
        invariant Valid() && hi == (if page < lo then lo else page)
        invariant lo == (if start == 0 < end then PAGE_SIZE else start)
        invariant forall t :: t in arena.tiles ==> t.state == Free(0)
        decreases end - page
      {
        AddPage(page);
        page := page + PAGE_SIZE;
      }
    }

    // free_page on a page that was not managed before; page 0 is refused.
    method AddPage(page: nat)
      requires Valid() && page % PAGE_SIZE == 0 && page + PAGE_SIZE <= U32
      requires page != 0 ==> page == hi
      modifies this`mem, this`plFree, this`arena, this`hi, msFree, moFree
      ensures Valid()
      ensures page == 0 ==> arena == old(arena) && hi == old(hi)
      ensures page != 0 ==>
                && hi == page + PAGE_SIZE
                && arena == Arena(old(arena).lists[0 := [page] + old(arena).lists[0]],
                                  old(arena).tiles + {Tile(page, PAGE_SIZE, Free(0))})
    {
      if page == 0 {
        return;
      }
      NewPageOutside(page);
      Link(0, page, arena.lists);
      NewPageKeepsInv(arena, page, sizes, lo, hi);
      arena := Arena(arena.lists[0 := [page] + arena.lists[0]], arena.tiles + {Tile(page, PAGE_SIZE, Free(0))});
      hi := page + PAGE_SIZE;
    }

    lemma NewPageOutside(page: nat)
      requires Valid() && page == hi
      ensures Outside(page, 4, arena.lists)
    {
    }

    // A client writes any byte of a block it holds.
    method ClientWrite(t: Tile, x: nat, v: Byte)
      requires Valid() && t in arena.tiles && t.state.Live? && Covers(t, x)
      modifies this`mem
      ensures Valid() && mem == old(mem)[x := v]
    {
      LiveBlockOutside(t);
      ghost var before := mem;
      mem := mem[x := v];
      forall c | 0 <= c < LISTS ensures IsList(mem, Head(c), arena.lists[c]) {
        assert Apart(t.addr, t.size, arena.lists[c]);
        ListKept(before, mem, Head(c), arena.lists[c]);
      }
    }

    // A block no list contains holds no list node.
    lemma LiveBlockOutside(t: Tile)
      requires Valid() && t in arena.tiles && !t.state.Free?
      ensures Outside(t.addr, t.size, arena.lists) && t.addr + t.size <= U32
    {
    }
  }

  lemma ListPopped(m: Memory, head: nat, s: seq<nat>)
    requires IsList(m, head, s) && s != []
    ensures head == s[0] && 0 < head && head + 4 <= U32 && IsList(m, Read32(m, head), s[1..])
  {
    assert Node(m, s, 0);
    var t := s[1..];
    forall i | 0 <= i < |t| ensures Node(m, t, i) {
      assert Node(m, s, i + 1) && t[i] == s[i + 1] && Follower(t, i) == Follower(s, i + 1);
    }
  }

  // The managed range grows by a page at its end.
  lemma NewPageKeepsInv(a: Arena, page: nat, sizes: seq<nat>, lo: nat, hi: nat)
    requires Sizes(sizes) && Inv(a, sizes, lo, hi) && lo <= hi == page && 0 < page && page % PAGE_SIZE == 0
    ensures Inv(Arena(a.lists[0 := [page] + a.lists[0]], a.tiles + {Tile(page, PAGE_SIZE, Free(0))}),
                sizes, lo, hi + PAGE_SIZE)
  {
    var t := Tile(page, PAGE_SIZE, Free(0));
    var after := a.tiles + {t};
    forall x: nat | lo <= x < hi + PAGE_SIZE ensures Owned(after, x) {
      if x < hi {
        assert Owned(a.tiles, x);
        var u :| u in a.tiles && Covers(u, x);
        assert u in after;
      } else {
        assert t in after && Covers(t, x);
      }
    }
    assert t !in a.tiles;
  }

  /** init_memory's loop guard is computed with 32-bit wrap-around.  For a page-aligned end it can turn false
      at some page exactly when end is at most LAST_END; with the one larger aligned end it never does. */
  lemma InitLoopCanEndIff(end: nat)
    requires end < U32 && end % PAGE_SIZE == 0
    ensures (exists page: nat :: page < U32 && page % PAGE_SIZE == 0 && !GuardHolds(page, end)) <==> end <= LAST_END
  {
    if end <= LAST_END {
      assert !GuardHolds(end, end);
    } else {
      assert end == 0xFFFF_F000 by { PagesAbove(end); }
      forall page: nat | page < U32 && page % PAGE_SIZE == 0 ensures GuardHolds(page, end) {
        PagesAbove(page);
      }
    }
  }

  predicate GuardHolds(page: nat, end: nat) {
    (page + PAGE_SIZE) % U32 <= end
  }

  lemma PagesAbove(page: nat)
    requires page < U32 && page % PAGE_SIZE == 0
    ensures page > LAST_END ==> page == 0xFFFF_F000
    ensures page <= LAST_END ==> page + PAGE_SIZE <= 0xFFFF_F000
  {
  }
}
