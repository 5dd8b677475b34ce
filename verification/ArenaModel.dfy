/**
 The three-level allocator of mem/memory.c seen through its specification.  The managed range is cut into
 tiles; each tile is free on one list, live with a client, or a page tail too short for another object.
 List 0 holds whole pages, lists 1 to 6 the slices of 2^5 to 2^10 bytes, lists 7 and 8 the two object types.
 */
module ArenaModel {
  import opened Machine

  const PAGE_SIZE: nat := 4096
  const LISTS: nat := 9
  const FIRST_OBJECT: nat := 7

  datatype State = Free(list: nat) | Live(list: nat) | Tail

  datatype Tile = Tile(addr: nat, size: nat, state: State)

  datatype Arena = Arena(lists: seq<seq<nat>>, tiles: set<Tile>)

  // Block size of each list; the object sizes are what the callers pass for each object type.
  ghost predicate Sizes(sizes: seq<nat>) {
    && |sizes| == LISTS && sizes[0] == PAGE_SIZE
    && sizes[1] == 32 && sizes[2] == 64 && sizes[3] == 128 && sizes[4] == 256 && sizes[5] == 512 && sizes[6] == 1024
    && forall c :: 0 <= c < LISTS ==> 4 <= sizes[c] <= PAGE_SIZE
  }

  function PerPage(size: nat): (n: nat)
    requires 0 < size <= PAGE_SIZE
    ensures 1 <= n && n * size <= PAGE_SIZE < (n + 1) * size
  {
    PAGE_SIZE / size
  }

  ghost predicate Covers(t: Tile, x: nat) {
    t.addr <= x < t.addr + t.size
  }

  ghost predicate Disjoint(t: Tile, u: Tile) {
    t.addr + t.size <= u.addr || u.addr + u.size <= t.addr
  }

  // The tiles partition the bytes from lo up to hi.
  ghost predicate Tiling(tiles: set<Tile>, lo: nat, hi: nat) {
    && (forall t :: t in tiles ==> 0 < t.size && lo <= t.addr && t.addr + t.size <= hi)
    && (forall t, u :: t in tiles && u in tiles && t != u ==> Disjoint(t, u))
    && (forall x :: lo <= x < hi ==> Owned(tiles, x))
  }

  ghost predicate Owned(tiles: set<Tile>, x: nat) {
    exists t :: t in tiles && Covers(t, x)
  }

  // A listed or live block has its list's size, sits inside one page at a multiple of that size from the
  // page's start, and is not NULL.
  ghost predicate Placed(t: Tile, sizes: seq<nat>)
    requires Sizes(sizes)
  {
    && t.addr > 0
    && (!t.state.Tail? ==>
          && t.state.list < LISTS && t.size == sizes[t.state.list] && 0 < t.size
          && t.addr % PAGE_SIZE + t.size <= PAGE_SIZE
          && t.addr % PAGE_SIZE % t.size == 0)
  }

  ghost predicate Listed(a: Arena, sizes: seq<nat>)
    requires Sizes(sizes)
  {
    && |a.lists| == LISTS
    && (forall c :: 0 <= c < LISTS ==> Distinct(a.lists[c]))
    && (forall c, p :: 0 <= c < LISTS ==> (p in a.lists[c] <==> Tile(p, sizes[c], Free(c)) in a.tiles))
  }

  ghost predicate Inv(a: Arena, sizes: seq<nat>, lo: nat, hi: nat)
    requires Sizes(sizes)
  {
    && Tiling(a.tiles, lo, hi)
    && (forall t :: t in a.tiles ==> Placed(t, sizes))
    && Listed(a, sizes)
  }

  // ----- The operations -----

  // Take the first block of a list.
  ghost function Pop(a: Arena, c: nat, size: nat): Arena
    requires c < |a.lists| && a.lists[c] != []
  {
    var p := a.lists[c][0];
    Arena(a.lists[c := a.lists[c][1..]], a.tiles - {Tile(p, size, Free(c))} + {Tile(p, size, Live(c))})
  }

  // Give a live block back.
  ghost function Push(a: Arena, c: nat, p: nat, size: nat): Arena
    requires c < |a.lists|
  {
    Arena(a.lists[c := [p] + a.lists[c]], a.tiles - {Tile(p, size, Live(c))} + {Tile(p, size, Free(c))})
  }

  // The addresses of n blocks carved from p on, last one first.
  ghost function Carved(p: nat, size: nat, n: nat): (s: seq<nat>)
    ensures |s| == n
  {
    if n == 0 then [] else [p + (n - 1) * size] + Carved(p, size, n - 1)
  }

  // A live page is cut into blocks of list c; what is left at the end of the page belongs to nobody.
  ghost function Split(a: Arena, c: nat, p: nat, size: nat): Arena
    requires c < |a.lists| && 0 < size <= PAGE_SIZE
  {
    Arena(a.lists[c := Carved(p, size, PerPage(size)) + a.lists[c]],
          a.tiles - {Tile(p, PAGE_SIZE, Live(0))} + Pieces(p, size, c))
  }

  ghost function Pieces(p: nat, size: nat, c: nat): set<Tile>
    requires 0 < size <= PAGE_SIZE
  {
    var n := PerPage(size);
    (set i | 0 <= i < n :: Tile(p + i * size, size, Free(c)))
    + (if n * size == PAGE_SIZE then {} else {Tile(p + n * size, PAGE_SIZE - n * size, Tail)})
  }

  // A page taken from the page list and carved for list c.
  ghost function Refill(a: Arena, c: nat, size: nat): Arena
    requires 0 < c < |a.lists| && a.lists[0] != [] && 0 < size <= PAGE_SIZE
  {
    Split(Pop(a, 0, PAGE_SIZE), c, a.lists[0][0], size)
  }

  // alloc_page, malloc and alloc_object: None when memory is exhausted.
  ghost function Alloc(a: Arena, c: nat, size: nat): (r: Option<Arena>)
    requires c < |a.lists| && 0 < size <= PAGE_SIZE
  {
    if a.lists[c] != [] then Some(Pop(a, c, size))
    else if c == 0 || a.lists[0] == [] then None
    else Some(Pop(Refill(a, c, size), c, size))
  }

  // The address it hands out.
  ghost function Address(a: Arena, c: nat, size: nat): nat
    requires c < |a.lists| && 0 < size <= PAGE_SIZE && Alloc(a, c, size).Some?
  {
    if a.lists[c] != [] then a.lists[c][0] else a.lists[0][0] + (PerPage(size) - 1) * size
  }
}
