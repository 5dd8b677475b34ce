/** What every allocator operation keeps, one operation at a time and over whole runs. */
module ArenaSafety {
  import opened Machine
  import opened ArenaModel

  // ----- Retagging one tile -----

  // The same block with another state keeps the partition.
  lemma RetagKeepsTiling(tiles: set<Tile>, t: Tile, u: Tile, lo: nat, hi: nat)
    requires Tiling(tiles, lo, hi) && t in tiles && u.addr == t.addr && u.size == t.size
    ensures Tiling(tiles - {t} + {u}, lo, hi)
  {
    var after := tiles - {t} + {u};
    forall v, w | v in after && w in after && v != w ensures Disjoint(v, w) {
      var v', w' := if v == u then t else v, if w == u then t else w;
      assert v' != w' ==> Disjoint(v', w');
      assert v' == w' ==> v == u || w == u;
    }
    forall x: nat | lo <= x < hi ensures Owned(after, x) {
      assert Owned(tiles, x);
      var v :| v in tiles && Covers(v, x);
      assert Covers(if v == t then u else v, x);
    }
  }

  lemma PopKeepsInv(a: Arena, c: nat, sizes: seq<nat>, lo: nat, hi: nat)
    requires Sizes(sizes) && Inv(a, sizes, lo, hi) && c < LISTS && a.lists[c] != []
    ensures Inv(Pop(a, c, sizes[c]), sizes, lo, hi)
  {
    var p := a.lists[c][0];
    var t, u := Tile(p, sizes[c], Free(c)), Tile(p, sizes[c], Live(c));
    assert t in a.tiles;
    RetagKeepsTiling(a.tiles, t, u, lo, hi);
    var b := Pop(a, c, sizes[c]);
    assert a.lists[c] == [p] + b.lists[c];
  }

  lemma PushKeepsInv(a: Arena, c: nat, p: nat, sizes: seq<nat>, lo: nat, hi: nat)
    requires Sizes(sizes) && Inv(a, sizes, lo, hi) && c < LISTS && Tile(p, sizes[c], Live(c)) in a.tiles
    ensures Inv(Push(a, c, p, sizes[c]), sizes, lo, hi)
  {
    var t, u := Tile(p, sizes[c], Live(c)), Tile(p, sizes[c], Free(c));
    assert t != u && !Disjoint(t, u);
    RetagKeepsTiling(a.tiles, t, u, lo, hi);
  }

  // ----- Carving a page -----

  // The i-th block of a page, seen from the start of memory.
  lemma PiecePlaced(p: nat, size: nat, i: nat)
    requires p % PAGE_SIZE == 0 && 0 < size <= PAGE_SIZE && i < PerPage(size)
    ensures i * size + size <= PAGE_SIZE
    ensures (p + i * size) % PAGE_SIZE == i * size && i * size % size == 0
  {
    var n := PerPage(size);
    Ordered(i, n, size);
    MultipleOf(i, size);
    assert p == PAGE_SIZE * (p / PAGE_SIZE);
  }

  lemma MultipleOf(i: nat, size: nat)
    requires 0 < size
    ensures i * size % size == 0 && i * size / size == i
  {
    QuotientUnique(i * size, i, 0, size);
  }

  lemma QuotientUnique(x: nat, q: nat, r: nat, size: nat)
    requires x == q * size + r && r < size
    ensures x / size == q && x % size == r
  {
    var q' := x / size;
    assert x == q' * size + x % size;
    if q < q' { Ordered(q, q', size); } else if q' < q { Ordered(q', q, size); }
  }

  lemma PiecesTilePage(p: nat, size: nat, c: nat)
    requires 0 < size <= PAGE_SIZE
    ensures Tiling(Pieces(p, size, c), p, p + PAGE_SIZE)
  {
    hide PerPage;
    var parts := Pieces(p, size, c);
    forall t | t in parts ensures 0 < t.size && p <= t.addr && t.addr + t.size <= p + PAGE_SIZE {
      PieceBounds(p, size, c, t);
    }
    forall t, u | t in parts && u in parts && t != u ensures Disjoint(t, u) {
      PiecesDisjoint(p, size, c, t, u);
    }
    forall x: nat | p <= x < p + PAGE_SIZE ensures Owned(parts, x) {
      PiecesCover(p, size, c, x);
    }
  }

  // Which piece it is; the tail counts as the last.
  ghost function PieceIndex(p: nat, size: nat, c: nat, t: Tile): (i: nat)
    requires 0 < size <= PAGE_SIZE && t in Pieces(p, size, c)
    ensures i <= PerPage(size) && t.addr == p + i * size
    ensures if t.state.Tail? then t == Tile(p + PerPage(size) * size, PAGE_SIZE - PerPage(size) * size, Tail)
            else i < PerPage(size) && t == Tile(p + i * size, size, Free(c))
  {
    if t.state.Tail? then PerPage(size)
    else var i :| 0 <= i < PerPage(size) && t == Tile(p + i * size, size, Free(c)); i
  }

  lemma PieceBounds(p: nat, size: nat, c: nat, t: Tile)
    requires 0 < size <= PAGE_SIZE && t in Pieces(p, size, c)
    ensures 0 < t.size && p <= t.addr && t.addr + t.size <= p + PAGE_SIZE
    ensures !t.state.Tail? ==> t.addr + t.size <= p + PerPage(size) * size
  {
    var i := PieceIndex(p, size, c, t);
    if !t.state.Tail? { Ordered(i, PerPage(size), size); }
  }

  lemma PiecesDisjoint(p: nat, size: nat, c: nat, t: Tile, u: Tile)
    requires 0 < size <= PAGE_SIZE && t in Pieces(p, size, c) && u in Pieces(p, size, c) && t != u
    ensures Disjoint(t, u)
  {
    hide Pieces, PerPage;
    PieceBounds(p, size, c, t);
    PieceBounds(p, size, c, u);
    var i, j := PieceIndex(p, size, c, t), PieceIndex(p, size, c, u);
    if i < j { Ordered(i, j, size); } else if j < i { Ordered(j, i, size); }
  }

  lemma PiecesCover(p: nat, size: nat, c: nat, x: nat)
    requires 0 < size <= PAGE_SIZE && p <= x < p + PAGE_SIZE
    ensures Owned(Pieces(p, size, c), x)
  {
    var n, i, parts := PerPage(size), (x - p) / size, Pieces(p, size, c);
    assert x - p == i * size + (x - p) % size;
    if i < n {
      var t := Tile(p + i * size, size, Free(c));
      assert t in parts && Covers(t, x);
    } else {
      if n < i { Ordered(n, i, size); }
      var t := Tile(p + n * size, PAGE_SIZE - n * size, Tail);
      assert t in parts && Covers(t, x);
    }
  }

  // Replacing a tile by a partition of it keeps the partition.
  lemma ReplaceKeepsTiling(tiles: set<Tile>, t: Tile, parts: set<Tile>, lo: nat, hi: nat)
    requires Tiling(tiles, lo, hi) && t in tiles && Tiling(parts, t.addr, t.addr + t.size)
    ensures Tiling(tiles - {t} + parts, lo, hi)
  {
    var after := tiles - {t} + parts;
    forall v, w | v in after && w in after && v != w ensures Disjoint(v, w) {
      if v in parts && w !in parts { assert Disjoint(t, w); }
      if w in parts && v !in parts { assert Disjoint(t, v); }
    }
    forall x: nat | lo <= x < hi ensures Owned(after, x) {
      assert Owned(tiles, x);
      var v :| v in tiles && Covers(v, x);
      if v == t {
        assert Owned(parts, x);
        var w :| w in parts && Covers(w, x);
        assert w in after;
      } else {
        assert v in after;
      }
    }
  }

  lemma {:induction false} CarvedExact(p: nat, size: nat, n: nat)
    requires 0 < size
    ensures |Carved(p, size, n)| == n && Distinct(Carved(p, size, n))
    ensures forall q :: q in Carved(p, size, n) <==> exists i :: 0 <= i < n && q == p + i * size
  {
    if n > 0 {
      CarvedExact(p, size, n - 1);
      var rest, last := Carved(p, size, n - 1), p + (n - 1) * size;
      if last in rest {
        var i :| 0 <= i < n - 1 && last == p + i * size;
        Ordered(i, n - 1, size);
        assert false;
      }
      forall q | exists i :: 0 <= i < n && q == p + i * size ensures q in Carved(p, size, n) {
        var i :| 0 <= i < n && q == p + i * size;
        if i < n - 1 { assert q in rest; }
      }
      forall q | q in rest ensures exists i :: 0 <= i < n && q == p + i * size {
        var i :| 0 <= i < n - 1 && q == p + i * size;
      }
    }
  }

  // Which blocks carving adds to list c.
  lemma CarvedArePieces(p: nat, size: nat, c: nat)
    requires 0 < size <= PAGE_SIZE
    ensures forall q :: q in Carved(p, size, PerPage(size)) <==> Tile(q, size, Free(c)) in Pieces(p, size, c)
    ensures Distinct(Carved(p, size, PerPage(size)))
  {
    hide Carved, Pieces, PerPage;
    var n := PerPage(size);
    CarvedExact(p, size, n);
    forall q | Tile(q, size, Free(c)) in Pieces(p, size, c) ensures q in Carved(p, size, n) {
      var i := BlockIndex(p, size, c, q);
    }
    forall q | q in Carved(p, size, n) ensures Tile(q, size, Free(c)) in Pieces(p, size, c) {
      var i :| 0 <= i < n && q == p + i * size;
      BlockAt(p, size, c, i);
    }
  }

  lemma BlockIndex(p: nat, size: nat, c: nat, q: nat) returns (i: nat)
    requires 0 < size <= PAGE_SIZE && Tile(q, size, Free(c)) in Pieces(p, size, c)
    ensures i < PerPage(size) && q == p + i * size
  {
    hide PerPage;
    i := PieceIndex(p, size, c, Tile(q, size, Free(c)));
  }

  lemma BlockAt(p: nat, size: nat, c: nat, i: nat)
    requires 0 < size <= PAGE_SIZE && i < PerPage(size)
    ensures Tile(p + i * size, size, Free(c)) in Pieces(p, size, c)
  {
  }

  lemma PiecesPlaced(p: nat, c: nat, sizes: seq<nat>)
    requires Sizes(sizes) && c < LISTS && p > 0 && p % PAGE_SIZE == 0
    ensures forall t :: t in Pieces(p, sizes[c], c) ==> Placed(t, sizes)
  {
    forall t | t in Pieces(p, sizes[c], c) ensures Placed(t, sizes) {
      var i := PieceIndex(p, sizes[c], c, t);
      if !t.state.Tail? { PiecePlaced(p, sizes[c], i); }
    }
  }

  lemma SplitKeepsInv(a: Arena, c: nat, p: nat, sizes: seq<nat>, lo: nat, hi: nat)
    requires Sizes(sizes) && Inv(a, sizes, lo, hi) && 0 < c < LISTS && Tile(p, PAGE_SIZE, Live(0)) in a.tiles
    ensures Inv(Split(a, c, p, sizes[c]), sizes, lo, hi)
  {
    hide Pieces, PerPage, Tiling;
    var page, b := Tile(p, PAGE_SIZE, Live(0)), Split(a, c, p, sizes[c]);
    PiecesTilePage(p, sizes[c], c);
    ReplaceKeepsTiling(a.tiles, page, Pieces(p, sizes[c], c), lo, hi);
    PiecesPlaced(p, c, sizes);
    SplitKeepsListed(a, c, p, sizes, lo, hi);
  }

  lemma SplitKeepsListed(a: Arena, c: nat, p: nat, sizes: seq<nat>, lo: nat, hi: nat)
    requires Sizes(sizes) && Inv(a, sizes, lo, hi) && 0 < c < LISTS && Tile(p, PAGE_SIZE, Live(0)) in a.tiles
    ensures Listed(Split(a, c, p, sizes[c]), sizes)
  {
    hide Pieces, PerPage, Carved, Tiling, Placed;
    var size, page, parts := sizes[c], Tile(p, PAGE_SIZE, Live(0)), Pieces(p, sizes[c], c);
    var b, carved := Split(a, c, p, size), Carved(p, size, PerPage(size));
    CarvedArePieces(p, size, c);
    PiecesFreeOnC(p, size, c);
    CarvedNotListed(a, c, p, sizes, lo, hi);
    DistinctConcat(carved, a.lists[c]);
    forall d, q | 0 <= d < LISTS ensures q in b.lists[d] <==> Tile(q, sizes[d], Free(d)) in b.tiles {
      var t := Tile(q, sizes[d], Free(d));
      assert t in b.tiles <==> t in a.tiles || t in parts;
      assert q in a.lists[d] <==> t in a.tiles;
    }
  }

  lemma PiecesFreeOnC(p: nat, size: nat, c: nat)
    requires 0 < size <= PAGE_SIZE
    ensures forall t :: t in Pieces(p, size, c) ==> t.state == Free(c) || t.state == Tail
  {
  }

  lemma CarvedNotListed(a: Arena, c: nat, p: nat, sizes: seq<nat>, lo: nat, hi: nat)
    requires Sizes(sizes) && Inv(a, sizes, lo, hi) && 0 < c < LISTS && Tile(p, PAGE_SIZE, Live(0)) in a.tiles
    ensures forall q :: q in a.lists[c] ==> q !in Carved(p, sizes[c], PerPage(sizes[c]))
  {
    hide Pieces, PerPage, Carved;
    var size, page := sizes[c], Tile(p, PAGE_SIZE, Live(0));
    CarvedArePieces(p, size, c);
    forall q | q in a.lists[c] ensures q !in Carved(p, size, PerPage(size)) {
      var t := Tile(q, size, Free(c));
      assert t in a.tiles && Disjoint(t, page);
      if t in Pieces(p, size, c) { PieceBounds(p, size, c, t); }
    }
  }

  lemma DistinctConcat<T>(s: seq<T>, t: seq<T>)
    requires Distinct(s) && Distinct(t) && forall x :: x in t ==> x !in s
    ensures Distinct(s + t)
  {
    var r := s + t;
    forall i, j | 0 <= i < j < |r| ensures r[i] != r[j] {
      if i < |s| <= j { assert r[i] in s && r[j] in t; }
    }
  }

  lemma AllocKeepsInv(a: Arena, c: nat, sizes: seq<nat>, lo: nat, hi: nat)
    requires Sizes(sizes) && Inv(a, sizes, lo, hi) && c < LISTS && Alloc(a, c, sizes[c]).Some?
    ensures Inv(Alloc(a, c, sizes[c]).value, sizes, lo, hi)
  {
    if a.lists[c] != [] {
      PopKeepsInv(a, c, sizes, lo, hi);
    } else {
      PopKeepsInv(a, 0, sizes, lo, hi);
      var b := Pop(a, 0, PAGE_SIZE);
      SplitKeepsInv(b, c, a.lists[0][0], sizes, lo, hi);
      PopKeepsInv(Refill(a, c, sizes[c]), c, sizes, lo, hi);
    }
  }

  // ----- What a caller gets -----

  // An allocation on list c answered p and led from a to b: NULL exactly if neither the list nor the page list has
  // a block; else a block that was not there before, live now, with every other live block still live.
  ghost predicate Answered(a: Arena, b: Arena, c: nat, size: nat, p: nat)
    requires c < |a.lists|
  {
    && (p == 0 <==> a.lists[c] == [] && a.lists[0] == [])
    && (p == 0 ==> b == a)
    && (p != 0 ==>
          && Tile(p, size, Live(c)) in b.tiles && Tile(p, size, Live(c)) !in a.tiles
          && forall t :: t in a.tiles && t.state.Live? ==> t in b.tiles)
  }

  // What is handed out is the first block of the list; after a refill the last one of the page, the others staying on
  // the list, the last one first.
  ghost predicate TakenFrom(a: Arena, b: Arena, c: nat, size: nat, p: nat)
    requires 0 < c < |a.lists| && 0 < size <= PAGE_SIZE
  {
    if a.lists[c] != [] then p == a.lists[c][0] && b.lists == a.lists[c := a.lists[c][1..]]
    else if a.lists[0] != [] then
      var page, n := a.lists[0][0], PAGE_SIZE / size;
      && n >= 1 && p == page + (n - 1) * size
      && |b.lists| == |a.lists| && |b.lists[c]| == n - 1 && b.lists[0] == a.lists[0][1..]
      && (forall i :: 0 <= i < n - 1 ==> b.lists[c][i] == page + (n - 2 - i) * size)
      && forall d :: 0 < d < |a.lists| && d != c ==> b.lists[d] == a.lists[d]
    else true
  }

  // The outcome of an allocation and its answer.
  ghost function After(a: Arena, c: nat, size: nat): Arena
    requires c < |a.lists| && 0 < size <= PAGE_SIZE
  {
    var r := Alloc(a, c, size);
    if r.Some? then r.value else a
  }

  ghost function Answer(a: Arena, c: nat, size: nat): nat
    requires c < |a.lists| && 0 < size <= PAGE_SIZE
  {
    if Alloc(a, c, size).Some? then Address(a, c, size) else 0
  }

  lemma AllocAnswers(a: Arena, c: nat, sizes: seq<nat>, lo: nat, hi: nat)
    requires Sizes(sizes) && Inv(a, sizes, lo, hi) && 0 < c < LISTS
    ensures Answered(a, After(a, c, sizes[c]), c, sizes[c], Answer(a, c, sizes[c]))
    ensures TakenFrom(a, After(a, c, sizes[c]), c, sizes[c], Answer(a, c, sizes[c]))
  {
    if Alloc(a, c, sizes[c]).Some? {
      AddressHandedOut(a, c, sizes, lo, hi);
      AllocKeepsInv(a, c, sizes, lo, hi);
      assert Placed(Tile(Address(a, c, sizes[c]), sizes[c], Live(c)), sizes);
      RefillLists(a, c, sizes[c]);
    }
  }

  lemma RefillLists(a: Arena, c: nat, size: nat)
    requires 0 < c < |a.lists| && 0 < size <= PAGE_SIZE && Alloc(a, c, size).Some?
    ensures TakenFrom(a, Alloc(a, c, size).value, c, size, Address(a, c, size))
  {
    if a.lists[c] == [] {
      var page, n := a.lists[0][0], PerPage(size);
      CarvedOrder(page, size, n);
      assert Carved(page, size, n) + [] == Carved(page, size, n);
    }
  }

  lemma {:induction false} CarvedOrder(p: nat, size: nat, n: nat)
    ensures forall i :: 0 <= i < n ==> Carved(p, size, n)[i] == p + (n - 1 - i) * size
  {
    if n > 0 {
      CarvedOrder(p, size, n - 1);
      forall i | 0 < i < n ensures Carved(p, size, n)[i] == p + (n - 1 - i) * size {
        assert Carved(p, size, n)[i] == Carved(p, size, n - 1)[i - 1];
      }
    }
  }

  /** A block given back is the next one its list hands out, and handing it out again undoes giving it back. */
  lemma FreedComesBack(a: Arena, c: nat, p: nat, sizes: seq<nat>, lo: nat, hi: nat)
    requires Sizes(sizes) && Inv(a, sizes, lo, hi) && c < LISTS && Tile(p, sizes[c], Live(c)) in a.tiles
    ensures var b := Push(a, c, p, sizes[c]);
            && Tile(p, sizes[c], Live(c)) !in b.tiles && p in b.lists[c] && |b.lists[c]| == |a.lists[c]| + 1
            && Answer(b, c, sizes[c]) == p && After(b, c, sizes[c]) == a
  {
    var b, live, free := Push(a, c, p, sizes[c]), Tile(p, sizes[c], Live(c)), Tile(p, sizes[c], Free(c));
    assert !Disjoint(live, free) && b.lists[c][1..] == a.lists[c] && b.lists[c := a.lists[c]] == a.lists;
    assert b.tiles - {free} + {live} == a.tiles;
  }

  // ----- Runs -----

  // One call: alloc_page, malloc or alloc_object on list c, or the matching free.
  datatype Call = AllocCall(c: nat) | FreeCall(c: nat, p: nat)

  // A caller frees only what it holds, on the list it came from.
  ghost predicate Allowed(a: Arena, call: Call, sizes: seq<nat>)
    requires Sizes(sizes)
  {
    call.c < LISTS && (call.FreeCall? ==> Tile(call.p, sizes[call.c], Live(call.c)) in a.tiles)
  }

  ghost function Step(a: Arena, call: Call, sizes: seq<nat>): Arena
    requires Sizes(sizes) && |a.lists| == LISTS && Allowed(a, call, sizes)
  {
    match call
    case AllocCall(c) => var r := Alloc(a, c, sizes[c]); if r.Some? then r.value else a
    case FreeCall(c, p) => Push(a, c, p, sizes[c])
  }

  ghost predicate IsRun(states: seq<Arena>, calls: seq<Call>, sizes: seq<nat>)
    requires Sizes(sizes)
  {
    && |states| == |calls| + 1
    && forall i :: 0 <= i < |calls| ==>
         && |states[i].lists| == LISTS && Allowed(states[i], calls[i], sizes)
         && states[i + 1] == Step(states[i], calls[i], sizes)
  }

  lemma {:induction false} RunKeepsInv(states: seq<Arena>, calls: seq<Call>, sizes: seq<nat>, lo: nat, hi: nat, n: nat)
    requires Sizes(sizes) && IsRun(states, calls, sizes) && n < |states| && Inv(states[0], sizes, lo, hi)
    ensures Inv(states[n], sizes, lo, hi)
  {
    if n > 0 {
      RunKeepsInv(states, calls, sizes, lo, hi, n - 1);
      var a, call := states[n - 1], calls[n - 1];
      match call
      case AllocCall(c) => if Alloc(a, c, sizes[c]).Some? { AllocKeepsInv(a, c, sizes, lo, hi); }
      case FreeCall(c, p) => PushKeepsInv(a, c, p, sizes, lo, hi);
    }
  }

  /** Throughout any run of page, slice and object calls, every managed byte belongs to exactly one block:
      free on one list, live with one client, or a page tail.  Nothing is lost and nothing overlaps. */
  lemma EveryByteHasOneOwner(states: seq<Arena>, calls: seq<Call>, sizes: seq<nat>, lo: nat, hi: nat, n: nat, x: nat)
    requires Sizes(sizes) && IsRun(states, calls, sizes) && n < |states| && Inv(states[0], sizes, lo, hi)
    requires lo <= x < hi
    ensures exists t :: t in states[n].tiles && Covers(t, x) &&
              forall u :: u in states[n].tiles && Covers(u, x) ==> u == t
  {
    RunKeepsInv(states, calls, sizes, lo, hi, n);
    assert Owned(states[n].tiles, x);
    var t :| t in states[n].tiles && Covers(t, x);
    forall u | u in states[n].tiles && Covers(u, x) ensures u == t {
      assert u != t ==> Disjoint(t, u);
    }
  }

  /** What an allocation hands out at any point of a run is a block of the right size, aligned within one
      managed page, all of it free before, that touches no block a client already holds. */
  lemma AllocatedBlockIsFresh(states: seq<Arena>, calls: seq<Call>, sizes: seq<nat>, lo: nat, hi: nat, n: nat, c: nat)
    requires Sizes(sizes) && IsRun(states, calls, sizes) && n < |states| && Inv(states[0], sizes, lo, hi)
    requires c < LISTS && |states[n].lists| == LISTS && Alloc(states[n], c, sizes[c]).Some?
    ensures var a := states[n];
            var p, size := Address(a, c, sizes[c]), sizes[c];
            && lo <= p && p + size <= hi && 0 < p
            && p % PAGE_SIZE % size == 0 && p % PAGE_SIZE + size <= PAGE_SIZE
            && Tile(p, size, Live(c)) in Alloc(a, c, size).value.tiles
            && (exists t :: t in a.tiles && t.state.Free? && t.addr <= p && p + size <= t.addr + t.size)
            && forall t :: t in a.tiles && t.state.Live? ==> Disjoint(t, Tile(p, size, Live(c)))
  {
    RunKeepsInv(states, calls, sizes, lo, hi, n);
    var a := states[n];
    AllocKeepsInv(a, c, sizes, lo, hi);
    AddressHandedOut(a, c, sizes, lo, hi);
  }

  // The tile an allocation makes live, and the tiles it leaves alone.
  lemma AddressHandedOut(a: Arena, c: nat, sizes: seq<nat>, lo: nat, hi: nat)
    requires Sizes(sizes) && Inv(a, sizes, lo, hi) && c < LISTS && Alloc(a, c, sizes[c]).Some?
    ensures var t := Tile(Address(a, c, sizes[c]), sizes[c], Live(c));
            && t in Alloc(a, c, sizes[c]).value.tiles && t !in a.tiles
            && (exists u :: u in a.tiles && u.state.Free? && u.addr <= t.addr && t.addr + t.size <= u.addr + u.size)
            && forall u :: u in a.tiles && u.state.Live? ==> u in Alloc(a, c, sizes[c]).value.tiles && u != t
  {
    var p, size := Address(a, c, sizes[c]), sizes[c];
    if a.lists[c] != [] {
      assert Tile(p, size, Free(c)) in a.tiles;
      assert !Disjoint(Tile(p, size, Free(c)), Tile(p, size, Live(c)));
    } else {
      var page := a.lists[0][0];
      assert Tile(page, PAGE_SIZE, Free(0)) in a.tiles;
      PiecePlaced(page, size, PerPage(size) - 1);
      assert !Disjoint(Tile(page, PAGE_SIZE, Free(0)), Tile(p, size, Live(c)));
      assert !Disjoint(Tile(page, PAGE_SIZE, Free(0)), Tile(page, PAGE_SIZE, Live(0)));
    }
  }

  /** alloc_object does not look at the size while its list has blocks: it hands out the first one.  The bytes asked
      for are then managed and nobody else's exactly if they are no more than the list's blocks have. */
  lemma OtherSizeFitsIff(a: Arena, c: nat, sizes: seq<nat>, lo: nat, hi: nat, want: nat)
    requires Sizes(sizes) && Inv(a, sizes, lo, hi) && c < LISTS && a.lists[c] != [] && want > 0
    ensures var p := a.lists[c][0];
            (p + want <= hi &&
             forall t :: t in a.tiles && t != Tile(p, sizes[c], Free(c)) ==> Disjoint(t, Tile(p, want, Live(c))))
            <==> want <= sizes[c]
  {
    var p := a.lists[c][0];
    var own := Tile(p, sizes[c], Free(c));
    assert own in a.tiles;
    if sizes[c] < want && p + want <= hi {
      var x := p + sizes[c];
      assert Owned(a.tiles, x);
      var t :| t in a.tiles && Covers(t, x);
      assert t != own && !Disjoint(t, Tile(p, want, Live(c)));
    }
  }

  // ----- How long a size can be served -----

  // The blocks list c can still hand out if no other list needs a page.
  ghost function Capacity(a: Arena, c: nat, size: nat): nat
    requires 0 < c < |a.lists| && 0 < size <= PAGE_SIZE
  {
    |a.lists[c]| + |a.lists[0]| * (PAGE_SIZE / size)
  }

  ghost predicate OnlyAllocates(calls: seq<Call>, c: nat) {
    forall i :: 0 <= i < |calls| ==> calls[i] == AllocCall(c)
  }

  lemma AllocUsesOne(a: Arena, c: nat, size: nat)
    requires 0 < c < |a.lists| && 4 <= size <= PAGE_SIZE
    ensures Alloc(a, c, size).Some? <==> Capacity(a, c, size) > 0
    ensures |After(a, c, size).lists| == |a.lists|
    ensures Capacity(After(a, c, size), c, size) == if Capacity(a, c, size) > 0 then Capacity(a, c, size) - 1 else 0
  {
    var n := PerPage(size);
    if a.lists[c] != [] {
    } else if a.lists[0] != [] {
      RefillLists(a, c, size);
      OneFewer(|a.lists[0]|, n);
    }
  }

  lemma OneFewer(k: nat, n: nat)
    requires k > 0 && n >= 1
    ensures k * n >= 1 && (k - 1) * n + (n - 1) == k * n - 1
  {
  }

  /** At any point of any run of calls a size is served exactly if its list or the page list has a block. */
  lemma ServedWhileBlocksLeft(states: seq<Arena>, calls: seq<Call>, sizes: seq<nat>, lo: nat, hi: nat, n: nat, c: nat)
    requires Sizes(sizes) && IsRun(states, calls, sizes) && n < |states| && Inv(states[0], sizes, lo, hi) && 0 < c < LISTS
    ensures |states[n].lists| == LISTS
    ensures Answer(states[n], c, sizes[c]) != 0 <==> states[n].lists[c] != [] || states[n].lists[0] != []
    ensures Answered(states[n], After(states[n], c, sizes[c]), c, sizes[c], Answer(states[n], c, sizes[c]))
  {
    RunKeepsInv(states, calls, sizes, lo, hi, n);
    AllocAnswers(states[n], c, sizes, lo, hi);
  }

  /** Asking for blocks of one size over and over is served exactly as often as there is room at the start: for each block
      on the list, and for as many as fit into each free page. */
  lemma EveryBlockIsServed(states: seq<Arena>, calls: seq<Call>, sizes: seq<nat>, lo: nat, hi: nat, n: nat, c: nat)
    requires Sizes(sizes) && IsRun(states, calls, sizes) && n < |states| && Inv(states[0], sizes, lo, hi) && 0 < c < LISTS
    requires OnlyAllocates(calls, c)
    ensures |states[n].lists| == LISTS
    ensures Answer(states[n], c, sizes[c]) != 0 <==>
            n < |states[0].lists[c]| + |states[0].lists[0]| * (PAGE_SIZE / sizes[c])
  {
    CapacityLeft(states, calls, sizes, c, n);
    AllocUsesOne(states[n], c, sizes[c]);
    RunKeepsInv(states, calls, sizes, lo, hi, n);
    AllocAnswers(states[n], c, sizes, lo, hi);
  }

  lemma {:induction false} CapacityLeft(states: seq<Arena>, calls: seq<Call>, sizes: seq<nat>, c: nat, n: nat)
    requires Sizes(sizes) && IsRun(states, calls, sizes) && 0 < c < LISTS && OnlyAllocates(calls, c) && n < |states|
    requires |states[0].lists| == LISTS
    ensures |states[n].lists| == LISTS
    ensures var room := Capacity(states[0], c, sizes[c]);
            Capacity(states[n], c, sizes[c]) == if n < room then room - n else 0
  {
    hide Capacity, Alloc;
    if n > 0 {
      CapacityLeft(states, calls, sizes, c, n - 1);
      AllocUsesOne(states[n - 1], c, sizes[c]);
      assert calls[n - 1] == AllocCall(c) && states[n] == Step(states[n - 1], calls[n - 1], sizes);
    }
  }
}
