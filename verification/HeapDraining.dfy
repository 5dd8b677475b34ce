/** What popping a heap empty yields, and when IntNode's Less (struct/heap.go) is fit for a heap. */
module HeapDraining {
  import opened BinaryHeap

  // rs are the answers of successive pops; hs[i] is what the heap held before the i-th.
  ghost predicate Pops<T>(less: (T, T) -> bool, hs: seq<multiset<T>>, rs: seq<T>) {
    |hs| == |rs| + 1 && forall i :: 0 <= i < |rs| ==> Popped(less, hs[i], rs[i], hs[i + 1])
  }

  ghost predicate Drains<T>(less: (T, T) -> bool, hs: seq<multiset<T>>, rs: seq<T>) {
    Pops(less, hs, rs) && hs[|rs|] == multiset{}
  }

  // What Heap.Pop promises of its answer.
  ghost predicate Popped<T>(less: (T, T) -> bool, before: multiset<T>, r: T, after: multiset<T>) {
    IsMinimum(less, r, before) && after + multiset{r} == before
  }

  ghost predicate Sorted<T>(less: (T, T) -> bool, rs: seq<T>) {
    forall i, j :: 0 <= i < j < |rs| ==> !less(rs[j], rs[i])
  }

  /** Popping until the heap is empty gives back everything that was pushed, in order. */
  lemma {:induction false} DrainingSorts<T>(less: (T, T) -> bool, hs: seq<multiset<T>>, rs: seq<T>)
    requires Drains(less, hs, rs)
    ensures multiset(rs) == hs[0] && Sorted(less, rs)
    decreases |rs|
  {
    if rs != [] {
      var rest := rs[1..];
      LaterPops(less, hs, rs);
      DrainingSorts(less, hs[1..], rest);
      assert rs == [rs[0]] + rest && Popped(less, hs[0], rs[0], hs[1]);
      LeastFirst(less, rs[0], rest, hs[0]);
    }
  }

  lemma LaterPops<T>(less: (T, T) -> bool, hs: seq<multiset<T>>, rs: seq<T>)
    requires Drains(less, hs, rs) && rs != []
    ensures Drains(less, hs[1..], rs[1..])
  {
  }

  lemma LeastFirst<T>(less: (T, T) -> bool, r: T, rest: seq<T>, nodes: multiset<T>)
    requires IsMinimum(less, r, nodes) && multiset(rest) <= nodes && Sorted(less, rest)
    ensures Sorted(less, [r] + rest)
  {
  }

  lemma FewerOrdered<T>(less: (T, T) -> bool, some: multiset<T>, nodes: multiset<T>)
    requires WeakOrder(less, nodes) && some <= nodes
    ensures WeakOrder(less, some)
  {
  }

  lemma OneMorePop<T>(less: (T, T) -> bool, hs: seq<multiset<T>>, rs: seq<T>, r: T, after: multiset<T>)
    requires Pops(less, hs, rs) && Popped(less, hs[|rs|], r, after)
    ensures Pops(less, hs + [after], rs + [r])
  {
  }

  // Pop until the heap is empty.
  method Drain<T(==)>(h: Heap<T>) returns (rs: seq<T>)
    requires HeapOrder(h.less, h.root) && WeakOrder(h.less, multiset(h.root))
    modifies h`root
    ensures h.root == [] && multiset(rs) == multiset(old(h.root)) && Sorted(h.less, rs)
  {
    hide HeapOrder, WeakOrder, IsMinimum, Sorted;
    rs := [];
    ghost var hs := [multiset(h.root)];
    while h.root != []
      invariant HeapOrder(h.less, h.root) && WeakOrder(h.less, multiset(h.root))
      invariant Pops(h.less, hs, rs) && hs[0] == multiset(old(h.root)) && hs[|rs|] == multiset(h.root)
      decreases |h.root|
    {
      hide HeapOrder, WeakOrder, IsMinimum, Pops;
      ghost var before := h.root;
      var r := h.Pop();
      FewerOrdered(h.less, multiset(h.root), multiset(before));
      OneMorePop(h.less, hs, rs, r, multiset(h.root));
      rs := rs + [r];
      hs := hs + [multiset(h.root)];
    }
    DrainingSorts(h.less, hs, rs);
  }

  /** Pushing nodes into an empty heap and popping them all sorts them. */
  method SortThroughHeap<T(==)>(less: (T, T) -> bool, nodes: seq<T>) returns (rs: seq<T>)
    requires WeakOrder(less, multiset(nodes))
    ensures multiset(rs) == multiset(nodes) && Sorted(less, rs)
  {
    var h := new Heap<T>(less);
    for i := 0 to |nodes|
      invariant HeapOrder(h.less, h.root) && h.less == less && multiset(h.root) == multiset(nodes[..i])
    {
      assert nodes[..i + 1] == nodes[..i] + [nodes[i]] && nodes == nodes[..i + 1] + nodes[i + 1..];
      FewerOrdered(less, multiset(nodes[..i + 1]), multiset(nodes));
      h.Push(nodes[i]);
    }
    assert nodes[..|nodes|] == nodes;
    rs := Drain(h);
  }

  // ----- IntNode -----

  const MIN_INT: int := -0x8000_0000_0000_0000
  const MAX_INT: int := 0x7FFF_FFFF_FFFF_FFFF

  type Int = x: int | MIN_INT <= x <= MAX_INT

  // The 64-bit difference, wrapped around.
  function Minus(a: Int, b: Int): Int {
    if a - b > MAX_INT then a - b - 0x1_0000_0000_0000_0000
    else if a - b < MIN_INT then a - b + 0x1_0000_0000_0000_0000
    else a - b
  }

  // IntNode.Less
  predicate IntLess(a: Int, b: Int) {
    Minus(a, b) < 0
  }

  ghost predicate Fits(a: Int, b: Int) {
    MIN_INT <= a - b <= MAX_INT
  }

  /** Less tells the smaller number exactly when the difference fits in an int. */
  lemma IntLessIff(a: Int, b: Int)
    ensures (IntLess(a, b) <==> a < b) <==> Fits(a, b)
  {
  }

  ghost predicate AllFit(nodes: multiset<Int>) {
    forall a, b :: a in nodes && b in nodes ==> Fits(a, b)
  }

  /** On nodes whose differences all fit, Less is what the heap needs, and the minimum it finds is the least
      number; it is a strict total order there. */
  lemma IntNodesOrdered(nodes: multiset<Int>)
    requires AllFit(nodes)
    ensures WeakOrder(IntLess, nodes)
    ensures forall a, b :: a in nodes && b in nodes ==> IntLess(a, b) || IntLess(b, a) || a == b
    ensures forall x :: IsMinimum(IntLess, x, nodes) <==> x in nodes && forall y :: y in nodes ==> x <= y
  {
    assert forall a, b :: a in nodes && b in nodes ==> Fits(a, b) && (IntLess(a, b) <==> a < b);
  }

  /** Three nodes on which Less runs in a circle, so that no heap can order them. */
  lemma IntLessCircle()
    ensures var big: Int := 0x6000_0000_0000_0000;
            IntLess(-big, 0) && IntLess(0, big) && IntLess(big, -big)
            && !WeakOrder(IntLess, multiset{-big, 0, big})
  {
  }
}
