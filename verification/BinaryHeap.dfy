/** struct/heap.go: a binary heap in a slice, ordered by whatever Less its nodes bring. */
module BinaryHeap {

  // (i - 1) / 2, which for 0 Go truncates to 0.
  function Parent(i: nat): (p: nat)
    ensures i > 0 ==> i == 2 * p + 1 || i == 2 * p + 2
    ensures i == 0 ==> p == 0
  {
    if i == 0 then 0 else (i - 1) / 2
  }

  // What the heap needs of Less, on the nodes it holds: a strict weak order.
  ghost predicate WeakOrder<T>(less: (T, T) -> bool, nodes: multiset<T>) {
    && (forall a, b :: a in nodes && b in nodes && less(a, b) ==> !less(b, a))
    && (forall a, b, c :: a in nodes && b in nodes && c in nodes && less(a, c) ==> less(a, b) || less(b, c))
  }

  // Node c is not less than its parent.
  ghost predicate InOrder<T>(less: (T, T) -> bool, s: seq<T>, c: nat)
    requires c < |s|
  {
    !less(s[c], s[Parent(c)])
  }

  ghost predicate HeapOrder<T>(less: (T, T) -> bool, s: seq<T>) {
    forall c :: 0 < c < |s| ==> InOrder(less, s, c)
  }

  ghost predicate IsMinimum<T>(less: (T, T) -> bool, x: T, nodes: multiset<T>) {
    x in nodes && forall y :: y in nodes ==> !less(y, x)
  }

  // The first node of a heap is a minimum.
  lemma {:induction false} RootIsLeast<T>(less: (T, T) -> bool, s: seq<T>, c: nat)
    requires HeapOrder(less, s) && WeakOrder(less, multiset(s)) && c < |s|
    ensures !less(s[c], s[0])
    decreases c
  {
    assert s[c] in multiset(s) && s[0] in multiset(s) && s[Parent(c)] in multiset(s);
    if c > 0 {
      assert InOrder(less, s, c);
      RootIsLeast(less, s, Parent(c));
    }
  }

  function Swapped<T>(s: seq<T>, i: nat, j: nat): seq<T>
    requires i < |s| && j < |s|
  {
    s[i := s[j]][j := s[i]]
  }

  // Order everywhere but between idx and its parent; idx's children are in order with idx's parent.
  ghost predicate OrderButAbove<T>(less: (T, T) -> bool, s: seq<T>, idx: nat) {
    && idx < |s|
    && (forall c :: 0 < c < |s| && c != idx ==> InOrder(less, s, c))
    && (forall c :: 0 < c < |s| && Parent(c) == idx ==> !less(s[c], s[Parent(idx)]))
  }

  // Order everywhere but between p and its children; they are in order with p's parent.
  ghost predicate OrderButBelow<T>(less: (T, T) -> bool, s: seq<T>, p: nat) {
    && (forall c :: 0 < c < |s| && Parent(c) != p ==> InOrder(less, s, c))
    && (forall c :: 0 < c < |s| && Parent(c) == p && p > 0 ==> !less(s[c], s[Parent(p)]))
  }

  lemma SwappedNodes<T>(s: seq<T>, i: nat, j: nat)
    requires i < |s| && j < |s|
    ensures multiset(Swapped(s, i, j)) == multiset(s)
  {
  }

  lemma UpStep<T>(less: (T, T) -> bool, s: seq<T>, idx: nat)
    requires OrderButAbove(less, s, idx) && WeakOrder(less, multiset(s)) && idx > 0 && less(s[idx], s[Parent(idx)])
    ensures OrderButAbove(less, Swapped(s, Parent(idx), idx), Parent(idx))
  {
    var p := Parent(idx);
    var t := Swapped(s, p, idx);
    assert forall i :: 0 <= i < |s| ==> s[i] in multiset(s);
    forall c | 0 < c < |t| && c != p ensures InOrder(less, t, c) {
      assert c != idx ==> InOrder(less, s, c);
    }
    forall c | 0 < c < |t| && Parent(c) == p ensures !less(t[c], t[Parent(p)]) {
      if p == 0 {
        assert InOrder(less, t, c);
      } else {
        assert InOrder(less, s, p);
        assert c != idx ==> InOrder(less, s, c);
      }
    }
  }

  lemma DownStep<T>(less: (T, T) -> bool, s: seq<T>, p: nat, min: nat)
    requires OrderButBelow(less, s, p) && WeakOrder(less, multiset(s)) && p < |s|
    requires 0 < min < |s| && Parent(min) == p && less(s[min], s[p])
    requires forall c :: 0 < c < |s| && Parent(c) == p ==> !less(s[c], s[min])
    ensures OrderButBelow(less, Swapped(s, p, min), min)
  {
  }

  // The smallest of node i and its children, as down picks it.
  function Choice<T>(less: (T, T) -> bool, s: seq<T>, i: nat): (m: nat)
    requires 2 * i + 1 < |s|
    ensures m < |s|
  {
    var m := if less(s[2 * i + 1], s[i]) then 2 * i + 1 else i;
    if 2 * i + 2 < |s| && less(s[2 * i + 2], s[m]) then 2 * i + 2 else m
  }

  lemma ChoiceIsLeast<T>(less: (T, T) -> bool, s: seq<T>, i: nat)
    requires 2 * i + 1 < |s| && WeakOrder(less, multiset(s))
    ensures var m := Choice(less, s, i);
            && (forall c :: 0 < c < |s| && Parent(c) == i ==> !less(s[c], s[m]))
            && (m == i || (0 < m && Parent(m) == i && less(s[m], s[i])))
  {
  }

  lemma NoChildren(i: nat, len: nat)
    requires 2 * i + 1 >= len
    ensures forall c :: 0 < c < len ==> Parent(c) != i
  {
  }

  // Once i's children are in order the whole heap is.
  lemma OrderComplete<T>(less: (T, T) -> bool, s: seq<T>, i: nat)
    requires OrderButBelow(less, s, i)
    requires i < |s| ==> forall c :: 0 < c < |s| && Parent(c) == i ==> !less(s[c], s[i])
    ensures HeapOrder(less, s)
  {
  }

  lemma Appended<T>(less: (T, T) -> bool, s: seq<T>, node: T)
    requires HeapOrder(less, s)
    ensures OrderButAbove(less, s + [node], |s|)
  {
    var t := s + [node];
    forall c | 0 < c < |t| && c != |s| ensures InOrder(less, t, c) {
      assert InOrder(less, s, c);
    }
  }

  // The last node moves to the front, the first one leaves.
  lemma FrontReplaced<T>(less: (T, T) -> bool, s: seq<T>)
    requires s != [] && HeapOrder(less, s) && WeakOrder(less, multiset(s))
    ensures var t := Swapped(s, 0, |s| - 1)[..|s| - 1];
            && OrderButBelow(less, t, 0) && WeakOrder(less, multiset(t))
            && multiset(t) + multiset{s[0]} == multiset(s)
    ensures IsMinimum(less, s[0], multiset(s))
  {
    var n := |s| - 1;
    var u := Swapped(s, 0, n);
    var t := u[..n];
    SwappedNodes(s, 0, n);
    assert u == t + [s[0]];
    forall c | 0 < c < |t| && Parent(c) != 0 ensures InOrder(less, t, c) {
      assert InOrder(less, s, c);
    }
    forall y | y in multiset(s) ensures !less(y, s[0]) {
      var c :| 0 <= c < |s| && s[c] == y;
      RootIsLeast(less, s, c);
    }
    assert forall x :: x in multiset(t) ==> x in multiset(s);
  }

  class Heap<T(==)> {
    var root: seq<T>
    const less: (T, T) -> bool

    constructor (less: (T, T) -> bool)
      ensures root == [] && this.less == less
    {
      root := [];
      this.less := less;
    }

    method Swap(i: nat, j: nat)
      requires i < |root| && j < |root|
      modifies this`root
      ensures root == Swapped(old(root), i, j)
    {
      var tmp := root[i];
      root := root[i := root[j]];
      root := root[j := tmp];
    }

    method Up(idx: nat)
      requires OrderButAbove(less, root, idx) && WeakOrder(less, multiset(root))
      modifies this`root
      ensures HeapOrder(less, root) && multiset(root) == multiset(old(root))
    {
      var i := idx;
      while true
        invariant OrderButAbove(less, root, i) && multiset(root) == multiset(old(root))
        decreases i
      {
        var p := Parent(i);
        if i == p || !less(root[i], root[p]) {
          break;
        }
        UpStep(less, root, i);
        SwappedNodes(root, p, i);
        Swap(p, i);
        i := p;
      }
    }

    method Down(p: nat, len: nat)
      requires len == |root| && OrderButBelow(less, root, p) && WeakOrder(less, multiset(root))
      modifies this`root
      ensures HeapOrder(less, root) && multiset(root) == multiset(old(root))
    {
      hide OrderButBelow, HeapOrder, WeakOrder;
      var i := p;
      while true
        invariant len == |root| && OrderButBelow(less, root, i) && multiset(root) == multiset(old(root))
        decreases len - i
      {
        hide OrderButBelow, HeapOrder, WeakOrder;
        var min := i;
        var c1 := 2 * i + 1;
        if c1 >= len {
          NoChildren(i, len);
          OrderComplete(less, root, i);
          break;
        }
        ChoiceIsLeast(less, root, i);
        if less(root[c1], root[i]) {
          min := c1;
        }
        var c2 := c1 + 1;
        if c2 < len && less(root[c2], root[min]) {
          min := c2;
        }
        if min == i {
          OrderComplete(less, root, i);
          break;
        }
        DownStep(less, root, i, min);
        SwappedNodes(root, i, min);
        Swap(i, min);
        i := min;
      }
    }

    method Push(node: T)
      requires HeapOrder(less, root) && WeakOrder(less, multiset(root) + multiset{node})
      modifies this`root
      ensures HeapOrder(less, root) && multiset(root) == multiset(old(root)) + multiset{node}
    {
      Appended(less, root, node);
      root := root + [node];
      Up(|root| - 1);
    }

    // An empty heap has nothing to give; Go panics.
    method Pop() returns (ret: T)
      requires root != [] && HeapOrder(less, root) && WeakOrder(less, multiset(root))
      modifies this`root
      ensures HeapOrder(less, root) && multiset(root) + multiset{ret} == multiset(old(root))
      ensures IsMinimum(less, ret, multiset(old(root)))
    {
      FrontReplaced(less, root);
      hide HeapOrder, WeakOrder, OrderButBelow, IsMinimum;
      var l := |root|;
      Swap(0, l - 1);
      ret := root[l - 1];
      root := root[..l - 1];
      Down(0, l - 1);
    }
  }
}
