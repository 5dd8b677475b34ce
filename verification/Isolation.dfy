/**
 What the tasks of multi_task see in their pages: address spaces together with the contents of memory, under
 forks, write faults and the tasks' own stores, in any order.
 */
module Isolation {
  import opened PageEntries
  import opened AddressSpaces
  import opened PageTables

  datatype World = World(s: Spaces, ram: Memory)

  // Kernel(e): a fork or a fault.  Store: a task writes one word of one of its pages.
  datatype Deed = Kernel(e: Event) | Store(task: nat, page: nat, word: nat, value: Word)

  // The frames outside the kernel's keep their contents.
  ghost predicate UserFramesKept(ram: Memory, after: Memory, kernel: set<nat>) {
    forall f :: 0 <= f < PAGES && f !in kernel ==> after[f] == ram[f]
  }

  // page_copy leaves out the last word; a page from the free list is zero there.
  function CopyOf(page: Frame): Frame {
    page[ROW - 1 := 0]
  }

  ghost predicate Mapped(s: Spaces, i: nat, l: nat) {
    i < |s.maps| && l < PAGES && s.maps[i][l].Some?
  }

  function FrameAt(s: Spaces, i: nat, l: nat): (f: nat)
    requires i < |s.maps| && l < PAGES && s.maps[i][l].Some?
    ensures f < PAGES
  {
    FrameOf(s.maps[i][l].value)
  }

  // What task i reads at linear page l.
  function Seen(w: World, i: nat, l: nat): Frame
    requires Mapped(w.s, i, l)
  {
    w.ram[FrameAt(w.s, i, l)]
  }

  // One step.  A fork may leave anything in the kernel's frames; a store needs write access, and until the first
  // fork, which takes write access to the kernel's pages away, a task must not use it against the kernel.
  ghost predicate Does(w: World, d: Deed, v: World) {
    match d
    case Kernel(ForkBy(i, taken)) =>
      && Enabled(w.s, d.e) && v.s == Step(w.s, d.e)
      && UserFramesKept(w.ram, v.ram, w.s.kernel)
    case Kernel(WriteFault(i, l)) =>
      && Enabled(w.s, d.e) && v.s == Step(w.s, d.e)
      && UserFramesKept(w.ram, v.ram, w.s.kernel)
      && v.ram[w.s.free[0]] == CopyOf(Seen(w, i, l))
    case Store(i, l, n, x) =>
      && Mapped(w.s, i, l) && CanWrite(w.s.maps[i], l) && n < ROW
      && (Whole(w.s) ==> FrameAt(w.s, i, l) !in w.s.kernel)
      && v == w.(ram := w.ram[FrameAt(w.s, i, l) := Seen(w, i, l)[n := x]])
  }

  lemma ForkDone(w: World, i: nat, taken: nat, v: World)
    requires i < |w.s.maps| && taken <= |w.s.free| && v.s == Fork(w.s, i, taken)
    requires UserFramesKept(w.ram, v.ram, w.s.kernel)
    ensures Does(w, Kernel(ForkBy(i, taken)), v)
  {
  }

  // A fault, told frame by frame.
  lemma FaultDone(w: World, i: nat, l: nat, v: World, table: nat)
    requires Enabled(w.s, WriteFault(i, l)) && v.s == Fault(w.s, i, l) && w.s.free[0] in w.s.kernel
    requires v.ram[w.s.free[0]] == CopyOf(Seen(w, i, l))
    requires table in w.s.kernel && forall f :: 0 <= f < PAGES && f != w.s.free[0] && f != table ==> v.ram[f] == w.ram[f]
    ensures Does(w, Kernel(WriteFault(i, l)), v)
  {
  }

  // ----- Who shares a frame -----

  ghost predicate SameFrame(s: Spaces, i: nat, l: nat, j: nat, m: nat) {
    Mapped(s, i, l) && Mapped(s, j, m) && FrameAt(s, i, l) == FrameAt(s, j, m)
  }

  // Another page shows the frame of a writable shared page only at the frame's own address, and only if that
  // was the kernel's at the start; pages that are not shared have frames apart from those that are.
  ghost predicate Private(s: Spaces, kernel0: set<nat>) {
    && (forall i: nat, l: nat, j: nat, m: nat :: SameFrame(s, i, l, j, m) ==> Alone(s, i, l, j, m, kernel0))
    && (forall i: nat, l: nat, j: nat, m: nat :: SameFrame(s, i, l, j, m) ==> Shared(l) == Shared(m))
  }

  ghost predicate Alone(s: Spaces, i: nat, l: nat, j: nat, m: nat, kernel0: set<nat>)
    requires Mapped(s, i, l)
  {
    Writes(s.maps[i], l) && (i != j || l != m) ==> m == FrameAt(s, i, l) && m in kernel0
  }

  ghost predicate Sound(s: Spaces, kernel0: set<nat>) {
    Inv(s) && Private(s, kernel0) && s.kernel <= kernel0
  }

  lemma ForkKeepsPrivate(s: Spaces, i: nat, taken: nat, kernel0: set<nat>)
    requires Sound(s, kernel0) && i < |s.maps| && taken <= |s.free|
    ensures Sound(Fork(s, i, taken), kernel0)
  {
    ForkKeepsInv(s, i, taken);
    var t, n := Fork(s, i, taken), |s.maps|;
    forall l | 0 <= l < PAGES
      ensures t.maps[i][l].Some? <==> s.maps[i][l].Some?
      ensures t.maps[i][l].Some? ==> FrameOf(t.maps[i][l].value) == FrameOf(s.maps[i][l].value)
      ensures CanWrite(t.maps[i], l) <==> CanWrite(s.maps[i], l) && !Shared(l)
    {
      ForkSharesPages(s, i, taken, l);
    }
    hide Downgraded, FrameOf, Shared, Writable, Inv;
    forall j: nat, l: nat, k: nat, m: nat | SameFrame(t, j, l, k, m)
      ensures Alone(t, j, l, k, m, kernel0) && Shared(l) == Shared(m)
    {
      assert SameFrame(s, if j == n then i else j, l, if k == n then i else k, m);
    }
  }

  lemma FaultKeepsPrivate(s: Spaces, i: nat, l: nat, kernel0: set<nat>)
    requires Sound(s, kernel0) && Faults(s, i, l) && l !in s.kernel
    ensures s.free[0] < PAGES && Sound(Fault(s, i, l), kernel0)
  {
    FaultKeepsInv(s, i, l);
    var f := s.free[0];
    assert f in s.free;
    FullAccessBits(f);
    hide FullAccess, FrameOf, Shared, Writable;
    var t := Fault(s, i, l);
    forall j: nat, x: nat, k: nat, m: nat | SameFrame(t, j, x, k, m)
      ensures Alone(t, j, x, k, m, kernel0) && Shared(x) == Shared(m)
    {
      assert (j, x) != (i, l) && (k, m) != (i, l) ==> SameFrame(s, j, x, k, m);
    }
  }

  lemma StepKeepsSound(w: World, d: Deed, v: World, kernel0: set<nat>)
    requires Sound(w.s, kernel0) && Does(w, d, v)
    ensures Sound(v.s, kernel0)
  {
    hide Sound, Fork, Fault;
    match d
    case Kernel(ForkBy(i, taken)) => ForkKeepsPrivate(w.s, i, taken, kernel0);
    case Kernel(WriteFault(i, l)) => FaultKeepsPrivate(w.s, i, l, kernel0);
    case Store(_, _, _, _) =>
  }

  // ----- What one page shows -----

  // A page is the task's own unless its address was the kernel's at the start and still leads to the frame there.
  ghost predicate Own(s: Spaces, t: nat, m: nat, kernel0: set<nat>) {
    Mapped(s, t, m) && Shared(m) && (m in kernel0 ==> FrameAt(s, t, m) != m)
  }

  lemma OwnNotKernel(s: Spaces, kernel0: set<nat>, t: nat, m: nat)
    requires Sound(s, kernel0) && Own(s, t, m, kernel0)
    ensures FrameAt(s, t, m) !in s.kernel
  {
  }

  lemma StoreOutsideKernel(w: World, i: nat, l: nat, n: nat, x: Word, v: World, kernel0: set<nat>)
    requires Sound(w.s, kernel0) && Does(w, Store(i, l, n, x), v)
    ensures FrameAt(w.s, i, l) !in w.s.kernel
  {
  }

  // How a deed changes what task t sees at page m: its own store there does, and its own fault there, which
  // loses the last word.
  function Changed(page: Frame, d: Deed, t: nat, m: nat): Frame {
    match d
    case Store(i, l, n, x) => if i == t && l == m && n < ROW then page[n := x] else page
    case Kernel(WriteFault(i, l)) => if i == t && l == m then CopyOf(page) else page
    case Kernel(ForkBy(_, _)) => page
  }

  // Another page's store that lands in the frame which task t sees at the frame's own address.
  ghost predicate Leaks(w: World, d: Deed, t: nat, m: nat)
    requires Mapped(w.s, t, m)
  {
    && d.Store? && Mapped(w.s, d.task, d.page) && (d.task != t || d.page != m) && d.word < ROW
    && FrameAt(w.s, d.task, d.page) == m == FrameAt(w.s, t, m)
    && Seen(w, t, m)[d.word] != d.value
  }

  /** What a task sees at a shared page that shows no kernel frame changes by the task's own deeds there alone, unless a
      store to the same frame through another page leaks: that happens exactly if the frame is the one at the
      page's own address, and the store changes the word. */
  lemma StepChangesIff(w: World, d: Deed, v: World, kernel0: set<nat>, t: nat, m: nat)
    requires Sound(w.s, kernel0) && Does(w, d, v)
    requires Mapped(w.s, t, m) && Shared(m) && FrameAt(w.s, t, m) !in w.s.kernel
    ensures Mapped(v.s, t, m) && FrameAt(v.s, t, m) !in v.s.kernel
    ensures Seen(v, t, m) == Changed(Seen(w, t, m), d, t, m) <==> !Leaks(w, d, t, m)
  {
    match d
    case Kernel(ForkBy(i, taken)) =>
      ForkSharesPages(w.s, i, taken, m);
      hide FrameOf, Shared, Sound;
    case Kernel(WriteFault(i, l)) =>
      FullAccessBits(w.s.free[0]);
      assert w.s.free[0] in w.s.kernel;
      hide FrameOf, FullAccess, Shared, Sound;
    case Store(i, l, n, x) =>
      hide FrameOf, Shared;
      assert FrameAt(w.s, i, l) == FrameAt(w.s, t, m) ==> SameFrame(w.s, i, l, t, m);
  }

  lemma StepKeepsOwn(w: World, d: Deed, v: World, kernel0: set<nat>, t: nat, m: nat)
    requires Sound(w.s, kernel0) && Does(w, d, v) && Own(w.s, t, m, kernel0)
    ensures Own(v.s, t, m, kernel0) && Seen(v, t, m) == Changed(Seen(w, t, m), d, t, m)
  {
    OwnNotKernel(w.s, kernel0, t, m);
    StepChangesIff(w, d, v, kernel0, t, m);
    match d
    case Kernel(ForkBy(i, taken)) => ForkSharesPages(w.s, i, taken, m);
    case Kernel(WriteFault(i, l)) =>
      FullAccessBits(w.s.free[0]);
      assert w.s.free[0] in w.s.kernel;
    case Store(i, l, _, _) =>
      assert FrameAt(w.s, i, l) == FrameAt(w.s, t, m) ==> SameFrame(w.s, i, l, t, m);
  }

  ghost predicate IsRun(ws: seq<World>, ds: seq<Deed>) {
    && |ws| == |ds| + 1
    && forall i :: 0 <= i < |ds| ==> Does(ws[i], ds[i], ws[i + 1])
  }

  function ChangedBy(page: Frame, ds: seq<Deed>, t: nat, m: nat): Frame {
    if ds == [] then page else Changed(ChangedBy(page, ds[..|ds| - 1], t, m), ds[|ds| - 1], t, m)
  }

  /** Whatever the tasks fork, fault and store, in any order and number, what a task sees at a page of its own is
      changed by its own stores to that page, each in the word it names, and by its own faults there, and by
      nothing anybody else does; and the page stays its own. */
  lemma {:induction false} PagesAreIsolated(ws: seq<World>, ds: seq<Deed>, t: nat, m: nat, kernel0: set<nat>)
    requires IsRun(ws, ds) && Sound(ws[0].s, kernel0) && Own(ws[0].s, t, m, kernel0)
    ensures Sound(ws[|ds|].s, kernel0) && Own(ws[|ds|].s, t, m, kernel0)
    ensures Seen(ws[|ds|], t, m) == ChangedBy(Seen(ws[0], t, m), ds, t, m)
    decreases |ds|
  {
    hide Sound, Does, Changed, Shared;
    if ds != [] {
      var n := |ds| - 1;
      PagesAreIsolated(ws[..n + 1], ds[..n], t, m, kernel0);
      StepKeepsSound(ws[n], ds[n], ws[n + 1], kernel0);
      StepKeepsOwn(ws[n], ds[n], ws[n + 1], kernel0, t, m);
    }
  }

  /** The other pages are not isolated: a fault hands out a frame that every task still finds at the frame's own
      address, so every task sees there what the faulting task got. */
  lemma FaultExposes(w: World, i: nat, l: nat, v: World, kernel0: set<nat>, t: nat)
    requires Sound(w.s, kernel0) && Does(w, Kernel(WriteFault(i, l)), v) && t < |w.s.maps|
    ensures var f := w.s.free[0];
            && Mapped(v.s, t, f) && FrameAt(v.s, t, f) == f && !Own(v.s, t, f, kernel0)
            && Seen(v, t, f) == Seen(v, i, l) == CopyOf(Seen(w, i, l))
  {
    var f := w.s.free[0];
    assert f in w.s.free && Identity(w.s.maps[t], w.s.kernel);
    FullAccessBits(f);
    hide FrameOf, FullAccess, Shared, CopyOf;
  }

  /** And a store that changes a word at a shared page is seen at another page exactly if that one's address is the
      frame's own and still leads there. */
  lemma StoreSeenIff(w: World, i: nat, l: nat, n: nat, x: Word, v: World, kernel0: set<nat>, t: nat, m: nat)
    requires Sound(w.s, kernel0) && Does(w, Store(i, l, n, x), v) && Shared(l) && Seen(w, i, l)[n] != x
    requires Mapped(w.s, t, m) && (t != i || m != l)
    ensures Seen(v, t, m) != Seen(w, t, m) <==> m == FrameAt(w.s, i, l) == FrameAt(w.s, t, m)
  {
    hide FrameOf, Shared, Inv;
    assert FrameAt(w.s, i, l) == FrameAt(w.s, t, m) ==> SameFrame(w.s, i, l, t, m);
  }

  /** A forked child starts out seeing what its parent sees. */
  lemma ChildSeesParent(w: World, i: nat, taken: nat, v: World, kernel0: set<nat>, m: nat)
    requires Sound(w.s, kernel0) && Does(w, Kernel(ForkBy(i, taken)), v)
    requires Mapped(w.s, i, m) && FrameAt(w.s, i, m) !in w.s.kernel
    ensures Mapped(v.s, |w.s.maps|, m) && Seen(v, |w.s.maps|, m) == Seen(w, i, m)
  {
    ForkSharesPages(w.s, i, taken, m);
    hide FrameOf, Shared, Sound;
  }
}
