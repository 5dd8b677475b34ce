/**
 Copy-on-write address spaces as multi_task/knl_fork.c and page.c maintain them, seen from above: for every
 task and every linear page, the page-table entry that translates it.  The class in Paging.dfy performs
 exactly these steps on directories and tables in memory; here they are composed into runs.
 */
module AddressSpaces {
  import opened Machine
  import opened PageEntries

  // Entry of each linear page of one task.
  type Space = s: seq<Option<Word>> | |s| == PAGES witness seq(PAGES, _ => None)

  // kernel: the frames the kernel itself works in, that is free pages, page tables, task pages and kernel
  // stacks; free: the free list.
  datatype Spaces = Spaces(maps: seq<Space>, kernel: set<nat>, free: seq<nat>)

  function DowngradedEntry(l: nat, e: Option<Word>): Option<Word> {
    if e.Some? then Some(Downgrade(l, e.value)) else None
  }

  function Downgraded(m: Space): Space {
    seq(PAGES, l requires 0 <= l < PAGES => DowngradedEntry(l, m[l]))
  }

  // knl_fork by task i, which takes that many pages from the free list.
  function Fork(s: Spaces, i: nat, taken: nat): Spaces
    requires i < |s.maps| && taken <= |s.free|
  {
    var m := Downgraded(s.maps[i]);
    Spaces(s.maps[i := m] + [m], s.kernel, s.free[taken..])
  }

  // on_page_fault of task i at linear page l.
  function Fault(s: Spaces, i: nat, l: nat): Spaces
    requires i < |s.maps| && l < PAGES && s.free != [] && s.free[0] < PAGES
  {
    Spaces(s.maps[i := s.maps[i][l := Some(FullAccess(s.free[0]))]], s.kernel - {s.free[0]}, s.free[1..])
  }

  predicate MapsTo(m: Space, l: nat, f: nat)
    requires l < PAGES
  {
    m[l].Some? && FrameOf(m[l].value) == f
  }

  predicate CanWrite(m: Space, l: nat)
    requires l < PAGES
  {
    m[l].Some? && Writable(m[l].value)
  }

  // The kernel finds each of its frames at its own address, and no other address leads to one.
  ghost predicate Identity(m: Space, kernel: set<nat>) {
    && (forall f :: f in kernel ==> f < PAGES && MapsTo(m, f, f))
    && (forall l :: 0 <= l < PAGES && m[l].Some? && FrameOf(m[l].value) in kernel ==> FrameOf(m[l].value) == l)
  }

  ghost predicate KernelMapped(s: Spaces) {
    forall i :: 0 <= i < |s.maps| ==> Identity(s.maps[i], s.kernel)
  }

  ghost predicate FreePages(s: Spaces) {
    && Distinct(s.free)
    && (forall f :: f in s.free ==> f in s.kernel)
    && (forall f :: f in s.kernel ==> f < PAGES && Shared(f))
  }

  // No frame can be written through two different shared pages.
  ghost predicate WritersApart(s: Spaces) {
    forall i, l, j, m ::
      (0 <= i < |s.maps| && 0 <= j < |s.maps| && 0 <= l < PAGES && 0 <= m < PAGES && SameTarget(s, i, l, j, m)) ==>
      i == j && l == m
  }

  ghost predicate SameTarget(s: Spaces, i: nat, l: nat, j: nat, m: nat)
    requires i < |s.maps| && j < |s.maps| && l < PAGES && m < PAGES
  {
    Writes(s.maps[i], l) && Writes(s.maps[j], m) && FrameOf(s.maps[i][l].value) == FrameOf(s.maps[j][m].value)
  }

  ghost predicate Writes(m: Space, l: nat)
    requires l < PAGES
  {
    Shared(l) && CanWrite(m, l)
  }

  // Before the first fork everything mapped is writable; after it no task can write at a kernel address.
  ghost predicate Whole(s: Spaces) {
    |s.maps| == 1 && forall l :: 0 <= l < PAGES && s.maps[0][l].Some? ==> CanWrite(s.maps[0], l)
  }

  ghost predicate Sealed(s: Spaces) {
    forall i, f :: 0 <= i < |s.maps| && f in s.kernel && f < PAGES ==> !CanWrite(s.maps[i], f)
  }

  // A fork leaves the pages that are not shared writable.
  ghost predicate LowWritable(s: Spaces) {
    forall i, l :: 0 <= i < |s.maps| && 0 <= l < PAGES && !Shared(l) && s.maps[i][l].Some? ==> CanWrite(s.maps[i], l)
  }

  ghost predicate Inv(s: Spaces) {
    KernelMapped(s) && FreePages(s) && WritersApart(s) && LowWritable(s) && (Whole(s) || Sealed(s))
  }

  /** The child gets exactly the parent's present pages, each at the same frame; a page is writable in either
      afterwards only below entry 256 of its table. */
  lemma ForkSharesPages(s: Spaces, i: nat, taken: nat, l: nat)
    requires i < |s.maps| && taken <= |s.free| && l < PAGES
    ensures var t := Fork(s, i, taken);
            && |t.maps| == |s.maps| + 1 && t.maps[|s.maps|] == t.maps[i]
            && (t.maps[i][l].Some? <==> s.maps[i][l].Some?)
            && (t.maps[i][l].Some? ==> FrameOf(t.maps[i][l].value) == FrameOf(s.maps[i][l].value))
            && (CanWrite(t.maps[i], l) <==> CanWrite(s.maps[i], l) && !Shared(l))
            && ForkedEntry(l, s.maps[i][l], t.maps[i][l]) && ForkedEntry(l, s.maps[i][l], t.maps[|s.maps|][l])
            && forall j :: 0 <= j < |s.maps| && j != i ==> t.maps[j] == s.maps[j]
  {
    if s.maps[i][l].Some? {
      DowngradeKeepsFrame(l, s.maps[i][l].value);
    }
  }

  lemma ForkKeepsInv(s: Spaces, i: nat, taken: nat)
    requires Inv(s) && i < |s.maps| && taken <= |s.free|
    ensures Inv(Fork(s, i, taken)) && Sealed(Fork(s, i, taken))
  {
    var t := Fork(s, i, taken);
    forall l | 0 <= l < PAGES
      ensures t.maps[i][l].Some? <==> s.maps[i][l].Some?
      ensures t.maps[i][l].Some? ==> FrameOf(t.maps[i][l].value) == FrameOf(s.maps[i][l].value)
      ensures CanWrite(t.maps[i], l) <==> CanWrite(s.maps[i], l) && !Shared(l)
    {
      ForkSharesPages(s, i, taken, l);
    }
    hide Downgraded, FrameOf, Shared, Writable;
    forall j, m, k, n | 0 <= j < |t.maps| && 0 <= k < |t.maps| && 0 <= m < PAGES && 0 <= n < PAGES &&
                        SameTarget(t, j, m, k, n)
      ensures j == k && m == n
    {
      assert SameTarget(s, j, m, k, n);
    }
  }

  // A write fault the kernel can serve: the page is present and read-only, and a free page is left.
  ghost predicate Faults(s: Spaces, i: nat, l: nat) {
    && i < |s.maps| && l < PAGES && s.maps[i][l].Some? && !CanWrite(s.maps[i], l)
    && s.free != []
  }

  /** A fault gives that one page of that one task the first free frame, present, writable and the user's; every other
      entry of every task stays. */
  lemma FaultChangesOneEntry(s: Spaces, i: nat, l: nat)
    requires i < |s.maps| && l < PAGES && s.free != [] && s.free[0] < PAGES
    ensures var t := Fault(s, i, l);
            && |t.maps| == |s.maps| && t.maps[i][l] == Some(0x1000 * s.free[0] + 7)
            && (forall j, m :: 0 <= j < |s.maps| && 0 <= m < PAGES && (j != i || m != l) ==> t.maps[j][m] == s.maps[j][m])
            && t.kernel == s.kernel - {s.free[0]} && t.free == s.free[1..]
  {
  }

  lemma FaultKeepsInv(s: Spaces, i: nat, l: nat)
    requires Inv(s) && Faults(s, i, l) && l !in s.kernel
    ensures s.free[0] < PAGES && Inv(Fault(s, i, l))
  {
    var f := s.free[0];
    assert f in s.free;
    var t := Fault(s, i, l);
    FullAccessBits(f);
    FaultKeepsApart(s, i, l);
    assert forall x :: x in t.free ==> x in s.free && x != f;
    hide FullAccess, FrameOf, Shared, Writable, WritersApart;
  }

  lemma FaultKeepsApart(s: Spaces, i: nat, l: nat)
    requires Inv(s) && Faults(s, i, l) && s.free[0] < PAGES
    ensures WritersApart(Fault(s, i, l))
  {
    var f := s.free[0];
    var t := Fault(s, i, l);
    FullAccessBits(f);
    assert f in s.free;
    hide FullAccess, FrameOf, Shared, Writable;
    forall j, m, k, n | 0 <= j < |t.maps| && 0 <= k < |t.maps| && 0 <= m < PAGES && 0 <= n < PAGES &&
                        SameTarget(t, j, m, k, n)
      ensures j == k && m == n
    {
      assert (j, m) != (i, l) && (k, n) != (i, l) ==> SameTarget(s, j, m, k, n);
    }
  }

  /** A fault leaves every remaining kernel frame at its own address in every task exactly when the faulting
      page is not the address of one of them. */
  lemma FaultKeepsIdentityIff(s: Spaces, i: nat, l: nat)
    requires Inv(s) && Faults(s, i, l)
    ensures s.free[0] < PAGES
    ensures KernelMapped(Fault(s, i, l)) <==> l !in s.kernel || l == s.free[0]
  {
    var f := s.free[0];
    assert f in s.free;
    var t := Fault(s, i, l);
    FullAccessBits(f);
    hide FullAccess, FrameOf, Shared, Writable;
    if l in t.kernel {
      assert !MapsTo(t.maps[i], l, l);
      assert !Identity(t.maps[i], t.kernel);
    }
  }

  // ----- Runs -----

  datatype Event = ForkBy(task: nat, taken: nat) | WriteFault(task: nat, page: nat)

  ghost predicate Enabled(s: Spaces, e: Event) {
    match e
    case ForkBy(i, taken) => i < |s.maps| && taken <= |s.free|
    case WriteFault(i, l) => Faults(s, i, l) && l !in s.kernel && s.free[0] < PAGES
  }

  ghost function Step(s: Spaces, e: Event): Spaces
    requires Enabled(s, e)
  {
    match e
    case ForkBy(i, taken) => Fork(s, i, taken)
    case WriteFault(i, l) => Fault(s, i, l)
  }

  ghost function Run(s: Spaces, es: seq<Event>): Option<Spaces>
    decreases |es|
  {
    if es == [] then Some(s) else if Enabled(s, es[0]) then Run(Step(s, es[0]), es[1..]) else None
  }

  /** Whatever forks and write faults happen, in any order and number, no frame is ever writable at two shared
      pages, of one task or of two; and the kernel goes on finding its own frames at their own addresses. */
  lemma {:induction false} RunKeepsInv(s: Spaces, es: seq<Event>)
    requires Inv(s) && Run(s, es).Some?
    ensures Inv(Run(s, es).value)
    decreases |es|
  {
    if es != [] {
      match es[0] {
        case ForkBy(i, taken) => ForkKeepsInv(s, i, taken);
        case WriteFault(i, l) => FaultKeepsInv(s, i, l);
      }
      hide Inv, Fork, Fault;
      RunKeepsInv(Step(s, es[0]), es[1..]);
    }
  }

  /** A task's page goes on showing the same frame, whatever the other tasks do, until the task itself faults
      on it. */
  lemma {:induction false} RunKeepsTranslation(s: Spaces, es: seq<Event>, i: nat, l: nat)
    requires Run(s, es).Some? && WriteFault(i, l) !in es && i < |s.maps| && l < PAGES
    ensures var t := Run(s, es).value;
            && i < |t.maps| && (t.maps[i][l].Some? <==> s.maps[i][l].Some?)
            && (s.maps[i][l].Some? ==> FrameOf(t.maps[i][l].value) == FrameOf(s.maps[i][l].value))
    decreases |es|
  {
    if es != [] {
      match es[0] {
        case ForkBy(j, taken) => ForkSharesPages(s, j, taken, l);
        case WriteFault(j, m) =>
      }
      hide FrameOf;
      RunKeepsTranslation(Step(s, es[0]), es[1..], i, l);
    }
  }
}
