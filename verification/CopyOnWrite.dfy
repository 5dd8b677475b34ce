/** Copy on write from end to end: a fork, and the child's first store to a page it shares with its parent. */
module CopyOnWrite {
  import opened Machine
  import opened PageEntries
  import opened AddressSpaces
  import opened PageTables
  import opened Isolation
  import opened Tasks
  import opened Paging

  // Every page of a task's own but page l of task i reads the same in both states.
  ghost predicate OthersKept(w: World, v: World, i: nat, l: nat, kernel0: set<nat>) {
    forall t: nat, m: nat :: Own(w.s, t, m, kernel0) && (t != i || m != l) ==> Keeps(w, v, t, m, kernel0)
  }

  ghost predicate Keeps(w: World, v: World, t: nat, m: nat, kernel0: set<nat>)
    requires Mapped(w.s, t, m)
  {
    Own(v.s, t, m, kernel0) && Seen(v, t, m) == Seen(w, t, m)
  }

  // After a fault the task may write its new frame, which the kernel has let go of.
  lemma ReadyToStore(w: World, i: nat, l: nat, mid: World, kernel0: set<nat>)
    requires Sound(w.s, kernel0) && Does(w, Kernel(WriteFault(i, l)), mid)
    ensures Sound(mid.s, kernel0)
    ensures Mapped(mid.s, i, l) && CanWrite(mid.s.maps[i], l) && FrameAt(mid.s, i, l) !in mid.s.kernel
    ensures Seen(mid, i, l) == CopyOf(Seen(w, i, l))
  {
    StepKeepsSound(w, Kernel(WriteFault(i, l)), mid, kernel0);
    FullAccessBits(w.s.free[0]);
    hide FrameOf, FullAccess, Writable, CopyOf, Sound;
  }

  lemma FaultThenStore(w: World, i: nat, l: nat, mid: World, n: nat, x: Word, v: World, kernel0: set<nat>)
    requires Sound(w.s, kernel0) && Does(w, Kernel(WriteFault(i, l)), mid) && Does(mid, Store(i, l, n, x), v)
    ensures Sound(v.s, kernel0) && OthersKept(w, v, i, l, kernel0)
    ensures Mapped(v.s, i, l) && n < ROW && Seen(v, i, l) == CopyOf(Seen(w, i, l))[n := x]
  {
    hide Sound, FrameOf, CopyOf, Fault, Shared;
    var fault, store := Kernel(WriteFault(i, l)), Store(i, l, n, x);
    ReadyToStore(w, i, l, mid, kernel0);
    StepKeepsSound(mid, store, v, kernel0);
    forall t: nat, m: nat | Own(w.s, t, m, kernel0) && (t != i || m != l) ensures Keeps(w, v, t, m, kernel0) {
      StepKeepsOwn(w, fault, mid, kernel0, t, m);
      StepKeepsOwn(mid, store, v, kernel0, t, m);
    }
  }

  // A task's instruction that stores to a read-only page: it faults, the kernel gives the task a copy of the
  // page, and the instruction is run again.
  method StoreAfterFault(k: Paging, cur: Task, address: nat, value: Word, ghost i: nat, ghost l: nat, ghost kernel0: set<nat>)
    requires k.Valid() && i < |k.tasks| && k.tasks[i] == cur && address < U32 && l == address / PAGE_SIZE
    requires Sound(k.View(), kernel0) && Enabled(k.View(), WriteFault(i, l))
    modifies k`ram, k`plFree, k`free, k`role
    ensures k.Valid() && Sound(k.View(), kernel0) && Mapped(k.View(), i, l)
    ensures var w, v := World(old(k.View()), old(k.ram)), World(k.View(), k.ram);
            && OthersKept(w, v, i, l, kernel0)
            && Seen(v, i, l) == CopyOf(Seen(w, i, l))[address % PAGE_SIZE / 4 := value]
  {
    hide Sound, CopyOf, FrameOf, Does, OthersKept, FreeChain, Owned, Family, Registers, Maps;
    ghost var w := World(k.View(), k.ram);
    k.OnPageFault(cur, address, i, l);
    ghost var mid := World(k.View(), k.ram);
    ReadyToStore(w, i, l, mid, kernel0);
    k.UserStore(cur, address, value, i, l);
    FaultThenStore(w, i, l, mid, address % PAGE_SIZE / 4, value, World(k.View(), k.ram), kernel0);
  }

  // After a fork the child may fault at a shared page that is its parent's own.
  lemma ForkedReady(w: World, i: nat, taken: nat, v: World, l: nat, kernel0: set<nat>)
    requires Sound(w.s, kernel0) && Does(w, Kernel(ForkBy(i, taken)), v) && taken < |w.s.free|
    requires Own(w.s, i, l, kernel0)
    ensures Sound(v.s, kernel0) && Own(v.s, i, l, kernel0) && Seen(v, i, l) == Seen(w, i, l)
    ensures var n := |w.s.maps|;
            Enabled(v.s, WriteFault(n, l)) && Mapped(v.s, n, l) && Seen(v, n, l) == Seen(w, i, l)
  {
    var fork := Kernel(ForkBy(i, taken));
    StepKeepsSound(w, fork, v, kernel0);
    StepKeepsOwn(w, fork, v, kernel0, i, l);
    OwnNotKernel(w.s, kernel0, i, l);
    ChildSeesParent(w, i, taken, v, kernel0, l);
    ForkSharesPages(w.s, i, taken, l);
    assert v.s.free[0] in v.s.free;
    assert Identity(w.s.maps[i], w.s.kernel);
    hide FrameOf, Shared, Writable;
  }

  /** A task forks, and the child stores to a page that is the parent's own: the child gets the parent's page but
      for the last word, with its own word in it, and the parent goes on seeing what it saw. */
  method ForkAndStore(k: Paging, cur: Task, irq: Context, address: nat, value: Word, ghost i: nat, ghost l: nat,
                      ghost kernel0: set<nat>)
    requires k.Valid() && i < |k.tasks| && k.tasks[i] == cur && address < U32 && l == address / PAGE_SIZE
    requires 4 + Count(k.ram[k.dirs[i]], ROW) <= |k.free|
    requires Sound(k.View(), kernel0) && Own(k.View(), i, l, kernel0)
    modifies k, k.tasks
    ensures k.Valid() && Sound(k.View(), kernel0)
    ensures var w, v, n := World(old(k.View()), old(k.ram)), World(k.View(), k.ram), |old(k.tasks)|;
            && Mapped(v.s, i, l) && Seen(v, i, l) == Seen(w, i, l)
            && Mapped(v.s, n, l) && Seen(v, n, l) == CopyOf(Seen(w, i, l))[address % PAGE_SIZE / 4 := value]
  {
    hide Sound, CopyOf, FrameOf, Does, FreeChain, Owned, Family, Maps, Count, Shared;
    assert |k.tasks| == |k.dirs|;
    hide Registers;
    ghost var w, n, taken: nat := World(k.View(), k.ram), |k.tasks|, 3 + Count(k.ram[k.dirs[i]], ROW);
    var pid, child := k.KnlFork(cur, irq, i);
    ForkedReady(w, i, taken, World(k.View(), k.ram), l, kernel0);
    ghost var mid := World(k.View(), k.ram);
    StoreAfterFault(k, child, address, value, n, l, kernel0);
    assert Keeps(mid, World(k.View(), k.ram), i, l, kernel0);
  }
}
