/** Bringing up multi_task: init_memory (memory.c), the first task's address space (task.c), start_main. */
module Boot {
  import opened Machine
  import opened PageEntries
  import opened AddressSpaces
  import opened PageTables
  import Isolation
  import opened Tasks
  import opened Paging

  // The identity mapping of the first four megabytes, all of it writable.
  function FirstSpace(): Space {
    seq(PAGES, l requires 0 <= l < PAGES => if l < ROW then Some(FullAccess(l)) else None)
  }

  // Kernel pages inside the part of the mapping that forks share copy-on-write.
  lemma FirstSpaceInv(kernel: set<nat>, free: seq<nat>)
    requires forall f :: f in kernel ==> FIRST_SHARED <= f < ROW
    requires Distinct(free) && forall f :: f in free ==> f in kernel
    ensures Inv(Spaces([FirstSpace()], kernel, free)) && Isolation.Sound(Spaces([FirstSpace()], kernel, free), kernel)
  {
    var s := Spaces([FirstSpace()], kernel, free);
    var m := FirstSpace();
    forall l | 0 <= l < ROW ensures m[l].Some? && MapsTo(m, l, l) && CanWrite(m, l) && Shared(l) == (l >= FIRST_SHARED) {
      FullAccessBits(l);
    }
    hide FullAccess, FrameOf, Writable, Shared;
    assert forall l :: 0 <= l < PAGES ==> s.maps[0][l] == m[l];
    assert forall l: nat :: Isolation.Mapped(s, 0, l) ==> Isolation.FrameAt(s, 0, l) == l;
  }

  // The frames free so far, and nothing else, hold anything.
  ghost predicate Fresh(k: Paging, lo: nat, hi: nat)
    reads k`ram, k`free, k`role, k`dirs, k`tasks
  {
    && k.dirs == [] && k.tasks == [] && lo <= hi <= PAGES
    && (forall f :: f in k.role <==> lo <= f < hi) && (forall f :: f in k.role ==> k.role[f] == Free)
    && |k.free| == hi - lo
    && forall f :: 0 <= f < PAGES && !(lo <= f < hi) ==> k.ram[f] == ZeroFrame(f)
  }

  // free_page; a good page is one the list has not held yet.
  method FreePage(k: Paging, page: nat, ghost lo: nat) returns (code: int)
    requires k.Frames() && page < U32 && 0 < lo
    requires page != 0 && page % PAGE_SIZE == 0 ==> Fresh(k, lo, page / PAGE_SIZE)
    modifies k`ram, k`plFree, k`free, k`role
    ensures k.Frames() && code == if page != 0 && page % PAGE_SIZE == 0 then 0 else -1
    ensures code == 0 ==> Fresh(k, lo, page / PAGE_SIZE + 1)
    ensures code != 0 ==> k.ram == old(k.ram) && k.plFree == old(k.plFree) && k.free == old(k.free) && k.role == old(k.role)
  {
    if page == 0 {
      return -1;
    }
    if page % PAGE_SIZE != 0 {
      return -1;
    }
    var f := page / PAGE_SIZE;
    Aligned(f);
    ChainPushed(k.ram, k.plFree, k.free, f);
    hide FreeChain;
    k.ram := k.ram[f := k.ram[f][0 := k.plFree]];
    k.plFree := page;
    k.role := k.role[f := Free];
    k.free := [f] + k.free;
    code := 0;
  }

  // The first frame at or above an address that can be handed out: frame 0 would be NULL.
  function FirstFrom(address: nat): (f: nat)
    ensures f > 0
  {
    if address < PAGE_SIZE then 1 else address / PAGE_SIZE
  }

  ghost predicate WrongRange(start: nat, end: nat) {
    start > end || start % PAGE_SIZE != 0 || end % PAGE_SIZE != 0
  }

  // init_memory on an empty list.  Up to this end the loop's 32-bit guard can turn false.
  method InitMemory(k: Paging, start: nat, end: nat)
    requires k.Frames() && k.free == [] && k.role == map[] && k.dirs == [] && k.tasks == []
    requires forall f :: 0 <= f < PAGES ==> k.ram[f] == ZeroFrame(f)
    requires start < U32 && end < U32 && (!WrongRange(start, end) ==> end <= 0xFFFF_E000)
    modifies k`ram, k`plFree, k`free, k`role
    ensures k.Frames()
    ensures WrongRange(start, end) ==>
              k.ram == old(k.ram) && k.plFree == old(k.plFree) && k.free == old(k.free) && k.role == old(k.role)
    ensures !WrongRange(start, end) ==> Fresh(k, FirstFrom(start), FirstFrom(end))
  {
    if start > end || start % PAGE_SIZE != 0 || end % PAGE_SIZE != 0 {
      return;
    }
    var next := start;
    k.plFree := 0;
    while (next + PAGE_SIZE) % U32 <= end
      invariant next % PAGE_SIZE == 0 && start <= next <= end
      invariant k.Frames() && Fresh(k, FirstFrom(start), FirstFrom(next))
      decreases end - next
    {
      hide Paging.Frames, Fresh, FirstFrom;
      AlignedFrom(start, next);
      NextPage(next, end);
      var _ := FreePage(k, next, FirstFrom(start));
      next := next + PAGE_SIZE;
    }
    LastPage(next, end);
  }

  lemma AlignedFrom(start: nat, next: nat)
    requires start % PAGE_SIZE == 0 && next % PAGE_SIZE == 0 && start <= next
    ensures next != 0 ==> FirstFrom(next) == next / PAGE_SIZE && FirstFrom(next + PAGE_SIZE) == next / PAGE_SIZE + 1
    ensures next == 0 ==> FirstFrom(next) == FirstFrom(next + PAGE_SIZE)
  {
  }

  lemma NextPage(next: nat, end: nat)
    requires next % PAGE_SIZE == 0 && next + PAGE_SIZE <= end
    ensures (next + PAGE_SIZE) % PAGE_SIZE == 0 && (next + PAGE_SIZE) / PAGE_SIZE == next / PAGE_SIZE + 1
  {
  }

  lemma LastPage(next: nat, end: nat)
    requires next % PAGE_SIZE == 0 && end % PAGE_SIZE == 0 && next <= end < next + PAGE_SIZE
    ensures next == end
  {
  }

  function FirstTable(): Frame {
    seq(ROW, i requires 0 <= i < ROW => FullAccess(i))
  }

  // setup_first_task: kernel stack, user stack, directory and one table that maps four megabytes.
  method SetupFirstTask(k: Paging, task1: Task, taskAddress: nat, ghost lo: nat, ghost hi: nat)
    requires k.Frames() && Fresh(k, lo, hi) && FIRST_SHARED <= lo && lo + 4 <= hi <= ROW
    requires taskAddress < U32 && task1.children == [] && task1.childHead == task1.childTail == null
    modifies k`ram, k`plFree, k`free, k`role, k`tasks, k`dirs, task1`pid, task1`cr3
    ensures k.Valid() && k.tasks == [task1] && task1.pid == 0
    ensures k.View().maps == [FirstSpace()] && Inv(k.View()) && |k.View().free| == hi - lo - 4
    ensures Isolation.Sound(k.View(), k.View().kernel)
  {
    hide Owned, FreeChain;
    task1.pid := 0;
    TakeStacks(k, taskAddress, lo, hi);
    var pdt, pte := TakeTables(k);
    ghost var d, t, ram0 := pdt / PAGE_SIZE, pte / PAGE_SIZE, k.ram;
    FillTables(k, pdt / PAGE_SIZE, pte / PAGE_SIZE);
    FirstTables(ram0, k.ram, k.role, k.plFree, k.free, d, t);
    FirstSpaceInv(k.role.Keys, k.free);
    Adopt(k, task1, pdt);
  }

  // The first task takes over the directory.
  method Adopt(k: Paging, task1: Task, pdt: nat)
    requires task1.children == [] && task1.childHead == task1.childTail == null
    requires var d := pdt / PAGE_SIZE;
             && pdt == d * PAGE_SIZE && d < PAGES
             && Owned(k.ram, [d], k.role) && k.FreeList() && SpaceOf(k.ram, d) == FirstSpace()
    modifies k`tasks, k`dirs, task1`cr3
    ensures k.Valid() && k.tasks == [task1] && k.View() == Spaces([FirstSpace()], k.role.Keys, k.free)
  {
    hide Owned, FreeChain;
    task1.cr3 := pdt;
    k.tasks, k.dirs := [task1], [pdt / PAGE_SIZE];
    assert Maps(k.ram, k.dirs) == [FirstSpace()];
  }

  // The kernel stack, starting with the task's address, and the user stack.
  method TakeStacks(k: Paging, taskAddress: nat, ghost lo: nat, ghost hi: nat)
    requires k.Frames() && Fresh(k, lo, hi) && lo + 4 <= hi && taskAddress < U32
    modifies k`ram, k`plFree, k`free, k`role
    ensures k.Frames() && (forall f :: f in k.role ==> lo <= f < hi) && |k.free| == hi - lo - 2
  {
    hide FreeChain, Owned, Blank, Distinct;
    var ksPage := k.AllocPage(Some(Stack(0)));
    var usPage := k.AllocPage(None);
    k.StoreInStack(ksPage, taskAddress, 0);
  }

  method TakeTables(k: Paging) returns (pdt: nat, pte: nat)
    requires k.Frames() && |k.free| >= 2
    modifies k`plFree, k`free, k`role
    ensures k.Frames() && k.role.Keys == old(k.role.Keys) && k.free == old(k.free)[2..]
    ensures var d, t := pdt / PAGE_SIZE, pte / PAGE_SIZE;
            && pdt == d * PAGE_SIZE && pte == t * PAGE_SIZE && d != t
            && HasRole(k.role, d, Directory(0)) && HasRole(k.role, t, Table(0, 0))
            && forall w :: 1 <= w < ROW ==> k.ram[d][w] == 0
  {
    hide FreeChain, Owned, Blank;
    pdt := k.AllocPage(Some(Directory(0)));
    pte := k.AllocPage(Some(Table(0, 0)));
  }

  method FillTables(k: Paging, pdt: nat, pte: nat)
    requires pdt < PAGES && pte < PAGES && pdt != pte
    modifies k`ram
    ensures k.ram == old(k.ram)[pdt := old(k.ram)[pdt][0 := FullAccess(pte)]][pte := FirstTable()]
  {
    k.ram := k.ram[pdt := k.ram[pdt][0 := FullAccess(pte)]];
    ghost var before := k.ram;
    assert Mixed(FirstTable(), before[pte], 0) == before[pte];
    for i := 0 to ROW
      invariant k.ram == before[pte := Mixed(FirstTable(), before[pte], i)]
    {
      MixStep(FirstTable(), before[pte], i);
      k.ram := k.ram[pte := k.ram[pte][i := FullAccess(i)]];
    }
    assert Mixed(FirstTable(), before[pte], ROW) == FirstTable();
  }

  lemma FirstTables(ram: Memory, after: Memory, role: map<nat, Role>, head: nat, free: seq<nat>, d: nat, t: nat)
    requires HasRole(role, d, Directory(0)) && HasRole(role, t, Table(0, 0)) && d != t
    requires Owned(ram, [], role) && FreeChain(ram, head, free) && forall f :: f in free ==> f in role && role[f] == Free
    requires forall w :: 1 <= w < ROW ==> ram[d][w] == 0
    requires after == ram[d := ram[d][0 := FullAccess(t)]][t := FirstTable()]
    ensures Owned(after, [d], role) && FreeChain(after, head, free) && SpaceOf(after, d) == FirstSpace()
  {
    FullAccessBits(t);
    ChainKept(ram, after, head, free);
    forall k | 0 <= k < ROW ensures TableOwned(after, role, d, 0, k) {
    }
    forall l | 0 <= l < PAGES ensures Lookup(after, d, l) == FirstSpace()[l] {
      RowBits(l);
      if l < ROW {
        FullAccessBits(l);
      }
    }
  }

  // start_main, as far as memory goes: pages from two to four megabytes, and the first task.
  method StartMain(taskAddress: nat) returns (k: Paging, task1: Task)
    requires taskAddress < U32
    ensures fresh(k) && fresh(task1) && k.Valid() && k.tasks == [task1] && k.nextpid == 1
    ensures k.View().maps == [FirstSpace()] && Inv(k.View()) && |k.View().free| == 508
    ensures forall l :: 0 <= l < PAGES ==> k.View().maps[0][l] == if l < 1024 then Some(0x1000 * l + 7) else None
    ensures Isolation.Sound(k.View(), k.View().kernel)
  {
    hide FirstSpace, Inv, Isolation.Sound, Owned, FreeChain;
    k := new Paging();
    task1 := new Task();
    InitMemory(k, 0x20_0000, 0x40_0000);
    SetupFirstTask(k, task1, taskAddress, 512, 1024);
  }
}
