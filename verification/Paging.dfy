/** knl_fork, on_page_fault and the page list they draw on (multi_task/knl_fork.c, page.c, memory.c, task.c). */
module Paging {
  import opened Machine
  import opened PageEntries
  import opened AddressSpaces
  import opened PageTables
  import opened Isolation
  import opened Tasks

  // Present entries among the first n of a directory.
  function Count(row: Frame, n: nat): nat
    requires n <= ROW
  {
    if n == 0 then 0 else Count(row, n - 1) + if Present(row[n - 1]) then 1 else 0
  }

  // Task n's space after the first k directory entries of task i have been copied.
  ghost predicate CopiedUpTo(before: Memory, after: Memory, dirs: seq<nat>, i: nat, n: nat, k: nat)
    requires Directories(dirs) && i < |dirs| && n < |dirs|
  {
    forall l :: 0 <= l < PAGES ==> EntryCopied(before, after, dirs, i, n, k, l)
  }

  ghost predicate EntryCopied(before: Memory, after: Memory, dirs: seq<nat>, i: nat, n: nat, k: nat, l: nat)
    requires Directories(dirs) && i < |dirs| && n < |dirs| && l < PAGES
  {
    var e := Lookup(before, dirs[i], l);
    && Lookup(after, dirs[i], l) == (if l / ROW < k then DowngradedEntry(l, e) else e)
    && Lookup(after, dirs[n], l) == (if l / ROW < k then DowngradedEntry(l, e) else None)
    && forall j :: 0 <= j < |dirs| && j != i && j != n ==> Lookup(after, dirs[j], l) == Lookup(before, dirs[j], l)
  }

  // What a fork of task i makes of its entry for page l, its own and the child's, and of everybody else's.
  ghost predicate EntryShared(before: Memory, after: Memory, dirs: seq<nat>, i: nat, n: nat, l: nat)
    requires Directories(dirs) && i < |dirs| && n < |dirs| && l < PAGES
  {
    && ForkedEntry(l, Lookup(before, dirs[i], l), Lookup(after, dirs[i], l))
    && ForkedEntry(l, Lookup(before, dirs[i], l), Lookup(after, dirs[n], l))
    && forall j :: 0 <= j < |dirs| && j != i && j != n ==> Lookup(after, dirs[j], l) == Lookup(before, dirs[j], l)
  }

  lemma AllShared(before: Memory, after: Memory, dirs: seq<nat>, i: nat, n: nat)
    requires Directories(dirs) && i < |dirs| && n < |dirs| && CopiedUpTo(before, after, dirs, i, n, ROW)
    ensures forall l :: 0 <= l < PAGES ==> EntryShared(before, after, dirs, i, n, l)
  {
    hide Lookup, ForkedEntry;
    forall l | 0 <= l < PAGES ensures EntryShared(before, after, dirs, i, n, l) {
      assert EntryCopied(before, after, dirs, i, n, ROW, l);
      RowBits(l);
      EntryForked(l, Lookup(before, dirs[i], l));
    }
  }

  lemma EntryForked(l: nat, e: Option<Word>)
    ensures ForkedEntry(l, e, DowngradedEntry(l, e))
  {
    if e.Some? { DowngradeKeepsFrame(l, e.value); }
  }

  // Memory with two rows replaced.
  function Two(ram: Memory, x: nat, y: nat, a: Frame, b: Frame): Memory
    requires x < PAGES && y < PAGES
  {
    ram[x := a][y := b]
  }

  lemma TwoRows(ram: Memory, x: nat, y: nat, a: Frame, b: Frame, n: nat, w: Word)
    requires x < PAGES && y < PAGES && x != y && n < ROW
    ensures var m := Two(ram, x, y, a, b);
            && m[x] == a && m[y] == b
            && m[x := a[n := w]][x] == a[n := w] && m[x := a[n := w]][y] == b
            && m[x := a[n := w]][y := b[n := w]] == Two(ram, x, y, a[n := w], b[n := w])
            && m[y := b[n := w]] == Two(ram, x, y, a, b[n := w])
  {
  }

  // The first n entries of one row and the rest of another.
  function Mixed(a: Frame, b: Frame, n: nat): Frame
    requires n <= ROW
  {
    a[..n] + b[n..]
  }

  lemma MixStep(a: Frame, b: Frame, n: nat)
    requires n < ROW
    ensures Mixed(a, b, n)[n] == b[n]
    ensures Mixed(a, b, n + 1) == Mixed(a, b, n)[n := a[n]]
    ensures a[n] == b[n] ==> Mixed(a, b, n + 1) == Mixed(a, b, n)
  {
  }

  lemma Ends(ram: Memory, x: nat, y: nat, a: Frame, b: Frame)
    requires x < PAGES && y < PAGES && x != y
    ensures ram == Two(ram, x, y, Mixed(a, ram[x], 0), Mixed(b, ram[y], 0))
    ensures Two(ram, x, y, Mixed(a, ram[x], ROW), Mixed(b, ram[y], ROW)) == ram[x := a][y := b]
  {
    assert Mixed(a, ram[x], 0) == ram[x] && Mixed(b, ram[y], 0) == ram[y];
    assert Mixed(a, ram[x], ROW) == a && Mixed(b, ram[y], ROW) == b;
  }

  ghost function Maps(ram: Memory, dirs: seq<nat>): (m: seq<Space>)
    requires Directories(dirs)
    ensures |m| == |dirs| && forall j :: 0 <= j < |dirs| ==> m[j] == SpaceOf(ram, dirs[j])
  {
    seq(|dirs|, j requires 0 <= j < |dirs| => SpaceOf(ram, dirs[j]))
  }

  // Each task's CR3 holds the address of its directory.
  ghost predicate Registers(tasks: seq<Task>, dirs: seq<nat>)
    reads tasks`cr3
  {
    Distinct(tasks) && |tasks| == |dirs| && forall j :: 0 <= j < |dirs| ==> tasks[j].cr3 == dirs[j] * PAGE_SIZE
  }

  // The list holds exactly the free frames, each once.
  ghost predicate Listed(free: seq<nat>, role: map<nat, Role>) {
    Distinct(free) && forall f :: f in free <==> f in role && role[f] == Free
  }

  class Paging {
    var ram: Memory
    var plFree: Word                  // free_memory.pl_free
    var nextpid: int
    ghost var free: seq<nat>          // the frames of the list plFree heads
    ghost var role: map<nat, Role>
    ghost var tasks: seq<Task>        // in the order they were forked
    ghost var dirs: seq<nat>          // their directories

    ghost function View(): Spaces
      requires Directories(dirs)
      reads this`ram, this`free, this`role, this`dirs
    {
      Spaces(Maps(ram, dirs), role.Keys, free)
    }

    // Memory that is zero, before anything has been set up.
    constructor ()
      ensures Valid() && tasks == [] && dirs == [] && free == [] && role == map[] && nextpid == 1
      ensures forall f :: 0 <= f < PAGES ==> ram[f] == ZeroFrame(f)
    {
      ram, plFree, nextpid := ZeroMemory(), 0, 1;
      free, role, tasks, dirs := [], map[], [], [];
    }

    ghost predicate FreeList()
      reads this`ram, this`plFree, this`free, this`role
    {
      FreeChain(ram, plFree, free) && Listed(free, role)
    }

    ghost predicate Frames()
      reads this`ram, this`plFree, this`free, this`role, this`dirs
    {
      Directories(dirs) && Owned(ram, dirs, role) && FreeList()
    }

    // alloc_page; the caller says what the page will be for, nothing if a user gets it.
    method AllocPage(ghost use: Option<Role>) returns (page: nat)
      requires Frames() && use != Some(Free)
      modifies this`plFree, this`free, this`role
      ensures Frames()
      ensures old(free) == [] ==> page == 0 && free == [] && role == old(role)
      ensures old(free) != [] ==>
                && page == old(free)[0] * PAGE_SIZE && free == old(free)[1..]
                && HasRole(old(role), old(free)[0], Free) && FreeFrame(ram, old(free), 0) && Blank(ram[old(free)[0]])
                && role == if use.Some? then old(role)[old(free)[0] := use.value] else old(role) - {old(free)[0]}
    {
      page := plFree;
      if free != [] {
        ChainPopped(ram, plFree, free);
        Aligned(free[0]);
      }
      if page != 0 {
        plFree := ram[page / PAGE_SIZE][0];
        TakenKeepsOwned(ram, dirs, role, free, use);
        role := if use.Some? then role[free[0] := use.value] else role - {free[0]};
        free := free[1..];
      }
    }

    // The inner loop of setup_page_tables.
    method CopyTable(curPte: nat, newPte: nat)
      requires curPte < PAGES && newPte < PAGES && curPte != newPte
      modifies this`ram
      ensures ram == old(ram)[curPte := DowngradedRow(old(ram)[curPte])]
                             [newPte := CopiedRow(old(ram)[curPte], old(ram)[newPte])]
    {
      ghost var before, row, blank := ram, ram[curPte], ram[newPte];
      Ends(before, curPte, newPte, DowngradedRow(row), CopiedRow(row, blank));
      hide Present, ClearWrite, Two, Mixed;
      for npte := 0 to ROW
        invariant ram == Two(before, curPte, newPte, Mixed(DowngradedRow(row), row, npte),
                             Mixed(CopiedRow(row, blank), blank, npte))
      {
        hide Present, ClearWrite, Two, Mixed;
        TwoRows(before, curPte, newPte, Mixed(DowngradedRow(row), row, npte),
                Mixed(CopiedRow(row, blank), blank, npte), npte, Downgrade(npte, row[npte]));
        MixStep(DowngradedRow(row), row, npte);
        MixStep(CopiedRow(row, blank), blank, npte);
        if Present(ram[curPte][npte]) {
          if npte > 255 {
            ram := ram[curPte := ram[curPte][npte := ClearWrite(ram[curPte][npte])]];
          }
          ram := ram[newPte := ram[newPte][npte := ram[curPte][npte]]];
        }
      }
    }

    // One turn of setup_page_tables' outer loop.
    method CopyEntry(curPdt: nat, newPdt: nat, npde: nat, ghost i: nat, ghost n: nat)
      requires Frames() && i < |dirs| && n < |dirs| && i != n && curPdt == dirs[i] && newPdt == dirs[n] && npde < ROW
      requires !Present(ram[newPdt][npde]) && (Present(ram[curPdt][npde]) ==> free != [])
      modifies this`ram, this`plFree, this`free, this`role
      ensures Frames() && role.Keys == old(role.Keys) && UserFramesKept(old(ram), ram, role.Keys)
      ensures if Present(old(ram)[curPdt][npde]) then
                && HasRole(old(role), old(free)[0], Free) && Blank(old(ram)[old(free)[0]])
                && ram == TableCopied(old(ram), curPdt, newPdt, npde, old(free)[0]) && free == old(free)[1..]
              else ram == old(ram) && free == old(free) && role == old(role)
    {
      if Present(ram[curPdt][npde]) {
        hide Present, FrameOf, Lookup;
        ghost var free0, role0, ram0 := free, role, ram;
        var page := AllocPage(Some(Table(n, npde)));
        var curPte := FrameOf(ram[curPdt][npde]);
        var newPte := page / PAGE_SIZE;
        Aligned(free0[0]);
        CopyApart(ram, dirs, role0, i, n, npde, newPte);
        ram := ram[newPdt := ram[newPdt][npde := FullAccess(newPte)]];
        CopyTable(curPte, newPte);
        CopyKeepsFrames(ram0, plFree, free, free0, dirs, role0, i, n, npde);
      }
    }

    // setup_page_tables
    method SetupPageTables(curCr3: nat, newCr3: nat, ghost i: nat, ghost n: nat)
      requires Frames() && i < |dirs| && n < |dirs| && i != n
      requires curCr3 == dirs[i] * PAGE_SIZE && newCr3 == dirs[n] * PAGE_SIZE
      requires Blank(ram[dirs[n]]) && Count(ram[dirs[i]], ROW) <= |free|
      modifies this`ram, this`plFree, this`free, this`role
      ensures Frames() && role.Keys == old(role.Keys) && UserFramesKept(old(ram), ram, role.Keys)
      ensures CopiedUpTo(old(ram), ram, dirs, i, n, ROW)
      ensures forall l :: 0 <= l < PAGES ==> EntryShared(old(ram), ram, dirs, i, n, l)
      ensures free == old(free)[Count(old(ram)[dirs[i]], ROW)..]
    {
      hide Owned, FreeChain, CopiedUpTo, Present, EntryShared;
      Aligned(dirs[i]);
      Aligned(dirs[n]);
      var curPdt, newPdt := curCr3 / PAGE_SIZE, newCr3 / PAGE_SIZE;
      ghost var before, row, free0 := ram, ram[curPdt], free;
      NothingCopied(ram, dirs, i, n);
      for npde := 0 to ROW
        invariant Frames() && role.Keys == old(role.Keys) && CopiedUpTo(before, ram, dirs, i, n, npde)
        invariant UserFramesKept(before, ram, role.Keys)
        invariant ram[curPdt] == row && forall m :: npde <= m < ROW ==> !Present(ram[newPdt][m])
        invariant Count(row, npde) <= |free0| && free == free0[Count(row, npde)..]
      {
        hide Owned, FreeChain, CopiedUpTo, Present, TableCopied, Lookup;
        CountGrows(row, npde + 1);
        ghost var mid, role0, freed := ram, role, free;
        CopyEntry(curPdt, newPdt, npde, i, n);
        if Present(row[npde]) {
          CopyOneMore(before, mid, dirs, role0, i, n, npde, freed[0]);
        } else {
          SkipOne(before, mid, dirs, role0, i, n, npde);
        }
      }
      AllShared(before, ram, dirs, i, n);
    }

    // setup_new_tss: a kernel stack that starts with the task's address, a directory, and the caller's registers
    // but for EAX, in which the child finds its return value.
    method SetupNewTss(newTask: Task, irq: Context, page: nat, ghost n: nat)
      requires Frames() && n == |dirs| && |free| >= 2 && page < U32
      modifies this`ram, this`plFree, this`free, this`role, newTask`cr3, newTask`esp0, newTask`context
      ensures Frames() && role.Keys == old(role.Keys) && free == old(free)[2..]
      ensures Maps(ram, dirs) == Maps(old(ram), dirs) && UserFramesKept(old(ram), ram, role.Keys)
      ensures forall j :: 0 <= j < |dirs| ==> ram[dirs[j]] == old(ram)[dirs[j]]
      ensures newTask.cr3 == old(free)[1] * PAGE_SIZE && HasRole(role, old(free)[1], Directory(n)) && Blank(ram[old(free)[1]])
      ensures newTask.esp0 == (old(free)[0] + 1) * 0x1000 % U32 && newTask.context == irq.(eax := 0)
    {
      hide Owned, FreeChain, Listed, Blank, Maps;
      var knlStack := AllocPage(Some(Stack(n)));
      StoreInStack(knlStack, page, n);
      newTask.esp0 := (knlStack + PAGE_SIZE) % U32;
      newTask.cr3 := AllocPage(Some(Directory(n)));
      newTask.context := Context(irq.eip, irq.eflags, 0, irq.ecx, irq.edx, irq.ebx, irq.esp, irq.ebp, irq.esi, irq.edi);
    }

    method StoreInStack(knlStack: nat, page: nat, ghost n: nat)
      requires Frames() && knlStack % PAGE_SIZE == 0 && HasRole(role, knlStack / PAGE_SIZE, Stack(n)) && page < U32
      modifies this`ram
      ensures Frames() && Maps(ram, dirs) == Maps(old(ram), dirs) && UserFramesKept(old(ram), ram, role.Keys)
      ensures forall j :: 0 <= j < |dirs| ==> ram[dirs[j]] == old(ram)[dirs[j]]
    {
      ghost var before := ram;
      ram := ram[knlStack / PAGE_SIZE := ram[knlStack / PAGE_SIZE][0 := page]];
      ForeignWrite(before, ram, dirs, role, plFree, free);
    }

    ghost predicate Valid()
      reads this, this.tasks
    {
      && Frames() && Registers(tasks, dirs)
      && Family(set t | t in tasks)
    }

    // setup_page_tables for a task that had no address space before.
    method Share(curCr3: nat, newCr3: nat, ghost i: nat, ghost d: nat)
      requires Frames() && i < |dirs| && curCr3 == dirs[i] * PAGE_SIZE && newCr3 == d * PAGE_SIZE
      requires HasRole(role, d, Directory(|dirs|)) && Blank(ram[d]) && Count(ram[dirs[i]], ROW) <= |free|
      modifies this`ram, this`plFree, this`free, this`role, this`dirs
      ensures Frames() && dirs == old(dirs) + [d] && role.Keys == old(role.Keys) && UserFramesKept(old(ram), ram, role.Keys)
      ensures free == old(free)[Count(old(ram)[dirs[i]], ROW)..]
      ensures var maps := Maps(old(ram), old(dirs));
              Maps(ram, dirs) == maps[i := Downgraded(maps[i])] + [Downgraded(maps[i])]
    {
      hide Owned, FreeChain, Blank, Maps, CopiedUpTo, Count;
      ghost var before, n := ram, |dirs|;
      TaskAdded(ram, dirs, role, d);
      dirs := dirs + [d];
      SetupPageTables(curCr3, newCr3, i, n);
      SharedMaps(before, ram, old(dirs), d, i);
    }

    // setup_links for the youngest task.
    method Enlist(cur: Task, newTask: Task, ghost d: nat)
      requires Registers(tasks, dirs) && newTask.cr3 == d * PAGE_SIZE
      requires cur in tasks && newTask !in tasks && Family(set t | t in tasks)
      modifies this`tasks, tasks`childHead, tasks`childTail, tasks`children, tasks`next
      modifies newTask`parent, newTask`childHead, newTask`childTail, newTask`next, newTask`prev, newTask`children
      ensures tasks == old(tasks) + [newTask] && Registers(tasks, dirs + [d]) && Family(set t | t in tasks)
      ensures cur.children == old(cur.children) + [newTask] && newTask.children == []
      ensures forall t :: t in old(tasks) && t != cur ==> t.children == old(t.children)
    {
      hide Family;
      SetupLinks(cur, newTask, set t | t in tasks);
      assert (set t | t in tasks + [newTask]) == (set t | t in tasks) + {newTask};
      tasks := tasks + [newTask];
    }

    // The record, kernel stack and directory of a new task.
    method NewTask(irq: Context) returns (newTask: Task)
      requires Frames() && |free| >= 3
      modifies this`ram, this`plFree, this`free, this`role, this`nextpid
      ensures fresh(newTask) && newTask.pid == old(nextpid) && nextpid == old(nextpid) + 1
      ensures Frames() && role.Keys == old(role.Keys) && free == old(free)[3..]
      ensures Maps(ram, dirs) == Maps(old(ram), dirs) && UserFramesKept(old(ram), ram, role.Keys)
      ensures forall j :: 0 <= j < |dirs| ==> ram[dirs[j]] == old(ram)[dirs[j]]
      ensures newTask.cr3 == old(free)[2] * PAGE_SIZE
      ensures HasRole(role, old(free)[2], Directory(|dirs|)) && Blank(ram[old(free)[2]])
      ensures newTask.esp0 == (old(free)[1] + 1) * 0x1000 % U32 && newTask.context == irq.(eax := 0)
    {
      hide Owned, FreeChain, Blank, Maps;
      ghost var n := |dirs|;
      var page := AllocPage(Some(TaskPage(n)));
      newTask := new Task();
      newTask.pid := nextpid;
      nextpid := nextpid + 1;
      SetupNewTss(newTask, irq, page, n);
    }

    // The child as far as its own tables, which are still empty.
    method NewChild(cur: Task, irq: Context) returns (newTask: Task)
      requires Valid() && cur in tasks && |free| >= 3
      modifies this`ram, this`plFree, this`free, this`role, this`nextpid
      modifies this`tasks, tasks`childHead, tasks`childTail, tasks`children, tasks`next
      ensures fresh(newTask) && newTask.pid == old(nextpid) && nextpid == old(nextpid) + 1
      ensures Frames() && role.Keys == old(role.Keys) && free == old(free)[3..]
      ensures Maps(ram, dirs) == Maps(old(ram), dirs) && UserFramesKept(old(ram), ram, role.Keys)
      ensures forall j :: 0 <= j < |dirs| ==> ram[dirs[j]] == old(ram)[dirs[j]]
      ensures newTask.cr3 == old(free)[2] * PAGE_SIZE
      ensures HasRole(role, old(free)[2], Directory(|dirs|)) && Blank(ram[old(free)[2]])
      ensures newTask.esp0 == (old(free)[1] + 1) * 0x1000 % U32 && newTask.context == irq.(eax := 0)
      ensures tasks == old(tasks) + [newTask] && Registers(tasks, dirs + [old(free)[2]]) && Family(set t | t in tasks)
      ensures cur.children == old(cur.children) + [newTask] && newTask.children == []
      ensures forall t :: t in old(tasks) && t != cur ==> t.children == old(t.children)
    {
      hide Owned, FreeChain, Blank, Maps, Family, UserFramesKept, FreeList;
      ghost var d := free[2];
      newTask := NewTask(irq);
      Enlist(cur, newTask, d);
    }

    // knl_fork, called by task i; enough pages are left for the task, its stack, its directory and its tables.  The
    // source returns the number alone.
    method KnlFork(cur: Task, irq: Context, ghost i: nat) returns (pid: int, newTask: Task)
      requires Valid() && i < |tasks| && tasks[i] == cur
      requires 3 + Count(ram[dirs[i]], ROW) <= |free|
      modifies this, tasks
      ensures Valid() && 3 + Count(old(ram)[old(dirs)[i]], ROW) <= |old(free)|
      ensures View() == Fork(old(View()), i, 3 + Count(old(ram)[old(dirs)[i]], ROW))
      ensures Does(World(old(View()), old(ram)), Kernel(ForkBy(i, 3 + Count(old(ram)[old(dirs)[i]], ROW))), World(View(), ram))
      ensures pid == newTask.pid == old(nextpid) && nextpid == old(nextpid) + 1
      ensures fresh(newTask) && tasks == old(tasks) + [newTask]
      ensures newTask.context == irq.(eax := 0) && newTask.esp0 == (old(free)[1] + 1) * 0x1000 % U32
      ensures cur.children == old(cur.children) + [newTask] && newTask.children == []
      ensures forall t :: t in old(tasks) && t != cur ==> t.children == old(t.children)
    {
      hide Owned, FreeChain, Blank, Maps, Family, Count, Downgraded, Does, UserFramesKept, FreeList;
      assert cur in tasks && cur.cr3 == dirs[i] * PAGE_SIZE;
      hide Registers;
      ghost var free0, taken: nat := free, Count(ram[dirs[i]], ROW);
      ghost var before := World(View(), ram);
      Tails(free0, taken);
      var task := NewChild(cur, irq);
      ghost var mid := ram;
      Share(cur.cr3, task.cr3, i, free0[2]);
      pid, newTask := task.pid, task;
      KeptTwice(before.ram, mid, ram, role.Keys);
      ForkDone(before, i, 3 + taken, World(View(), ram));
    }

    // What the processor makes of a task's instruction that writes a word: it walks the tables, and if the page is
    // writable the word changes.
    method UserStore(cur: Task, address: nat, value: Word, ghost i: nat, ghost l: nat)
      requires Valid() && i < |tasks| && tasks[i] == cur && address < U32 && l == address / PAGE_SIZE
      requires Mapped(View(), i, l) && CanWrite(View().maps[i], l) && FrameAt(View(), i, l) !in role
      modifies this`ram
      ensures Valid() && View() == old(View())
      ensures Does(World(old(View()), old(ram)), Store(i, l, address % PAGE_SIZE / 4, value), World(View(), ram))
    {
      FaultAddress(l);
      CurrentTask(tasks, dirs, i);
      ghost var ram0, view0 := ram, View();
      var linear, word := address / PAGE_SIZE * PAGE_SIZE, address % PAGE_SIZE / 4;
      var pde := ram[cur.cr3 / PAGE_SIZE][linear / 0x40_0000];
      var pte := ram[FrameOf(pde)][linear / PAGE_SIZE % ROW];
      var frame := FrameOf(pte);
      assert frame == FrameAt(view0, i, l);
      hide Owned, FreeChain, Maps, Lookup, FrameOf, Family, Registers;
      ram := ram[frame := ram[frame][word := value]];
      ForeignWrite(ram0, ram, dirs, role, plFree, free);
    }

    // page_copy of one page: the loop condition steps before it tests, so the last word is not copied.
    method PageCopy(dist: nat, src: nat)
      requires dist < PAGES && src < PAGES
      modifies this`ram
      ensures ram == old(ram)[dist := Mixed(old(ram)[src], old(ram)[dist], ROW - 1)]
    {
      ghost var before := ram;
      assert Mixed(before[src], before[dist], 0) == before[dist];
      var k, len := 0, ROW;
      len := len - 1;
      while len != 0
        invariant 0 <= len <= ROW - 1 && k == ROW - 1 - len
        invariant ram == before[dist := Mixed(before[src], before[dist], k)]
      {
        MixStep(before[src], before[dist], k);
        ram := ram[dist := ram[dist][k := ram[src][k]]];
        k := k + 1;
        len := len - 1;
      }
    }

    // The page taken for a fault, with the copy in it.
    method TakeCopy(src: nat) returns (newPage: nat)
      requires Frames() && free != [] && src < PAGES
      modifies this`ram, this`plFree, this`free, this`role
      ensures HasRole(old(role), old(free)[0], Free) && newPage == old(free)[0] * PAGE_SIZE
      ensures free == old(free)[1..] && role == old(role) - {old(free)[0]}
      ensures ram == old(ram)[old(free)[0] := CopyOf(old(ram)[src])]
      ensures Owned(old(ram), dirs, role) && FreeChain(old(ram), plFree, free) && Listed(free, role)
    {
      hide Owned, FreeChain, Listed, Blank, CopyOf, Mixed;
      ghost var free0, ram0 := free, ram;
      newPage := AllocPage(None);
      Aligned(free0[0]);
      CopyIntoFree(ram0, free0, src);
      PageCopy(newPage / PAGE_SIZE, src);
    }

    // on_page_fault of task i at the address in CR2, on a present page.
    method OnPageFault(cur: Task, cr2: nat, ghost i: nat, ghost l: nat)
      requires Valid() && i < |tasks| && tasks[i] == cur && cr2 < U32 && l == cr2 / PAGE_SIZE
      requires View().maps[i][l].Some? && free != []
      modifies this`ram, this`plFree, this`free, this`role
      ensures Valid() && old(free)[0] < PAGES && View() == Fault(old(View()), i, l)
      ensures ram[old(free)[0]] == CopyOf(old(ram)[FrameOf(old(View()).maps[i][l].value)])
      ensures forall f :: 0 <= f < PAGES && f != old(free)[0] && f != FrameOf(old(ram)[dirs[i]][l / ROW]) ==>
                ram[f] == old(ram)[f]
      ensures Enabled(old(View()), WriteFault(i, l)) ==>
                Does(World(old(View()), old(ram)), Kernel(WriteFault(i, l)), World(View(), ram))
    {
      hide Owned, FreeChain, Listed, Blank, Family, Registers;
      FaultAddress(l);
      CurrentTask(tasks, dirs, i);
      ghost var free0, ram0, view0 := free, ram, View();
      var linear := cr2 / PAGE_SIZE * PAGE_SIZE;
      var npdt, npte := linear / 0x40_0000, linear / PAGE_SIZE % ROW;
      var pdt := cur.cr3 / PAGE_SIZE;
      var pte := FrameOf(ram[pdt][npdt]);
      var src := FrameOf(ram[pte][npte]);
      assert src == FrameAt(view0, i, l);
      var newPage := TakeCopy(src);
      Aligned(free0[0]);
      hide Maps, Lookup, CopyOf, FrameOf, FullAccess, Faults;
      FaultEffect(ram0, ram, dirs, role, plFree, free0, i, l);
      ram := ram[pte := ram[pte][npte := FullAccess(newPage / PAGE_SIZE)]];
      if Enabled(view0, WriteFault(i, l)) { FaultDone(World(view0, ram0), i, l, World(View(), ram), pte); }
    }
  }

  lemma TakenKeepsOwned(ram: Memory, dirs: seq<nat>, role: map<nat, Role>, free: seq<nat>, use: Option<Role>)
    requires Owned(ram, dirs, role) && use != Some(Free) && Listed(free, role) && free != []
    ensures var role' := if use.Some? then role[free[0] := use.value] else role - {free[0]};
            HasRole(role, free[0], Free) && Owned(ram, dirs, role') && Listed(free[1..], role')
  {
    hide Present, FrameOf;
    assert free[0] in free;
    var role' := if use.Some? then role[free[0] := use.value] else role - {free[0]};
    forall i | 0 <= i < |dirs| ensures HasRole(role', dirs[i], Directory(i)) {
      assert HasRole(role, dirs[i], Directory(i));
    }
    forall i, k | 0 <= i < |dirs| && 0 <= k < ROW ensures TableOwned(ram, role', dirs[i], i, k) {
      assert TableOwned(ram, role, dirs[i], i, k);
    }
    forall f ensures f in free[1..] <==> f in free && f != free[0] {
    }
  }

  // The directory of the child, the table being copied and the page it is copied to are three frames.
  lemma CopyApart(ram: Memory, dirs: seq<nat>, role: map<nat, Role>, i: nat, n: nat, k: nat, f: nat)
    requires Owned(ram, dirs, role) && i < |dirs| && n < |dirs| && i != n && k < ROW
    requires Present(ram[dirs[i]][k]) && HasRole(role, f, Free)
    ensures var t := FrameOf(ram[dirs[i]][k]);
            && t != f && t != dirs[n] && f != dirs[n] && dirs[i] != dirs[n] && t != dirs[i] && f != dirs[i]
            && HasRole(role, t, Table(i, k))
  {
    assert HasRole(role, dirs[i], Directory(i)) && HasRole(role, dirs[n], Directory(n));
    assert TableOwned(ram, role, dirs[i], i, k);
  }

  lemma CopyKeepsFrames(ram: Memory, head: nat, free: seq<nat>, free0: seq<nat>, dirs: seq<nat>, role: map<nat, Role>,
                        i: nat, n: nat, k: nat)
    requires Owned(ram, dirs, role) && i < |dirs| && n < |dirs| && i != n && k < ROW
    requires Present(ram[dirs[i]][k]) && !Present(ram[dirs[n]][k]) && free0 != [] && HasRole(role, free0[0], Free)
    requires free == free0[1..] && Distinct(free0) && (forall f :: f in free0 ==> f in role && role[f] == Free)
    requires FreeChain(ram, head, free)
    ensures var after := TableCopied(ram, dirs[i], dirs[n], k, free0[0]);
            Owned(after, dirs, role[free0[0] := Table(n, k)]) && FreeChain(after, head, free)
  {
    CopyApart(ram, dirs, role, i, n, k, free0[0]);
    TableCopiedOwned(ram, dirs, role, i, n, k, free0[0]);
    var after := TableCopied(ram, dirs[i], dirs[n], k, free0[0]);
    assert HasRole(role, dirs[n], Directory(n));
    hide Present, FrameOf, FreeChain;
    forall f | f in free && f < PAGES ensures after[f] == ram[f] {
      assert f in free0 && f != free0[0];
    }
    ChainKept(ram, after, head, free);
  }

  lemma {:induction false} CountGrows(row: Frame, n: nat)
    requires n <= ROW
    ensures Count(row, n) <= Count(row, ROW)
    decreases ROW - n
  {
    if n < ROW {
      CountGrows(row, n + 1);
    }
  }

  lemma NothingCopied(ram: Memory, dirs: seq<nat>, i: nat, n: nat)
    requires Directories(dirs) && i < |dirs| && n < |dirs| && Blank(ram[dirs[n]])
    ensures CopiedUpTo(ram, ram, dirs, i, n, 0)
  {
  }

  lemma CopyOneMore(before: Memory, mid: Memory, dirs: seq<nat>, role: map<nat, Role>, i: nat, n: nat, k: nat, f: nat)
    requires Owned(mid, dirs, role) && Directories(dirs) && i < |dirs| && n < |dirs| && i != n && k < ROW
    requires CopiedUpTo(before, mid, dirs, i, n, k) && HasRole(role, f, Free) && Blank(mid[f])
    requires Present(mid[dirs[i]][k]) && forall m :: k <= m < ROW ==> !Present(mid[dirs[n]][m])
    ensures var after := TableCopied(mid, dirs[i], dirs[n], k, f);
            && CopiedUpTo(before, after, dirs, i, n, k + 1)
            && after[dirs[i]] == mid[dirs[i]] && forall m :: k < m < ROW ==> !Present(after[dirs[n]][m])
  {
    var after := TableCopied(mid, dirs[i], dirs[n], k, f);
    CopyApart(mid, dirs, role, i, n, k, f);
    hide Lookup;
    var k' := k + 1;
    forall l | 0 <= l < PAGES ensures EntryCopied(before, after, dirs, i, n, k', l) {
      assert EntryCopied(before, mid, dirs, i, n, k, l);
      TableCopiedEntries(mid, dirs, role, i, n, k, f, l);
    }
  }

  lemma SkipOne(before: Memory, mid: Memory, dirs: seq<nat>, role: map<nat, Role>, i: nat, n: nat, k: nat)
    requires Directories(dirs) && i < |dirs| && n < |dirs| && i != n && k < ROW
    requires CopiedUpTo(before, mid, dirs, i, n, k) && !Present(mid[dirs[i]][k]) && !Present(mid[dirs[n]][k])
    ensures CopiedUpTo(before, mid, dirs, i, n, k + 1)
  {
    hide Present;
    var k' := k + 1;
    forall l | 0 <= l < PAGES ensures EntryCopied(before, mid, dirs, i, n, k', l) {
      assert EntryCopied(before, mid, dirs, i, n, k, l);
    }
  }

  // Writes to frames that are neither free nor tables leave the spaces and the free list alone.
  lemma ForeignWrite(ram: Memory, after: Memory, dirs: seq<nat>, role: map<nat, Role>, head: nat, free: seq<nat>)
    requires Owned(ram, dirs, role) && FreeChain(ram, head, free) && Directories(dirs)
    requires forall f :: f in free ==> f in role && role[f] == Free
    requires forall f :: f in role && f < PAGES && !role[f].Stack? && !role[f].TaskPage? ==> after[f] == ram[f]
    ensures Owned(after, dirs, role) && FreeChain(after, head, free)
    ensures Maps(after, dirs) == Maps(ram, dirs)
    ensures forall j :: 0 <= j < |dirs| ==> after[dirs[j]] == ram[dirs[j]]
  {
    ChainKept(ram, after, head, free);
    TablesUntouched(ram, after, dirs, role);
    assert forall j :: 0 <= j < |dirs| ==> HasRole(role, dirs[j], Directory(j));
    hide Lookup;
    forall j | 0 <= j < |dirs| ensures SpaceOf(after, dirs[j]) == SpaceOf(ram, dirs[j]) {
    }
  }

  lemma SharedMaps(before: Memory, after: Memory, dirs: seq<nat>, d: nat, i: nat)
    requires Directories(dirs + [d]) && Directories(dirs) && i < |dirs|
    requires CopiedUpTo(before, after, dirs + [d], i, |dirs|, ROW)
    ensures var maps := Maps(before, dirs);
            Maps(after, dirs + [d]) == maps[i := Downgraded(maps[i])] + [Downgraded(maps[i])]
  {
    hide Lookup;
    var more, n := dirs + [d], |dirs|;
    assert more[n] == d && forall j :: 0 <= j < n ==> more[j] == dirs[j];
    var m := Downgraded(SpaceOf(before, dirs[i]));
    forall l | 0 <= l < PAGES ensures SpaceOf(after, dirs[i])[l] == m[l] && SpaceOf(after, d)[l] == m[l] {
      assert EntryCopied(before, after, more, i, n, ROW, l);
      RowBits(l);
    }
    forall j | 0 <= j < n && j != i ensures SpaceOf(after, dirs[j]) == SpaceOf(before, dirs[j]) {
      forall l | 0 <= l < PAGES ensures SpaceOf(after, dirs[j])[l] == SpaceOf(before, dirs[j])[l] {
        assert EntryCopied(before, after, more, i, n, ROW, l) && more[j] == dirs[j];
      }
    }
    assert SpaceOf(after, dirs[i]) == m && SpaceOf(after, d) == m;
  }

  lemma KeptTwice(before: Memory, mid: Memory, after: Memory, kernel: set<nat>)
    requires UserFramesKept(before, mid, kernel) && UserFramesKept(mid, after, kernel)
    ensures UserFramesKept(before, after, kernel)
  {
  }

  lemma Tails(s: seq<nat>, k: nat)
    requires 3 + k <= |s|
    ensures s[3..][k..] == s[3 + k..]
  {
  }

  // page_copy into a page from the free list.
  lemma CopyIntoFree(ram: Memory, free: seq<nat>, src: nat)
    requires free != [] && FreeFrame(ram, free, 0) && src < PAGES
    ensures Mixed(ram[src], ram[free[0]], ROW - 1) == CopyOf(ram[src])
  {
  }

  /** The private copy a fault makes shows the same page exactly when the page's last word was zero. */
  lemma CopyExactIff(page: Frame)
    ensures CopyOf(page) == page <==> page[ROW - 1] == 0
    ensures (forall k :: 0 <= k < 1023 ==> CopyOf(page)[k] == page[k]) && CopyOf(page)[1023] == 0
  {
  }

  // The directory and table indices of the page at an address.
  lemma FaultAddress(l: nat)
    requires l < PAGES
    ensures l * PAGE_SIZE / 0x40_0000 == l / ROW && l * PAGE_SIZE / PAGE_SIZE == l
  {
  }

  lemma CurrentTask(tasks: seq<Task>, dirs: seq<nat>, i: nat)
    requires Registers(tasks, dirs) && i < |tasks|
    ensures i < |dirs| && tasks[i].cr3 / PAGE_SIZE == dirs[i]
  {
  }

  // Filling the page just taken and entering it in task i's table at page l.
  lemma FaultEffect(ram: Memory, mid: Memory, dirs: seq<nat>, role: map<nat, Role>, head: nat, free: seq<nat>, i: nat, l: nat)
    requires Owned(ram, dirs, role) && Directories(dirs) && i < |dirs| && l < PAGES && Lookup(ram, dirs[i], l).Some?
    requires free != [] && free[0] < PAGES && free[0] !in role && Listed(free[1..], role)
    requires FreeChain(ram, head, free[1..])
    requires forall f :: 0 <= f < PAGES && f != free[0] ==> mid[f] == ram[f]
    ensures var after := EntryReplaced(mid, dirs[i], l, FullAccess(free[0]));
            && Owned(after, dirs, role) && FreeChain(after, head, free[1..])
            && mid[dirs[i]] == ram[dirs[i]] && FrameOf(ram[dirs[i]][l / ROW]) != free[0]
            && FrameOf(ram[dirs[i]][l / ROW]) in role
            && Maps(after, dirs) == Maps(ram, dirs)[i := Maps(ram, dirs)[i][l := Some(FullAccess(free[0]))]]
  {
    hide Lookup, FrameOf, FullAccess, Present;
    var w := FullAccess(free[0]);
    var after := EntryReplaced(mid, dirs[i], l, w);
    FullAccessBits(free[0]);
    TablesUntouched(ram, mid, dirs, role);
    ReplacedOwned(mid, dirs, role, i, l, w);
    assert HasRole(role, dirs[i], Directory(i));
    ChainKept(ram, after, head, free[1..]);
    forall j, m | 0 <= j < |dirs| && 0 <= m < PAGES
      ensures SpaceOf(after, dirs[j])[m] == if j == i && m == l then Some(w) else SpaceOf(ram, dirs[j])[m]
    {
      ReplacedEntries(mid, dirs, role, i, l, w, j, m);
    }
    assert SpaceOf(after, dirs[i]) == SpaceOf(ram, dirs[i])[l := Some(w)];
    forall j | 0 <= j < |dirs| && j != i ensures SpaceOf(after, dirs[j]) == SpaceOf(ram, dirs[j]) {
    }
  }
}
