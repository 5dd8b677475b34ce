/** Directories and tables in physical memory, and who owns each of the frames the kernel works in. */
module PageTables {
  import opened Machine
  import opened PageEntries
  import opened AddressSpaces

  type Frame = s: seq<Word> | |s| == ROW witness seq(ROW, _ => 0)

  function ZeroFrame(page: nat): Frame {
    seq(ROW, _ => 0)
  }

  // Physical memory, one frame of words for each frame number.
  type Memory = s: seq<Frame> | |s| == PAGES witness seq<Frame>(PAGES, ZeroFrame)

  function ZeroMemory(): (m: Memory)
    ensures forall f :: 0 <= f < PAGES ==> m[f] == ZeroFrame(f)
  {
    var m := seq<Frame>(PAGES, (f: nat) => ZeroFrame(f));
    m
  }

  // What a frame of the kernel's is for; a frame given to a user has no role.
  datatype Role = Free | TaskPage(task: nat) | Stack(task: nat) | Directory(task: nat) | Table(task: nat, k: nat)

  // The walk of the page tables for linear page l.
  function Lookup(ram: Memory, dir: nat, l: nat): Option<Word>
    requires dir < PAGES && l < PAGES
  {
    var pde := ram[dir][l / ROW];
    if !Present(pde) then None
    else
      var pte := ram[FrameOf(pde)][l % ROW];
      if Present(pte) then Some(pte) else None
  }

  function SpaceOf(ram: Memory, dir: nat): Space
    requires dir < PAGES
  {
    seq(PAGES, l requires 0 <= l < PAGES => Lookup(ram, dir, l))
  }

  ghost predicate Directories(dirs: seq<nat>) {
    forall i :: 0 <= i < |dirs| ==> dirs[i] < PAGES
  }

  // Every directory and every table a directory entry names has its own role, so no frame serves twice.
  ghost predicate Owned(ram: Memory, dirs: seq<nat>, role: map<nat, Role>) {
    && (forall f :: f in role ==> 0 < f < PAGES)
    && (forall i :: 0 <= i < |dirs| ==> HasRole(role, dirs[i], Directory(i)))
    && (forall i, k :: 0 <= i < |dirs| && 0 <= k < ROW ==> TableOwned(ram, role, dirs[i], i, k))
  }

  ghost predicate HasRole(role: map<nat, Role>, f: nat, r: Role) {
    f < PAGES && f in role && role[f] == r
  }

  ghost predicate TableOwned(ram: Memory, role: map<nat, Role>, dir: nat, i: nat, k: nat)
    requires k < ROW
  {
    dir < PAGES && (Present(ram[dir][k]) ==> HasRole(role, FrameOf(ram[dir][k]), Table(i, k)))
  }

  // The frame of the table that translates the k-th megabyte quadruple of a task.
  ghost predicate IsTableOf(ram: Memory, dir: nat, f: nat) {
    dir < PAGES && exists k :: 0 <= k < ROW && Present(ram[dir][k]) && FrameOf(ram[dir][k]) == f
  }

  /** The directory and tables of one task lie in frames that no other task's directory or tables use, and that
      are not free. */
  lemma TablesDisjoint(ram: Memory, dirs: seq<nat>, role: map<nat, Role>, i: nat, j: nat, f: nat)
    requires Owned(ram, dirs, role) && i < |dirs| && j < |dirs| && i != j
    requires f == dirs[i] || IsTableOf(ram, dirs[i], f)
    ensures f != dirs[j] && !IsTableOf(ram, dirs[j], f)
    ensures f in role && role[f] != Free
  {
    assert HasRole(role, dirs[j], Directory(j)) && HasRole(role, dirs[i], Directory(i));
    TableRole(ram, dirs, role, i, f);
    TableRole(ram, dirs, role, j, f);
  }

  lemma TableRole(ram: Memory, dirs: seq<nat>, role: map<nat, Role>, i: nat, f: nat)
    requires Owned(ram, dirs, role) && i < |dirs|
    ensures IsTableOf(ram, dirs[i], f) ==> f in role && role[f].Table? && role[f].task == i
  {
    if IsTableOf(ram, dirs[i], f) {
      var k :| 0 <= k < ROW && Present(ram[dirs[i]][k]) && FrameOf(ram[dirs[i]][k]) == f;
      assert TableOwned(ram, role, dirs[i], i, k);
    }
  }

  // ----- One table copied for a child -----

  function DowngradedRow(row: Frame): Frame {
    seq(ROW, n requires 0 <= n < ROW => if Present(row[n]) then Downgrade(n, row[n]) else row[n])
  }

  function CopiedRow(row: Frame, blank: Frame): Frame {
    seq(ROW, n requires 0 <= n < ROW => if Present(row[n]) then Downgrade(n, row[n]) else blank[n])
  }

  // A page that holds no present entry, such as one from the free list: its link is page-aligned.
  ghost predicate Blank(row: Frame) {
    forall n :: 0 <= n < ROW ==> !Present(row[n])
  }

  // Memory after directory entry k of the child has been set up with the table in frame f.
  function TableCopied(ram: Memory, cur: nat, new_: nat, k: nat, f: nat): Memory
    requires cur < PAGES && new_ < PAGES && k < ROW && f < PAGES
  {
    var t := FrameOf(ram[cur][k]);
    ram[new_ := ram[new_][k := FullAccess(f)]][t := DowngradedRow(ram[t])][f := CopiedRow(ram[t], ram[f])]
  }

  lemma RowBits(l: nat)
    requires l < PAGES
    ensures l / ROW < ROW && Shared(l % ROW) == Shared(l)
  {
  }

  // Copying table k gives the child the parent's pages there, downgrades the parent's, and touches nothing else.
  lemma TableCopiedEntries(ram: Memory, dirs: seq<nat>, role: map<nat, Role>, i: nat, n: nat, k: nat, f: nat, l: nat)
    requires Owned(ram, dirs, role) && i < |dirs| && n < |dirs| && i != n && k < ROW && l < PAGES
    requires Present(ram[dirs[i]][k]) && !Present(ram[dirs[n]][k])
    requires HasRole(role, f, Free) && Blank(ram[f])
    ensures var after := TableCopied(ram, dirs[i], dirs[n], k, f);
            && Lookup(after, dirs[i], l) ==
                 (if l / ROW == k then DowngradedEntry(l, Lookup(ram, dirs[i], l)) else Lookup(ram, dirs[i], l))
            && Lookup(after, dirs[n], l) ==
                 (if l / ROW == k then DowngradedEntry(l, Lookup(ram, dirs[i], l)) else Lookup(ram, dirs[n], l))
            && forall j :: 0 <= j < |dirs| && j != i && j != n ==> Lookup(after, dirs[j], l) == Lookup(ram, dirs[j], l)
  {
    hide Shared, FrameOf, Present, FullAccess;
    var t := FrameOf(ram[dirs[i]][k]);
    assert HasRole(role, dirs[i], Directory(i)) && HasRole(role, dirs[n], Directory(n));
    assert TableOwned(ram, role, dirs[i], i, k);
    RowBits(l);
    DowngradeKeepsFrame(l % ROW, ram[t][l % ROW]);
    assert TableOwned(ram, role, dirs[i], i, l / ROW) && TableOwned(ram, role, dirs[n], n, l / ROW);
    FullAccessBits(f);
    forall j | 0 <= j < |dirs| && j != i && j != n
      ensures Lookup(TableCopied(ram, dirs[i], dirs[n], k, f), dirs[j], l) == Lookup(ram, dirs[j], l)
    {
      assert HasRole(role, dirs[j], Directory(j)) && TableOwned(ram, role, dirs[j], j, l / ROW);
    }
  }

  lemma TableCopiedOwned(ram: Memory, dirs: seq<nat>, role: map<nat, Role>, i: nat, n: nat, k: nat, f: nat)
    requires Owned(ram, dirs, role) && i < |dirs| && n < |dirs| && i != n && k < ROW
    requires Present(ram[dirs[i]][k]) && !Present(ram[dirs[n]][k]) && HasRole(role, f, Free)
    ensures Owned(TableCopied(ram, dirs[i], dirs[n], k, f), dirs, role[f := Table(n, k)])
  {
    hide Shared, FrameOf, Present, FullAccess, DowngradedRow, CopiedRow;
    var after, role' := TableCopied(ram, dirs[i], dirs[n], k, f), role[f := Table(n, k)];
    assert HasRole(role, dirs[i], Directory(i)) && HasRole(role, dirs[n], Directory(n));
    assert TableOwned(ram, role, dirs[i], i, k);
    FullAccessBits(f);
    forall j, m | 0 <= j < |dirs| && 0 <= m < ROW ensures TableOwned(after, role', dirs[j], j, m) {
      assert TableOwned(ram, role, dirs[j], j, m) && HasRole(role, dirs[j], Directory(j));
    }
    forall j | 0 <= j < |dirs| ensures HasRole(role', dirs[j], Directory(j)) {
      assert HasRole(role, dirs[j], Directory(j));
    }
  }

  // Writes to frames that are no directory and no table change nobody's space.
  lemma TablesUntouched(ram: Memory, after: Memory, dirs: seq<nat>, role: map<nat, Role>)
    requires Owned(ram, dirs, role)
    requires forall f :: f in role && f < PAGES && (role[f].Directory? || role[f].Table?) ==> after[f] == ram[f]
    ensures Owned(after, dirs, role)
    ensures forall j, l :: 0 <= j < |dirs| && 0 <= l < PAGES ==> dirs[j] < PAGES && Lookup(after, dirs[j], l) == Lookup(ram, dirs[j], l)
  {
    hide Present, FrameOf;
    forall j | 0 <= j < |dirs| ensures HasRole(role, dirs[j], Directory(j)) && after[dirs[j]] == ram[dirs[j]] {
      assert HasRole(role, dirs[j], Directory(j));
    }
    forall j, k | 0 <= j < |dirs| && 0 <= k < ROW ensures TableOwned(after, role, dirs[j], j, k) {
      assert TableOwned(ram, role, dirs[j], j, k);
    }
    forall j, l | 0 <= j < |dirs| && 0 <= l < PAGES ensures Lookup(after, dirs[j], l) == Lookup(ram, dirs[j], l) {
      RowBits(l);
      assert TableOwned(ram, role, dirs[j], j, l / ROW);
    }
  }

  // Memory after the entry that translates page l has been overwritten.
  function EntryReplaced(ram: Memory, dir: nat, l: nat, w: Word): Memory
    requires dir < PAGES && l < PAGES
  {
    var t := FrameOf(ram[dir][l / ROW]);
    ram[t := ram[t][l % ROW := w]]
  }

  // Overwriting the entry of one present page changes that page of that task and nothing else.
  lemma ReplacedEntries(ram: Memory, dirs: seq<nat>, role: map<nat, Role>, i: nat, l: nat, w: Word, j: nat, m: nat)
    requires Owned(ram, dirs, role) && i < |dirs| && j < |dirs| && l < PAGES && m < PAGES && Present(w)
    requires dirs[i] < PAGES && Lookup(ram, dirs[i], l).Some?
    ensures dirs[j] < PAGES
    ensures Lookup(EntryReplaced(ram, dirs[i], l, w), dirs[j], m) ==
              if j == i && m == l then Some(w) else Lookup(ram, dirs[j], m)
  {
    hide Present, FrameOf;
    RowBits(l);
    RowBits(m);
    assert HasRole(role, dirs[i], Directory(i)) && HasRole(role, dirs[j], Directory(j));
    assert TableOwned(ram, role, dirs[i], i, l / ROW) && TableOwned(ram, role, dirs[j], j, m / ROW);
    if l / ROW == m / ROW && l % ROW == m % ROW {
      SamePage(l, m);
    }
  }

  lemma SamePage(l: nat, m: nat)
    requires l / ROW == m / ROW && l % ROW == m % ROW
    ensures l == m
  {
  }

  lemma ReplacedOwned(ram: Memory, dirs: seq<nat>, role: map<nat, Role>, i: nat, l: nat, w: Word)
    requires Owned(ram, dirs, role) && i < |dirs| && l < PAGES
    requires dirs[i] < PAGES && Lookup(ram, dirs[i], l).Some?
    ensures Owned(EntryReplaced(ram, dirs[i], l, w), dirs, role)
    ensures HasRole(role, FrameOf(ram[dirs[i]][l / ROW]), Table(i, l / ROW))
  {
    hide Present, FrameOf;
    RowBits(l);
    assert TableOwned(ram, role, dirs[i], i, l / ROW);
    var after := EntryReplaced(ram, dirs[i], l, w);
    forall j, k | 0 <= j < |dirs| && 0 <= k < ROW ensures TableOwned(after, role, dirs[j], j, k) {
      assert TableOwned(ram, role, dirs[j], j, k) && HasRole(role, dirs[j], Directory(j));
    }
  }

  // A new task with an empty directory.
  lemma TaskAdded(ram: Memory, dirs: seq<nat>, role: map<nat, Role>, d: nat)
    requires Owned(ram, dirs, role) && HasRole(role, d, Directory(|dirs|)) && Blank(ram[d])
    ensures Owned(ram, dirs + [d], role)
    ensures forall l :: 0 <= l < PAGES ==> Lookup(ram, d, l) == None
  {
  }

  // ----- The free list -----

  // Address of the n-th free page, or NULL past the end.
  function Link(free: seq<nat>, n: nat): nat {
    if n < |free| then free[n] * PAGE_SIZE else 0
  }

  // A free page holds its link and is zero otherwise.
  ghost predicate FreeFrame(ram: Memory, free: seq<nat>, n: nat)
    requires n < |free|
  {
    && 0 < free[n] < PAGES && ram[free[n]][0] == Link(free, n + 1)
    && forall w :: 1 <= w < ROW ==> ram[free[n]][w] == 0
  }

  ghost predicate FreeChain(ram: Memory, head: nat, free: seq<nat>) {
    head == Link(free, 0) && forall n :: 0 <= n < |free| ==> FreeFrame(ram, free, n)
  }

  lemma FreeFrameIsBlank(ram: Memory, free: seq<nat>, n: nat)
    requires n < |free| && FreeFrame(ram, free, n) && (n + 1 < |free| ==> FreeFrame(ram, free, n + 1))
    ensures Blank(ram[free[n]])
  {
  }

  lemma Aligned(f: nat)
    ensures f * PAGE_SIZE % 2 == 0 && f * PAGE_SIZE / PAGE_SIZE == f
  {
  }

  lemma ChainKept(ram: Memory, after: Memory, head: nat, free: seq<nat>)
    requires FreeChain(ram, head, free) && forall f :: f in free && f < PAGES ==> after[f] == ram[f]
    ensures FreeChain(after, head, free)
  {
    forall n | 0 <= n < |free| ensures FreeFrame(after, free, n) {
      assert FreeFrame(ram, free, n) && free[n] in free;
    }
  }

  lemma ChainPushed(ram: Memory, head: Word, free: seq<nat>, f: nat)
    requires FreeChain(ram, head, free) && f !in free && 0 < f < PAGES && ram[f] == ZeroFrame(f)
    ensures FreeChain(ram[f := ram[f][0 := head]], f * PAGE_SIZE, [f] + free)
  {
    var after, more := ram[f := ram[f][0 := head]], [f] + free;
    ChainKept(ram, after, head, free);
    forall n | 0 <= n < |more| ensures FreeFrame(after, more, n) {
      assert n > 0 ==> FreeFrame(after, free, n - 1);
    }
  }

  lemma ChainPopped(ram: Memory, head: nat, free: seq<nat>)
    requires FreeChain(ram, head, free) && free != []
    ensures head == free[0] * PAGE_SIZE && 0 < free[0] < PAGES && FreeChain(ram, ram[free[0]][0], free[1..])
    ensures Blank(ram[free[0]])
  {
    assert FreeFrame(ram, free, 0);
    if |free| > 1 {
      assert FreeFrame(ram, free, 1);
    }
    FreeFrameIsBlank(ram, free, 0);
    var rest := free[1..];
    forall n | 0 <= n < |rest| ensures FreeFrame(ram, rest, n) {
      assert FreeFrame(ram, free, n + 1);
    }
  }
}
