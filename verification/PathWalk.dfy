/** minixfs/path.c running on the inode table and the block cache. */
module PathWalk {
  import opened Machine
  import opened AtaRegisters
  import opened Buffers
  import opened CacheModel
  import opened CacheClient
  import opened InodeModel
  import opened InodeStore
  import opened PathModel
  import opened Readings
  import opened IndexBytes
  import opened PathReadings
  import opened BufferCache
  import opened Zones
  import opened Inodes

  // A C string's characters, without the terminating NUL.
  ghost predicate NoNul(s: seq<bv8>) {
    forall i :: 0 <= i < |s| ==> s[i] != 0
  }

  // strstr(str, "/"): the two nested loops of string.h with a one-character needle.
  method StrStrSlash(str: seq<bv8>) returns (at: nat)
    ensures at == FirstSlash(str)
  {
    var need: seq<bv8> := [SLASH];
    var itr := 0;
    at := 0;
    while at < |str|
      invariant at <= |str| && itr == 0
      invariant FirstSlash(str) == at + FirstSlash(str[at..])
    {
      if str[at] == need[0] {
        var start := at;
        while at < |str| && itr < |need| && str[at] == need[itr]
          invariant start <= at <= |str| && itr == at - start && itr <= 1
        {
          at, itr := at + 1, itr + 1;
        }
        var diff := itr;
        if itr == |need| {
          return at - diff;
        } else {
          itr := 0;
        }
      } else {
        assert str[at..][1..] == str[at + 1..];
        at := at + 1;
      }
    }
  }

  // A char is signed.
  function Signed(c: bv8): (n: int)
    ensures -128 <= n < 128 && (n == c as int || n == c as int - 256)
  {
    if c < 128 then c as int else c as int - 0x100
  }

  // Where strncmp stops: after n characters, at a NUL of s1, or at the first difference, whichever comes first.
  ghost predicate StopsAt(s1: seq<bv8>, s2: seq<bv8>, n: nat, at: nat) {
    && at <= n && at < |s1| && at < |s2|
    && (at == n || s1[at] == 0 || s1[at] != s2[at])
    && forall i :: 0 <= i < at ==> s1[i] == s2[i] && s1[i] != 0
  }

  // strncmp; the strings are read up to the character where it stops.  Two strings that end together before n
  // characters compare as -1.
  method StrNCmp(s1: seq<bv8>, s2: seq<bv8>, n: nat, ghost at: nat) returns (r: int)
    requires StopsAt(s1, s2, n, at)
    ensures at == n ==> r == 0
    ensures at < n && Signed(s1[at]) > Signed(s2[at]) ==> r == 1
    ensures at < n && Signed(s1[at]) <= Signed(s2[at]) ==> r == -1
  {
    var i, left := 0, n;
    while s1[i] != 0 && s1[i] == s2[i] && left > 0
      invariant i + left == n && i <= at
      decreases left
    {
      i, left := i + 1, left - 1;
    }
    if left == 0 {
      return 0;
    }
    var diff := Signed(s1[i]) - Signed(s2[i]);
    if diff > 0 {
      return 1;
    } else {
      return -1;
    }
  }

  lemma {:induction false} Stop(s1: seq<bv8>, s2: seq<bv8>, n: nat) returns (at: nat)
    requires n < |s1| && n < |s2|
    ensures StopsAt(s1, s2, n, at)
  {
    at := 0;
    while at < n && s1[at] != 0 && s1[at] == s2[at]
      invariant at <= n && forall i :: 0 <= i < at ==> s1[i] == s2[i] && s1[i] != 0
    {
      at := at + 1;
    }
  }

  // strncmp(name, dir.dr_name, len): behind the 30 bytes of the entry's name lies some other memory.
  method EntryMatches(name: seq<bv8>, len: nat, dir: Direction, memory: seq<bv8>) returns (b: bool)
    requires len <= |name| && len < |memory| && |dir.name| == FILENAME_LEN && NoNul(name)
    requires NameMatches(name[..len], dir.name).Some?
    ensures NameMatches(name[..len], dir.name) == Some(b)
  {
    ghost var s1, s2, comp := name + [0], dir.name + memory, name[..len];
    ghost var at := Stop(s1, s2, len);
    var r := StrNCmp(name + [0], dir.name + memory, len, at);
    if at == len {
      assert forall i :: 0 <= i < len ==> comp[i] == s1[i] && s1[i] == s2[i];
    } else {
      assert comp[at] == s1[at];
    }
    return r == 0;
  }

  // _next_file
  method NextFile(cache: BlockCache, dev: nat, nstart: nat, node: PyIndexNode, next: nat,
                  ghost c: Cache<BlockBuffer>, ghost m: Device)
    returns (after: nat, dir: Direction)
    requires At(cache, c, m, dev, nstart) && Sound(c)
    requires next < U32 && Aligned(next) && EntryIn(c, m, node, next).value.Some?
    modifies cache.Repr()
    ensures At(cache, EntryIn(c, m, node, next).c, m, dev, nstart)
    ensures dir == EntryIn(c, m, node, next).value.value && after == (next + ENTRY_SIZE) % U32
    ensures EntryLies(c, m, node, next, dir)
  {
    EntryByBytes(c, m, node, next);
    hide EntryLies, At, Sound, ZoneIn, ReadIn, ZoneNumbers, Keeps;
    EntryFits(next);
    ghost var z := ZoneIn(c, m, ZoneNumbers(node), next);
    var zone, offset := GetZone(cache, dev, nstart, ZoneNumbers(node), next, c, m);
    var content := ReadBlock(cache, dev, nstart, zone, z.c, m);
    dir := EntryAt(content, offset);
    after := (next + ENTRY_SIZE) % U32;
  }

  // One turn of _search_file's loop.
  method TryEntry(cache: BlockCache, dev: nat, nstart: nat, node: PyIndexNode, name: seq<bv8>, len: nat,
                  seek: nat, ghost c: Cache<BlockBuffer>, ghost m: Device)
    returns (hit: bool, inode: nat, after: nat)
    requires At(cache, c, m, dev, nstart) && Sound(c)
    requires len <= |name| && NoNul(name) && seek < U32 && Aligned(seek)
    requires var e := EntryIn(c, m, node, seek); e.value.Some? && NameMatches(name[..len], e.value.value.name).Some?
    modifies cache.Repr()
    ensures At(cache, EntryIn(c, m, node, seek).c, m, dev, nstart) && after == (seek + ENTRY_SIZE) % U32
    ensures var e := EntryIn(c, m, node, seek).value.value; NameMatches(name[..len], e.name) == Some(hit) && inode == e.inode
  {
    hide At, Sound, EntryIn, EntryLies, NameMatches, Aligned, NoNul, Keeps;
    var dir;
    after, dir := NextFile(cache, dev, nstart, node, seek, c, m);
    inode := dir.inode;
    var memory: seq<bv8> := *;
    memory := memory + seq(len + 1, _ => 0);
    hit := EntryMatches(name, len, dir, memory);
  }

  ghost function ScanFirst(c: Cache<BlockBuffer>, m: Device, node: PyIndexNode, comp: seq<bv8>): Reading<BlockBuffer, nat>
    requires Sound(c)
  {
    ScanIn(c, m, node, comp, 0)
  }

  lemma ScanTurn(c: Cache<BlockBuffer>, m: Device, node: PyIndexNode, comp: seq<bv8>, seek: nat)
    requires Sound(c) && seek < FileSize(node) && seek < U32 && Aligned(seek)
    requires ScanIn(c, m, node, comp, seek).value.Some?
    ensures var e := EntryIn(c, m, node, seek);
            && e.value.Some? && NameMatches(comp, e.value.value.name).Some? && Sound(e.c)
            && Aligned(seek + ENTRY_SIZE)
            && if NameMatches(comp, e.value.value.name).value
               then ScanIn(c, m, node, comp, seek) == With(e, Some(e.value.value.inode))
               else seek + ENTRY_SIZE < U32 &&
                    ScanIn(c, m, node, comp, seek) == Then(e, ScanIn(e.c, m, node, comp, seek + ENTRY_SIZE))
  {
    hide Sound, EntryIn, FileSize, NameMatches, Aligned, Keeps;
    EntryFits(seek);
  }

  lemma ScanOver(c: Cache<BlockBuffer>, m: Device, node: PyIndexNode, comp: seq<bv8>, seek: nat)
    requires Sound(c) && FileSize(node) <= seek < U32 && Aligned(seek)
    ensures ScanIn(c, m, node, comp, seek).value == Some(0) && ScanIn(c, m, node, comp, seek).c == c
  {
  }

  lemma AlignedFirst()
    ensures Aligned(0)
  {
  }

  // _search_file's loop over the entries of a directory.
  method ScanEntries(cache: BlockCache, dev: nat, nstart: nat, node: PyIndexNode, name: seq<bv8>, len: nat,
                     ghost c: Cache<BlockBuffer>, ghost m: Device)
    returns (found: nat)
    requires At(cache, c, m, dev, nstart) && Sound(c)
    requires len <= |name| && NoNul(name) && ScanFirst(c, m, node, name[..len]).value.Some?
    modifies cache.Repr()
    ensures At(cache, ScanFirst(c, m, node, name[..len]).c, m, dev, nstart)
    ensures found == ScanFirst(c, m, node, name[..len]).value.value
  {
    AlignedFirst();
    hide At, Sound, EntryIn, ScanIn, FileSize, NoNul, Aligned, Keeps, NameMatches;
    ghost var comp, d := name[..len], c;
    var seek, size := 0, FileSize(node);
    ghost var answer := ScanIn(c, m, node, comp, seek);
    while seek < size
      invariant Sound(d) && At(cache, d, m, dev, nstart) && Aligned(seek) && seek < U32
      invariant ScanIn(d, m, node, comp, seek).value == answer.value && ScanIn(d, m, node, comp, seek).c == answer.c
      decreases U32 - seek
    {
      hide At, Sound, EntryIn, ScanIn, FileSize, NoNul, Aligned, Keeps, NameMatches;
      ScanTurn(d, m, node, comp, seek);
      var hit, inode, after := TryEntry(cache, dev, nstart, node, name, len, seek, d, m);
      d := EntryIn(d, m, node, seek).c;
      if hit {
        return inode;
      }
      seek := after;
    }
    ScanOver(d, m, node, comp, seek);
    return 0;
  }

  // _search_file: name[..len] in the directory held in node.
  method SearchFile(cache: BlockCache, dev: nat, nstart: nat, node: PyIndexNode, name: seq<bv8>, len: nat,
                    ghost c: Cache<BlockBuffer>, ghost m: Device)
    returns (found: nat)
    requires At(cache, c, m, dev, nstart) && Sound(c)
    requires len <= |name| && NoNul(name) && SearchIn(c, m, node, name[..len]).value.Some?
    modifies cache.Repr()
    ensures At(cache, SearchIn(c, m, node, name[..len]).c, m, dev, nstart)
    ensures found == SearchIn(c, m, node, name[..len]).value.value
  {
    AlignedFirst();
    hide At, Sound, ScanIn, Aligned, Keeps, NoNul;
    if IsDir(Mode(node)) {
      found := ScanEntries(cache, dev, nstart, node, name, len, c, m);
    } else {
      found := 0;
    }
  }

  // A method that starts from c on the table's cache, for one of its devices.
  ghost predicate On(table: InodeTable, c: Cache<BlockBuffer>, m: Device, dev: nat)
    reads table, table.nodes, table.cache.Repr()
  {
    table.Valid() && At(table.cache, c, m, dev, table.nstart)
  }

  // The file system on a table's device.
  ghost function FilesOf(table: InodeTable, m: Device): Files
    reads table`ihash
  {
    Files(m, table.inodeBegin, set k | k in table.ihash && k.0 == m.dev :: k.1)
  }

  // get_inode in name_to_inode.
  method FetchNode(table: InodeTable, dev: nat, work: nat, ghost c: Cache<BlockBuffer>, ghost f: Files)
    returns (node: IndexNode)
    requires On(table, c, f.m, dev) && f == FilesOf(table, f.m) && Sound(c) && work < U16
    requires GetIn(c, f, work).value.Some?
    modifies table, table.nodes, table.cache.Repr()
    ensures On(table, GetIn(c, f, work).c, f.m, dev)
    ensures (dev, work) !in old(table.ihash) && table.ihash == old(table.ihash)[(dev, work) := node]
    ensures table.nodes == old(table.nodes) + {node} && (fresh(node) || node in old(table.nodes))
    ensures node.inode == GetIn(c, f, work).value.value
  {
    GetInEffect(c, f, work);
    assert (dev, work) !in table.ihash;
    hide InodeTable.Valid, Serviceable, Available, InodeIn, Borrowed, GetIn, BlockCache.View, InodeBlock;
    node := table.GetInode(dev, work, f.Home(work), c);
  }

  lemma GetInEffect(c: Cache<BlockBuffer>, f: Files, idx: nat)
    requires Sound(c) && idx < U16 && GetIn(c, f, idx).value.Some?
    ensures idx !in f.busy && Available(c, f.Home(idx)) && GetIn(c, f, idx).c == Borrowed(c, f.Home(idx), f.m.image)
  {
  }

  // _search_file while the directory's inode is held.
  method SearchHeld(table: InodeTable, dev: nat, node: IndexNode, name: seq<bv8>, len: nat,
                    ghost c: Cache<BlockBuffer>, ghost m: Device)
    returns (found: nat)
    requires On(table, c, m, dev) && Sound(c)
    requires len <= |name| && NoNul(name) && SearchIn(c, m, node.inode, name[..len]).value.Some?
    modifies table.cache.Repr()
    ensures On(table, SearchIn(c, m, old(node.inode), name[..len]).c, m, dev)
    ensures table.ihash == old(table.ihash) && table.nodes == old(table.nodes) && node.inode == old(node.inode)
    ensures found == SearchIn(c, m, old(node.inode), name[..len]).value.value
  {
    hide InodeTable.Valid, At, Sound, SearchIn, NoNul;
    table.Unrelated(table.cache);
    found := SearchFile(table.cache, dev, table.nstart, node.inode, name, len, c, m);
  }

  // release_inode in name_to_inode.
  method GiveBack(table: InodeTable, dev: nat, work: nat, node: IndexNode, ghost c: Cache<BlockBuffer>, ghost f: Files,
                  ghost answer: nat)
    requires On(table, c, f.m, dev) && f.inodeBegin == table.inodeBegin && work < U16
    requires (dev, work) in table.ihash && table.ihash[(dev, work)] == node
    requires f.Home(work).blk < MAX_BLK && Available(c, f.Home(work))
    modifies table, table.nodes, table.cache.Repr()
    ensures On(table, PutIn(c, f, work, old(node.inode), answer).c, f.m, dev)
    ensures table.ihash == old(table.ihash) - {(dev, work)} && table.nodes == old(table.nodes)
  {
    StoredSlots(c, f.Home(work), f.m.image, InodeSlot(work), node.inode);
    hide InodeTable.Valid, BlockCache.Valid, Sound, Available, Stored, Quiet, InodeIn, OthersSame, BlockCache.View, InodeBlock;
    table.ReleaseInode(node, f.Home(work), work, c);
  }

  // One turn of name_to_inode's loop: get_inode, _search_file, release_inode.
  method StepInto(table: InodeTable, dev: nat, work: nat, name: seq<bv8>, len: nat,
                  ghost c: Cache<BlockBuffer>, ghost f: Files)
    returns (next: nat, ghost node: IndexNode)
    requires On(table, c, f.m, dev) && f == FilesOf(table, f.m) && Sound(c) && work < U16
    requires len <= |name| && NoNul(name) && ChildIn(c, f, work, name[..len]).value.Some?
    modifies table, table.nodes, table.cache.Repr()
    ensures On(table, ChildIn(c, f, work, name[..len]).c, f.m, dev) && table.ihash == old(table.ihash)
    ensures table.nodes == old(table.nodes) + {node} && (fresh(node) || node in old(table.nodes))
    ensures next == ChildIn(c, f, work, name[..len]).value.value
  {
    ChildInSteps(c, f, work, name[..len]);
    assert f.inodeBegin == table.inodeBegin;
    hide On, Sound, GetIn, SearchIn, PutIn, ChildIn, Keeps, NoNul, Available, InodeIn, FilesOf;
    ghost var g, resident := GetIn(c, f, work), table.ihash;
    var dir := FetchNode(table, dev, work, c, f);
    node := dir;
    next := SearchHeld(table, dev, dir, name, len, g.c, f.m);
    GiveBack(table, dev, work, dir, SearchIn(g.c, f.m, g.value.value, name[..len]).c, f, next);
    InAndOut(resident, (dev, work), dir);
  }

  lemma ChildInSteps(c: Cache<BlockBuffer>, f: Files, work: nat, comp: seq<bv8>)
    requires Sound(c) && work < U16 && ChildIn(c, f, work, comp).value.Some?
    ensures var g := GetIn(c, f, work);
            && g.value.Some?
            && var s := SearchIn(g.c, f.m, g.value.value, comp);
            && s.value.Some? && Available(s.c, f.Home(work)) && f.Home(work).blk < MAX_BLK
            && ChildIn(c, f, work, comp).c == PutIn(s.c, f, work, g.value.value, s.value.value).c
            && ChildIn(c, f, work, comp).value == s.value
  {
    hide Sound, GetIn, SearchIn, PutIn, Keeps, Available, InodeIn, Files.Home;
    if GetIn(c, f, work).value.Some? { StillThere(c, f, work, comp); }
  }

  lemma InAndOut<K, T>(m: map<K, T>, k: K, x: T)
    requires k !in m
    ensures m[k := x] - {k} == m
  {
  }

  const ROOT_DEVICE: nat := 0

  // From working inode and cache, the rest of the walk ends at this inode with this cache.
  ghost predicate WalkEnds(c: Cache<BlockBuffer>, f: Files, work: nat, name: seq<bv8>, goal: nat, last: Cache<BlockBuffer>) {
    Sound(c) && work < U16 && WalkIn(c, f, work, name).value == Some(goal) && WalkIn(c, f, work, name).c == last
  }

  // The state of name_to_inode's loop.
  ghost predicate Following(table: InodeTable, dev: nat, c: Cache<BlockBuffer>, f: Files, work: nat, name: seq<bv8>,
                            goal: nat, last: Cache<BlockBuffer>)
    reads table, table.nodes, table.cache.Repr()
  {
    && On(table, c, f.m, dev) && f == FilesOf(table, f.m)
    && NoNul(name) && WalkEnds(c, f, work, name, goal, last)
  }

  // The body of name_to_inode's loop.
  method PathTurn(table: InodeTable, dev: nat, work: nat, name: seq<bv8>, ghost c: Cache<BlockBuffer>, ghost f: Files,
                  ghost goal: nat, ghost last: Cache<BlockBuffer>)
    returns (work': nat, name': seq<bv8>, ghost c': Cache<BlockBuffer>, ghost node: IndexNode)
    requires name != [] && Following(table, dev, c, f, work, name, goal, last)
    modifies table, table.nodes, table.cache.Repr()
    ensures |name'| < |name| && Following(table, dev, c', f, work', name', goal, last)
    ensures table.ihash == old(table.ihash)
    ensures table.nodes == old(table.nodes) + {node} && (fresh(node) || node in old(table.nodes))
  {
    WalkTurn(c, f, work, name, goal, last);
    hide On, Sound, ChildIn, WalkEnds, Keeps, FirstSlash, FilesOf, NoNul, Rest;
    var next := Cut(table, name, c, f.m, dev);
    work', node := StepInto(table, dev, work, name, next, c, f);
    c' := ChildIn(c, f, work, name[..next]).c;
    name' := Skip(name, next);
    assert |name'| < |name| && NoNul(name') && WalkEnds(c', f, work', name', goal, last);
  }

  // The end of the loop's body: on to the character behind the slash, or to the end.
  function Skip(name: seq<bv8>, next: nat): (r: seq<bv8>)
    requires name != [] && next == FirstSlash(name)
    ensures r == Rest(name) && (NoNul(name) ==> NoNul(r))
  {
    if next < |name| then name[next + 1..] else name[next..]
  }

  // strstr in name_to_inode.
  method Cut(table: InodeTable, name: seq<bv8>, ghost c: Cache<BlockBuffer>, ghost m: Device, ghost dev: nat)
    returns (next: nat)
    requires On(table, c, m, dev)
    ensures On(table, c, m, dev) && next == FirstSlash(name)
  {
    CacheAllocated(table.cache);
    hide On, FirstSlash;
    next := StrStrSlash(name);
  }

  lemma WalkTurn(c: Cache<BlockBuffer>, f: Files, work: nat, name: seq<bv8>, goal: nat, last: Cache<BlockBuffer>)
    requires name != [] && WalkEnds(c, f, work, name, goal, last)
    ensures Sound(c) && work < U16
    ensures var d := ChildIn(c, f, work, name[..FirstSlash(name)]);
            d.value.Some? && WalkEnds(d.c, f, d.value.value, Rest(name), goal, last)
  {
    hide Sound, ChildIn, Keeps, FirstSlash, Rest;
  }

  // name_to_inode's loop over the components, from a working inode.
  method FollowPath(table: InodeTable, dev: nat, start: nat, path: seq<bv8>, ghost c0: Cache<BlockBuffer>, ghost f: Files,
                    ghost goal: nat, ghost last: Cache<BlockBuffer>)
    returns (work: nat)
    requires Following(table, dev, c0, f, start, path, goal, last)
    modifies table, table.nodes, table.cache.Repr()
    ensures On(table, last, f.m, dev) && table.ihash == old(table.ihash) && work == goal
  {
    hide Following;
    var name := path;
    ghost var c := c0;
    work := start;
    while name != []
      invariant Following(table, dev, c, f, work, name, goal, last) && table.ihash == old(table.ihash)
      invariant old(table.nodes) <= table.nodes && fresh(table.nodes - old(table.nodes))
      decreases |name|
    {
      hide Following;
      ghost var node;
      work, name, c, node := PathTurn(table, dev, work, name, c, f, goal, last);
    }
    Arrived(table, dev, c, f, work, goal, last);
  }

  lemma Arrived(table: InodeTable, dev: nat, c: Cache<BlockBuffer>, f: Files, work: nat, goal: nat, last: Cache<BlockBuffer>)
    requires Following(table, dev, c, f, work, [], goal, last)
    ensures On(table, last, f.m, dev) && work == goal
  {
  }

  // name_to_inode.  A name that begins with a slash is followed from inode 1 of device 0, any other from the current
  // inode.
  method NameToInode(table: InodeTable, name: seq<bv8>, curInode: nat, curDev: nat,
                     ghost c: Cache<BlockBuffer>, ghost f: Files)
    returns (work: nat)
    requires On(table, c, f.m, if name != [] && name[0] == 47 then 0 else curDev) && f == FilesOf(table, f.m) && Sound(c)
    requires curInode < U16 && NoNul(name)
    requires if name != [] && name[0] == 47 then WalkIn(c, f, 1, name[1..]).value.Some?
             else WalkIn(c, f, curInode, name).value.Some?
    modifies table, table.nodes, table.cache.Repr()
    ensures var r := if name != [] && name[0] == 47 then WalkIn(c, f, 1, name[1..]) else WalkIn(c, f, curInode, name);
            table.cache.View() == r.c && Some(work) == r.value
    ensures Clean(c, f.m.image) ==>
              var fs := Fs(VolumeOf(c, f.m), f.inodeBegin, f.busy);
              Some(work) == if name != [] && name[0] == 47 then FoldLeft(fs, Some(1), Components(name[1..]))
                            else FoldLeft(fs, Some(curInode), Components(name))
    ensures table.Valid() && Serviceable(table.cache) && table.ihash == old(table.ihash)
  {
    hide Serviceable, InodeTable.Valid, WalkIn, FilesOf, Sound, FoldLeft, Components, Clean, VolumeOf;
    FreeFound(c);
    if name != [] && name[0] == SLASH {
      ghost var r := WalkIn(c, f, 1, name[1..]);
      if Clean(c, f.m.image) { CleanFold(c, f, 1, name[1..]); }
      work := FollowPath(table, ROOT_DEVICE, ROOT_INODE, name[1..], c, f, r.value.value, r.c);
    } else {
      ghost var r := WalkIn(c, f, curInode, name);
      if Clean(c, f.m.image) { CleanFold(c, f, curInode, name); }
      work := FollowPath(table, curDev, curInode, name, c, f, r.value.value, r.c);
    }
  }
}
