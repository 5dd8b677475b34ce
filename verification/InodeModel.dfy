/** Inodes and directories as bytes on the volume: minixfs/inodes.c, inodes.h and path.h. */
module InodeModel {
  import opened Machine
  import opened ZoneTree

  const INODE_SIZE: nat := 64          // sizeof(struct PyIndexNode)
  const PER_BLOCK_INODES: nat := 16
  const ENTRY_SIZE: nat := 32          // sizeof(struct Direction)
  const FILENAME_LEN: nat := 30

  type PyIndexNode = s: seq<bv8> | |s| == INODE_SIZE witness seq(INODE_SIZE, _ => 0)

  // The i-th inode of an inode-table block.
  function Slot(d: Block, i: nat): PyIndexNode
    requires i < PER_BLOCK_INODES
  {
    d[INODE_SIZE * i..INODE_SIZE * i + INODE_SIZE]
  }

  // The block after memcpy of an inode into slot i.
  function Patch(d: Block, i: nat, node: PyIndexNode): Block
    requires i < PER_BLOCK_INODES
  {
    d[..INODE_SIZE * i] + node + d[INODE_SIZE * i + INODE_SIZE..]
  }

  /** Writing one inode back makes it readable and leaves the other fifteen of the block alone. */
  lemma PatchedSlots(d: Block, i: nat, node: PyIndexNode)
    requires i < PER_BLOCK_INODES
    ensures Slot(Patch(d, i, node), i) == node
    ensures forall j :: 0 <= j < PER_BLOCK_INODES && j != i ==> Slot(Patch(d, i, node), j) == Slot(d, j)
    ensures node == Slot(d, i) ==> Patch(d, i, node) == d
  {
  }

  function Word16(b0: bv8, b1: bv8): (w: nat)
    ensures w < U16
  {
    Num(b0) + 0x100 * Num(b1)
  }

  function Mode(n: PyIndexNode): nat {
    Word16(n[0], n[1])
  }

  function FileSize(n: PyIndexNode): nat {
    LittleEndian(n[8], n[9], n[10], n[11])
  }

  function ZoneNumbers(n: PyIndexNode): (zs: seq<nat>)
    ensures |zs| == NUMBER_ZONE
  {
    seq(NUMBER_ZONE, i requires 0 <= i < NUMBER_ZONE =>
      LittleEndian(n[24 + 4 * i], n[25 + 4 * i], n[26 + 4 * i], n[27 + 4 * i]))
  }

  // S_ISDIR: the four type bits are 0040000.
  predicate IsDir(mode: nat) {
    mode / 0x1000 % 16 == 4
  }

  lemma IsDirBits(high: bv8, low: nat)
    requires low < 0x100
    ensures IsDir(0x100 * (high as nat) + low) <==> high & 0xF0 == 0x40
  {
    HighNibble(high);
    Sixteenths(high as nat, low);
  }

  lemma HighNibble(high: bv8)
    ensures high & 0xF0 == 0x40 <==> high as nat / 16 == 4
  {
  }

  lemma Sixteenths(high: nat, low: nat)
    requires high < 0x100 && low < 0x100
    ensures (0x100 * high + low) / 0x1000 % 16 == high / 16
  {
  }

  lemma Word16Iff(s: seq<bv8>, w: nat)
    requires |s| == 2
    ensures Word16(s[0], s[1]) == w <==> IsBytes(s, w)
  {
    hide IsBytes, Total, Num;
    BytesIff(s, w);
    TotalOnce(s);
    TotalOnce(s[1..]);
    TotalOnce([]);
    assert s[1..][1..] == [];
  }

  /** An inode written out field after field, in the order and with the widths of struct PyIndexNode, each with its lowest
      byte first, reads back as those fields. */
  lemma InodeReadsBack(mode: seq<bv8>, links: seq<bv8>, owner: seq<bv8>, group: bv8, padding: bv8, size: seq<bv8>,
                       atime: seq<bv8>, mtime: seq<bv8>, ctime: seq<bv8>, zones: seq<bv8>, m: nat, n: nat, zs: seq<nat>)
    requires |mode| == |links| == |owner| == 2 && |size| == |atime| == |mtime| == |ctime| == 4 && |zones| == 40
    requires IsBytes(mode, m) && IsBytes(size, n)
    requires |zs| == 10 && forall i :: 0 <= i < 10 ==> IsBytes(zones[4 * i..4 * i + 4], zs[i])
    ensures var node: PyIndexNode :=
              mode + links + owner + [group, padding] + size + atime + mtime + ctime + zones;
            Mode(node) == m && FileSize(node) == n && ZoneNumbers(node) == zs
  {
    hide IsBytes, LittleEndian, Word16;
    var node: PyIndexNode := mode + links + owner + [group, padding] + size + atime + mtime + ctime + zones;
    Word16Iff(mode, m);
    LittleEndianIff(size, n);
    forall i | 0 <= i < 10 ensures ZoneNumbers(node)[i] == zs[i] {
      LittleEndianIff(zones[4 * i..4 * i + 4], zs[i]);
    }
  }

  /** A directory entry, written out as its inode number, lowest byte first, and its name, reads back at its offset. */
  lemma EntryReadsBack(before: seq<bv8>, inode: seq<bv8>, name: seq<bv8>, after: seq<bv8>, k: nat)
    requires |inode| == 2 && |name| == 30 && |before| + 32 + |after| == 1024 && IsBytes(inode, k)
    ensures EntryAt(before + inode + name + after, |before|) == Direction(k, name)
  {
    hide IsBytes, Word16;
    Word16Iff(inode, k);
    var d := before + inode + name + after;
    assert d[|before|] == inode[0] && d[|before| + 1] == inode[1];
    assert d[|before| + 2..|before| + 32] == name;
  }

  // Where get_inode and release_inode find inode idx.  The index is 16 bits wide; idx - 1 wraps for 0.
  function InodeBlock(inodeBegin: nat, idx: nat): nat
    requires idx < U16
  {
    ((idx - 1) % U32 / PER_BLOCK_INODES + inodeBegin) % U32
  }

  function InodeSlot(idx: nat): (i: nat)
    requires idx < U16
    ensures i < PER_BLOCK_INODES
  {
    (idx - 1) % U32 % PER_BLOCK_INODES
  }

  /** Inode numbers count from 1: inode idx lies 64 * (idx - 1) bytes into the inode table. */
  lemma InodePlace(inodeBegin: nat, idx: nat)
    requires 1 <= idx < U16
    ensures var x := 64 * (idx - 1);
            && InodeBlock(inodeBegin, idx) == (inodeBegin + x / 1024) % 0x1_0000_0000
            && 64 * InodeSlot(idx) == x % 1024
    ensures inodeBegin + 0x1000 <= U32 ==>
              && InodeBlock(inodeBegin, idx) >= inodeBegin
              && (InodeBlock(inodeBegin, idx) - inodeBegin) * 16 + InodeSlot(idx) == idx - 1
  {
    var q, r := (idx - 1) / 16, (idx - 1) % 16;
    SmallNumber(idx - 1);
    assert 64 * (idx - 1) == 1024 * q + 64 * r;
  }

  lemma SmallNumber(n: nat)
    requires n < U16
    ensures n % U32 == n && n / 16 < 0x1000
  {
  }

  /** Two inodes never lie at the same place. */
  lemma InodesApart(inodeBegin: nat, idx: nat, jdx: nat)
    requires idx < U16 && jdx < U16 && idx != jdx
    ensures InodeBlock(inodeBegin, idx) != InodeBlock(inodeBegin, jdx) || InodeSlot(idx) != InodeSlot(jdx)
  {
    var m, n := (idx - 1) % U32, (jdx - 1) % U32;
    assert m != n && m == 16 * (m / 16) + m % 16 && n == 16 * (n / 16) + n % 16;
    if m % 16 == n % 16 { OffsetsApart(inodeBegin, m / 16, n / 16); }
  }

  lemma OffsetsApart(b: nat, m: nat, n: nat)
    requires m < U32 && n < U32 && m != n
    ensures (m + b) % U32 != (n + b) % U32
  {
    SameRemainder(m + b, n + b);
  }

  lemma SameRemainder(x: nat, y: nat)
    ensures x % U32 == y % U32 ==> x == y || x >= y + U32 || y >= x + U32
  {
  }

  // The file system as a reader finds it: its volume, where the inode table begins, and the inodes that
  // are resident and locked, on which get_inode would wait forever.
  datatype Fs = Fs(vol: Volume, inodeBegin: nat, busy: set<nat>) {
    function ReadInode(idx: nat): Option<PyIndexNode>
      requires idx < U16
    {
      if idx in busy then None
      else
        var d :- vol.Read(InodeBlock(inodeBegin, idx));
        Some(Slot(d, InodeSlot(idx)))
    }
  }

  datatype Direction = Direction(inode: nat, name: seq<bv8>)

  function EntryAt(d: Block, off: nat): (e: Direction)
    requires off + ENTRY_SIZE <= BLOCK_SIZE
    ensures |e.name| == FILENAME_LEN && e.inode < U16
  {
    Direction(Word16(d[off], d[off + 1]), d[off + 2..off + ENTRY_SIZE])
  }

  // A byte position at which a directory entry begins.
  predicate Aligned(seek: nat) {
    seek % ENTRY_SIZE == 0
  }

  // _next_file: the directory entry at a byte position.
  function EntryOf(vol: Volume, node: PyIndexNode, seek: nat): (r: Option<Direction>)
    requires seek < U32 && Aligned(seek)
    ensures r.Some? ==> |r.value.name| == FILENAME_LEN && r.value.inode < U16
  {
    var blk :- ZoneBlock(vol, ZoneNumbers(node), seek);
    var d :- vol.Read(blk);
    EntryFits(seek);
    Some(EntryAt(d, seek % BLOCK_SIZE))
  }

  lemma EntryFits(seek: nat)
    requires Aligned(seek)
    ensures seek % BLOCK_SIZE + ENTRY_SIZE <= BLOCK_SIZE && Aligned(seek + ENTRY_SIZE)
  {
  }

  // strncmp(component, name, len) == 0.  Beyond the name's 30 bytes the comparison runs on into memory the
  // volume does not determine.
  function NameMatches(comp: seq<bv8>, name: seq<bv8>): Option<bool>
    requires |name| == FILENAME_LEN
  {
    if |comp| > FILENAME_LEN && name <= comp then None else Some(comp <= name)
  }

  // _search_file's loop from a position on: the first entry with the component as a prefix of its name.  None
  // where an entry cannot be read or compared, or the 32-bit position wraps around before the end.
  function Scan(vol: Volume, node: PyIndexNode, comp: seq<bv8>, seek: nat): (r: Option<nat>)
    requires Aligned(seek) && seek < U32
    ensures r.Some? ==> r.value < U16
    decreases U32 - seek
  {
    if seek >= FileSize(node) then Some(0)
    else
      var e :- EntryOf(vol, node, seek);
      var hit :- NameMatches(comp, e.name);
      if hit then Some(e.inode)
      else if seek + ENTRY_SIZE < U32 then Scan(vol, node, comp, seek + ENTRY_SIZE)
      else None
  }

  // _search_file
  function Search(vol: Volume, node: PyIndexNode, comp: seq<bv8>): (r: Option<nat>)
    ensures r.Some? ==> r.value < U16
  {
    if IsDir(Mode(node)) then Scan(vol, node, comp, 0) else Some(0)
  }

  // Entry k of a directory has the component as a prefix of its name.
  predicate Matches(vol: Volume, node: PyIndexNode, comp: seq<bv8>, k: nat)
    requires ENTRY_SIZE * k < U32
  {
    var e := EntryOf(vol, node, ENTRY_SIZE * k);
    e.Some? && comp <= e.value.name
  }

  // One turn of the loop, in terms of entry numbers.
  lemma ScanStep(vol: Volume, node: PyIndexNode, comp: seq<bv8>, k: nat)
    requires ENTRY_SIZE * k < FileSize(node)
    requires Scan(vol, node, comp, ENTRY_SIZE * k).Some?
    ensures EntryOf(vol, node, ENTRY_SIZE * k).Some?
    ensures if Matches(vol, node, comp, k)
            then Scan(vol, node, comp, ENTRY_SIZE * k).value == EntryOf(vol, node, ENTRY_SIZE * k).value.inode
            else ENTRY_SIZE * (k + 1) < U32 &&
                 Scan(vol, node, comp, ENTRY_SIZE * (k + 1)) == Scan(vol, node, comp, ENTRY_SIZE * k)
  {
    hide EntryOf, FileSize;
  }

  lemma ScanEnd(vol: Volume, node: PyIndexNode, comp: seq<bv8>, k: nat)
    requires FileSize(node) <= ENTRY_SIZE * k < U32
    ensures Scan(vol, node, comp, ENTRY_SIZE * k) == Some(0) && NoMatch(vol, node, comp, k)
  {
  }

  // Either entry m is the first match from k on, or there is none.
  lemma {:induction false} ScanFindsFirst(vol: Volume, node: PyIndexNode, comp: seq<bv8>, k: nat)
    returns (found: bool, m: nat)
    requires ENTRY_SIZE * k < U32 && Scan(vol, node, comp, ENTRY_SIZE * k).Some?
    ensures var r := Scan(vol, node, comp, ENTRY_SIZE * k).value;
            if found then FirstMatch(vol, node, comp, k, m, r) else NoMatch(vol, node, comp, k) && r == 0
    decreases U32 - ENTRY_SIZE * k
  {
    hide EntryOf, Scan, Matches;
    found, m := false, k;
    if ENTRY_SIZE * k >= FileSize(node) {
      ScanEnd(vol, node, comp, k);
    } else {
      ScanStep(vol, node, comp, k);
      if Matches(vol, node, comp, k) {
        found := true;
      } else {
        found, m := ScanFindsFirst(vol, node, comp, k + 1);
        EarlierMismatch(vol, node, comp, k, m, Scan(vol, node, comp, ENTRY_SIZE * k).value);
      }
    }
  }

  lemma EarlierMismatch(vol: Volume, node: PyIndexNode, comp: seq<bv8>, k: nat, m: nat, r: nat)
    requires ENTRY_SIZE * k < U32 && !Matches(vol, node, comp, k)
    ensures FirstMatch(vol, node, comp, k + 1, m, r) ==> FirstMatch(vol, node, comp, k, m, r)
    ensures NoMatch(vol, node, comp, k + 1) ==> NoMatch(vol, node, comp, k)
  {
  }

  // Entry m is the first from k on that matches, and names inode r.
  ghost predicate FirstMatch(vol: Volume, node: PyIndexNode, comp: seq<bv8>, k: nat, m: nat, r: nat) {
    && k <= m && ENTRY_SIZE * m < FileSize(node)
    && Matches(vol, node, comp, m) && EntryOf(vol, node, ENTRY_SIZE * m).value.inode == r
    && forall j :: k <= j < m ==> !Matches(vol, node, comp, j)
  }

  ghost predicate NoMatch(vol: Volume, node: PyIndexNode, comp: seq<bv8>, k: nat) {
    forall j :: k <= j && ENTRY_SIZE * j < FileSize(node) ==> !Matches(vol, node, comp, j)
  }

  /** A directory search answers with the inode of the first entry, in a directory of any size, whose name
      has the component as a prefix; with 0 when there is none, or when it is no directory. */
  lemma SearchFindsFirstPrefix(vol: Volume, node: PyIndexNode, comp: seq<bv8>)
    requires Search(vol, node, comp).Some?
    ensures var r := Search(vol, node, comp).value;
            if IsDir(Mode(node)) then
              (exists m :: FirstMatch(vol, node, comp, 0, m, r)) || (NoMatch(vol, node, comp, 0) && r == 0)
            else r == 0
  {
    if IsDir(Mode(node)) {
      var found, m := ScanFindsFirst(vol, node, comp, 0);
    }
  }
}
