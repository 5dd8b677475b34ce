/**
 A file's index tree (minixfs/zones.c): seven direct zones, then a single, a double and a triple indirect
 block, each indirect block holding 256 little-endian block numbers relative to the partition start.
 */
module ZoneTree {
  import opened Machine
  import opened AtaRegisters

  const BLOCK_LOG_SIZE: nat := 10
  const DIRECT_ZONE: nat := 7
  const NUMBER_ZONE: nat := 10
  const INDIRECT_ZONES: nat := 256
  const DINDIRECT_ZONES: nat := 65536
  const TINDIRECT_ZONES: nat := 16777216

  // What of the volume can be read: its blocks, less those a client is holding.
  datatype Volume = Volume(image: Image, pinned: set<nat>, nstart: nat) {
    function Read(blk: nat): Option<Block> {
      if blk < MAX_BLK && blk !in pinned then Some(image(blk)) else None
    }

    // The block a zone number names, relative to the start of the partition.
    function Blk(zone: nat): nat {
      (nstart + zone) % U32
    }

    function Zone(zone: nat): Option<Block> {
      Read(Blk(zone))
    }
  }

  function Word(d: Block, i: nat): (w: nat)
    requires i < INDIRECT_ZONES
    ensures w < U32
  {
    LittleEndian(d[4 * i], d[4 * i + 1], d[4 * i + 2], d[4 * i + 3])
  }

  function Num(b: bv8): (n: nat)
    ensures n < 0x100
  {
    b as nat
  }

  function LittleEndian(b0: bv8, b1: bv8, b2: bv8, b3: bv8): (w: nat)
    ensures w < U32
  {
    Num(b0) + 0x100 * Num(b1) + 0x1_0000 * Num(b2) + 0x100_0000 * Num(b3)
  }

  // s holds the bytes of the number w, the lowest first.
  ghost predicate IsBytes(s: seq<bv8>, w: nat) {
    if s == [] then w == 0 else s[0] as nat == w % 256 && IsBytes(s[1..], w / 256)
  }

  /** Entry i of an index block is w exactly if bytes 4 * i to 4 * i + 3 are those of w, the lowest first. */
  lemma EntryIff(d: Block, i: nat, w: nat)
    requires i < INDIRECT_ZONES
    ensures Word(d, i) == w <==> IsBytes(d[4 * i..4 * i + 4], w)
  {
    LittleEndianIff(d[4 * i..4 * i + 4], w);
  }

  lemma LittleEndianIff(s: seq<bv8>, w: nat)
    requires |s| == 4
    ensures LittleEndian(s[0], s[1], s[2], s[3]) == w <==> IsBytes(s, w)
  {
    hide IsBytes, Total, LittleEndian;
    BytesIff(s, w);
    LittleEndianTotal(s);
  }

  lemma LittleEndianTotal(s: seq<bv8>)
    requires |s| == 4
    ensures Total(s) == LittleEndian(s[0], s[1], s[2], s[3])
  {
    hide Total, Num;
    TotalOnce(s);
    TotalOnce(s[1..]);
    TotalOnce(s[2..]);
    TotalOnce(s[3..]);
    TotalOnce([]);
    assert s[1..][1..] == s[2..] && s[2..][1..] == s[3..] && s[3..][1..] == [];
  }

  lemma TotalOnce(s: seq<bv8>)
    ensures Total(s) == if s == [] then 0 else Num(s[0]) + 256 * Total(s[1..])
  {
  }

  function Total(s: seq<bv8>): nat {
    if s == [] then 0 else Num(s[0]) + 256 * Total(s[1..])
  }

  // Bytes are those of one number only.
  lemma {:induction false} BytesIff(s: seq<bv8>, w: nat)
    ensures IsBytes(s, w) <==> w == Total(s)
  {
    if s != [] {
      BytesIff(s[1..], w / 256);
      LowByte(w, s[0] as nat, Total(s[1..]));
    }
  }

  lemma LowByte(w: nat, r: nat, q: nat)
    requires r < 256
    ensures w % 256 == r && w / 256 == q <==> w == r + 256 * q
  {
  }

  // ----- What get_zone computes -----

  // The index path: which entry of the inode, then the entry to follow in each indirect block.
  datatype Path = Path(root: nat, steps: seq<nat>)

  function PathOf(zone: nat): Option<Path> {
    if zone < DIRECT_ZONE then Some(Path(zone, []))
    else if zone < DIRECT_ZONE + INDIRECT_ZONES then
      Some(Path(DIRECT_ZONE, [zone - DIRECT_ZONE]))
    else if zone < DIRECT_ZONE + INDIRECT_ZONES + DINDIRECT_ZONES then
      var n := zone - DIRECT_ZONE - INDIRECT_ZONES;
      Some(Path(DIRECT_ZONE + 1, [n / INDIRECT_ZONES, n % INDIRECT_ZONES]))
    else if zone < DIRECT_ZONE + INDIRECT_ZONES + DINDIRECT_ZONES + TINDIRECT_ZONES then
      var n := zone - DIRECT_ZONE - INDIRECT_ZONES - DINDIRECT_ZONES;
      Some(Path(DIRECT_ZONE + 2,
                [n / DINDIRECT_ZONES, n % DINDIRECT_ZONES / INDIRECT_ZONES, n % INDIRECT_ZONES]))
    else None
  }

  // Follow the steps from a zone number through the indirect blocks.
  function Follow(v: Volume, zone: nat, steps: seq<nat>): Option<nat>
    requires forall s :: s in steps ==> s < INDIRECT_ZONES
    decreases |steps|
  {
    if steps == [] then Some(zone)
    else
      var d :- v.Zone(zone);
      assert steps[0] in steps && forall s :: s in steps[1..] ==> s in steps;
      Follow(v, Word(d, steps[0]), steps[1..])
  }

  // One step of the walk.
  lemma FollowStep(v: Volume, zone: nat, steps: seq<nat>)
    requires steps != [] && forall s :: s in steps ==> s < INDIRECT_ZONES
    ensures steps[0] < INDIRECT_ZONES && forall s :: s in steps[1..] ==> s < INDIRECT_ZONES
    ensures Follow(v, zone, steps) ==
            if v.Zone(zone).None? then None else Follow(v, Word(v.Zone(zone).value, steps[0]), steps[1..])
  {
    assert steps[0] in steps && forall s :: s in steps[1..] ==> s in steps;
    hide Volume.Zone, Word;
  }

  // get_zone: the block holding the byte; None when the walk meets a held or unaddressable index block.
  function ZoneBlock(v: Volume, zones: seq<nat>, bytesOffset: nat): Option<nat>
    requires |zones| == NUMBER_ZONE && bytesOffset < U32
  {
    OffsetsReachable(bytesOffset);
    var p := PathOf(bytesOffset / BLOCK_SIZE).value;
    var zone :- Follow(v, zones[p.root], p.steps);
    Some(v.Blk(zone))
  }

  /** Every 32-bit offset falls in a branch that assigns a block number, every step stays inside its index
      block, and the triple indirect block is entered below entry 64. */
  lemma OffsetsReachable(bytesOffset: nat)
    requires bytesOffset < U32
    ensures var p := PathOf(bytesOffset / BLOCK_SIZE);
            && p.Some? && p.value.root < NUMBER_ZONE
            && (forall s :: s in p.value.steps ==> s < INDIRECT_ZONES)
            && (p.value.root == DIRECT_ZONE + 2 ==> p.value.steps[0] < 64)
  {
  }

  // The zone a path leads to.
  function ZoneOf(p: Path): nat
    requires p.root < NUMBER_ZONE && |p.steps| == if p.root < DIRECT_ZONE then 0 else p.root - DIRECT_ZONE + 1
  {
    if p.root < DIRECT_ZONE then p.root
    else if p.root == DIRECT_ZONE then DIRECT_ZONE + p.steps[0]
    else if p.root == DIRECT_ZONE + 1 then
      DIRECT_ZONE + INDIRECT_ZONES + p.steps[0] * INDIRECT_ZONES + p.steps[1]
    else DIRECT_ZONE + INDIRECT_ZONES + DINDIRECT_ZONES
         + p.steps[0] * DINDIRECT_ZONES + p.steps[1] * INDIRECT_ZONES + p.steps[2]
  }

  /** The index path and the offset within the block determine the byte offset. */
  lemma PathDeterminesOffset(x: nat, y: nat)
    requires x < U32 && y < U32
    requires PathOf(x / BLOCK_SIZE) == PathOf(y / BLOCK_SIZE) && x % BLOCK_SIZE == y % BLOCK_SIZE
    ensures x == y
  {
    OffsetsReachable(x);
    ZoneRecovered(x / BLOCK_SIZE);
    ZoneRecovered(y / BLOCK_SIZE);
  }

  lemma ZoneRecovered(zone: nat)
    requires PathOf(zone).Some?
    ensures var p := PathOf(zone).value;
            && p.root < NUMBER_ZONE && |p.steps| == (if p.root < DIRECT_ZONE then 0 else p.root - DIRECT_ZONE + 1)
            && ZoneOf(p) == zone
  {
  }
}
