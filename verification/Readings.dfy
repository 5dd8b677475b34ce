/**
 What the file system layers read from a device through the block cache, as functions of the cache.  Every
 block is borrowed and given back, so each reading also moves the cache on; a miss in the middle may
 recycle a modified buffer, after which later reads of its block see the older contents of the disk.
 */
module Readings {
  import opened Machine
  import opened AtaRegisters
  import opened CacheModel
  import opened CacheClient
  import opened ZoneTree
  import opened InodeModel

  // A device behind the cache: the drive's contents, the device number, where its zones begin.
  datatype Device = Device(image: Image, dev: nat, nstart: nat) {
    // The block a zone number names.
    function Blk(zone: nat): nat {
      (nstart + zone) % U32
    }
  }

  // What was read, or None where the code would wait forever, share a held block or ask the drive for a
  // sector it cannot name; the cache afterwards; and whether no modified buffer was recycled on the way.
  datatype Reading<B, T> = Reading(value: Option<T>, c: Cache<B>, lossless: bool)

  // The same reading with another outcome.
  ghost function With<B, T, U>(r: Reading<B, T>, value: Option<U>): Reading<B, U> {
    Reading(value, r.c, r.lossless)
  }

  ghost function Then<B, T, U>(r: Reading<B, T>, s: Reading<B, U>): Reading<B, U> {
    Reading(s.value, s.c, r.lossless && s.lossless)
  }

  // What every reading keeps: other clients' holds, without losses every block's contents, and a clean ring,
  // which has nothing to lose.
  ghost predicate Keeps<B, T>(c: Cache<B>, r: Reading<B, T>, disk: Image)
    requires Sound(c)
  {
    && Sound(r.c) && Quiet(c, r.c)
    && (r.lossless ==> SameLogical(c, r.c, disk))
    && (Clean(c, disk) ==> r.lossless && Clean(r.c, disk))
  }

  lemma KeepsThen<B, T, U>(c: Cache<B>, r: Reading<B, T>, s: Reading<B, U>, disk: Image)
    requires Sound(c) && Keeps(c, r, disk) && Keeps(r.c, s, disk)
    ensures Keeps(c, Then(r, s), disk)
  {
  }

  lemma KeepsWith<B, T, U>(c: Cache<B>, r: Reading<B, T>, value: Option<U>, disk: Image)
    requires Sound(c) && Keeps(c, r, disk)
    ensures Keeps(c, With(r, value), disk)
  {
  }

  lemma KeepsNow<B, T>(c: Cache<B>, value: Option<T>, disk: Image)
    requires Sound(c)
    ensures Keeps(c, Reading(value, c, true), disk)
  {
  }

  // get_block, read, release_block.
  ghost function ReadIn<B>(c: Cache<B>, m: Device, blk: nat): (r: Reading<B, Block>)
    requires Sound(c)
    ensures Sound(r.c) && Keeps(c, r, m.image)
  {
    var k := Key(m.dev, blk);
    if blk < MAX_BLK && !Holding(c, k) then
      BorrowIsQuiet(c, k, m.image);
      Reading(Some(Logical(c, k, m.image)), Borrowed(c, k, m.image), Lossless(c, k, m.image))
    else
      KeepsNow<B, Block>(c, None, m.image);
      Reading(None, c, true)
  }

  // get_zone's walk through the index blocks.
  ghost function FollowIn<B>(c: Cache<B>, m: Device, zone: nat, steps: seq<nat>): (r: Reading<B, nat>)
    requires Sound(c) && forall s :: s in steps ==> s < INDIRECT_ZONES
    ensures Sound(r.c) && Keeps(c, r, m.image)
    decreases |steps|
  {
    if steps == [] then
      KeepsNow(c, Some(zone), m.image);
      Reading(Some(zone), c, true)
    else
      var d := ReadIn(c, m, m.Blk(zone));
      if d.value.None? then
        KeepsWith<B, Block, nat>(c, d, None, m.image);
        With(d, None)
      else
        assert steps[0] in steps && forall s :: s in steps[1..] ==> s in steps;
        var r := FollowIn(d.c, m, Word(d.value.value, steps[0]), steps[1..]);
        KeepsThen(c, d, r, m.image);
        Then(d, r)
  }

  // One step of the walk.
  lemma FollowInStep<B>(c: Cache<B>, m: Device, zone: nat, steps: seq<nat>)
    requires Sound(c) && steps != [] && forall s :: s in steps ==> s < INDIRECT_ZONES
    ensures steps[0] < INDIRECT_ZONES && forall s :: s in steps[1..] ==> s < INDIRECT_ZONES
    ensures var d := ReadIn(c, m, m.Blk(zone));
            FollowIn(c, m, zone, steps) ==
            if d.value.None? then With(d, None)
            else Then(d, FollowIn(d.c, m, Word(d.value.value, steps[0]), steps[1..]))
  {
    assert steps[0] in steps && forall s :: s in steps[1..] ==> s in steps;
    hide ReadIn, Sound, Word, Device.Blk;
  }

  // get_zone
  ghost function ZoneIn<B>(c: Cache<B>, m: Device, zones: seq<nat>, bytesOffset: nat): (r: Reading<B, nat>)
    requires Sound(c) && |zones| == NUMBER_ZONE && bytesOffset < U32
    ensures Sound(r.c) && Keeps(c, r, m.image)
  {
    OffsetsReachable(bytesOffset);
    var p := PathOf(bytesOffset / BLOCK_SIZE).value;
    var r := FollowIn(c, m, zones[p.root], p.steps);
    var blk: Option<nat> := if r.value.None? then None else Some(m.Blk(r.value.value));
    KeepsWith(c, r, blk, m.image);
    With(r, blk)
  }

  // _next_file
  ghost function EntryIn<B>(c: Cache<B>, m: Device, node: PyIndexNode, seek: nat): (r: Reading<B, Direction>)
    requires Sound(c) && seek < U32 && Aligned(seek)
    ensures Sound(r.c) && Keeps(c, r, m.image)
    ensures r.value.Some? ==> |r.value.value.name| == FILENAME_LEN && r.value.value.inode < U16
  {
    var z := ZoneIn(c, m, ZoneNumbers(node), seek);
    if z.value.None? then
      KeepsWith<B, nat, Direction>(c, z, None, m.image);
      With(z, None)
    else
      var d := ReadIn(z.c, m, z.value.value);
      KeepsThen(c, z, d, m.image);
      EntryFits(seek);
      var e := if d.value.None? then None else Some(EntryAt(d.value.value, seek % BLOCK_SIZE));
      KeepsWith(c, Then(z, d), e, m.image);
      With(Then(z, d), e)
  }

  // _search_file's loop.
  ghost function ScanIn<B>(c: Cache<B>, m: Device, node: PyIndexNode, comp: seq<bv8>, seek: nat): (r: Reading<B, nat>)
    requires Sound(c) && seek < U32 && Aligned(seek)
    ensures Sound(r.c) && Keeps(c, r, m.image)
    ensures r.value.Some? ==> r.value.value < U16
    decreases U32 - seek
  {
    hide Keeps, Sound, NameMatches, FileSize, EntryIn, Aligned;
    EntryFits(seek);
    if seek >= FileSize(node) then
      KeepsNow(c, Some(0), m.image);
      Reading(Some(0), c, true)
    else
      var e := EntryIn(c, m, node, seek);
      var hit := if e.value.None? then None else NameMatches(comp, e.value.value.name);
      if hit == Some(false) && seek + ENTRY_SIZE < U32 then
        var r := ScanIn(e.c, m, node, comp, seek + ENTRY_SIZE);
        KeepsThen(c, e, r, m.image);
        Then(e, r)
      else
        var found: Option<nat> := if hit == Some(true) then Some(e.value.value.inode) else None;
        KeepsWith(c, e, found, m.image);
        With(e, found)
  }

  // _search_file
  ghost function SearchIn<B>(c: Cache<B>, m: Device, node: PyIndexNode, comp: seq<bv8>): (r: Reading<B, nat>)
    requires Sound(c)
    ensures Sound(r.c) && Keeps(c, r, m.image)
    ensures r.value.Some? ==> r.value.value < U16
  {
    if IsDir(Mode(node)) then ScanIn(c, m, node, comp, 0)
    else
      KeepsNow(c, Some(0), m.image);
      Reading(Some(0), c, true)
  }

  // ----- Against the volume -----

  // v is the device as its blocks read in c, less those somebody holds.
  ghost predicate Shows<B>(v: Volume, c: Cache<B>, m: Device)
    requires WellFormed(c)
  {
    && v.pinned == Pinned(c, m.dev) && v.nstart == m.nstart
    && forall blk :: blk !in v.pinned ==> v.image(blk) == Logical(c, Key(m.dev, blk), m.image)
  }

  ghost function VolumeOf<B>(c: Cache<B>, m: Device): (v: Volume)
    requires WellFormed(c)
    ensures Shows(v, c, m)
  {
    Volume(blk => Logical(c, Key(m.dev, blk), m.image), Pinned(c, m.dev), m.nstart)
  }

  lemma ShowsThen<B, T>(v: Volume, c: Cache<B>, m: Device, r: Reading<B, T>)
    requires Sound(c) && Shows(v, c, m) && Keeps(c, r, m.image) && r.lossless
    ensures Shows(v, r.c, m)
  {
  }

  lemma ReadShown<B>(v: Volume, c: Cache<B>, m: Device, blk: nat)
    requires Sound(c) && Shows(v, c, m)
    ensures ReadIn(c, m, blk).value == v.Read(blk)
  {
  }

  lemma {:induction false} FollowShown<B>(v: Volume, c: Cache<B>, m: Device, zone: nat, steps: seq<nat>)
    requires Sound(c) && Shows(v, c, m) && forall s :: s in steps ==> s < INDIRECT_ZONES
    requires FollowIn(c, m, zone, steps).lossless
    ensures FollowIn(c, m, zone, steps).value == Follow(v, zone, steps)
    decreases |steps|
  {
    if steps != [] {
      FollowFrom(v, c, m, zone);
      FollowInStep(c, m, zone, steps);
      FollowStep(v, zone, steps);
      hide ReadIn, Shows, Sound, Keeps, Volume.Zone, Word, Follow, FollowIn, Device.Blk;
      var d := ReadIn(c, m, m.Blk(zone));
      if d.value.Some? {
        ShowsThen(v, c, m, d);
        FollowShown(v, d.c, m, Word(d.value.value, steps[0]), steps[1..]);
      }
    }
  }

  lemma FollowFrom<B>(v: Volume, c: Cache<B>, m: Device, zone: nat)
    requires Sound(c) && Shows(v, c, m)
    ensures ReadIn(c, m, m.Blk(zone)).value == v.Zone(zone)
  {
    hide ReadIn, Sound, Logical, Pinned, Keeps;
    ReadShown(v, c, m, m.Blk(zone));
  }

  /** get_zone through the cache finds the block the volume has at the offset, unless a modified buffer was
      recycled during the walk. */
  lemma ZoneShown<B>(v: Volume, c: Cache<B>, m: Device, zones: seq<nat>, bytesOffset: nat)
    requires Sound(c) && Shows(v, c, m) && |zones| == NUMBER_ZONE && bytesOffset < U32
    requires ZoneIn(c, m, zones, bytesOffset).lossless
    ensures ZoneIn(c, m, zones, bytesOffset).value == ZoneBlock(v, zones, bytesOffset)
  {
    hide FollowIn, Follow, PathOf, Sound, Keeps;
    OffsetsReachable(bytesOffset);
    var p := PathOf(bytesOffset / BLOCK_SIZE).value;
    FollowShown(v, c, m, zones[p.root], p.steps);
  }

  lemma EntryShown<B>(v: Volume, c: Cache<B>, m: Device, node: PyIndexNode, seek: nat)
    requires Sound(c) && Shows(v, c, m) && seek < U32 && Aligned(seek)
    requires EntryIn(c, m, node, seek).lossless
    ensures EntryIn(c, m, node, seek).value == EntryOf(v, node, seek)
  {
    hide ZoneIn, ZoneBlock, ReadIn, Shows, Sound, Keeps, ZoneNumbers;
    var z := ZoneIn(c, m, ZoneNumbers(node), seek);
    ZoneShown(v, c, m, ZoneNumbers(node), seek);
    ShowsThen(v, c, m, z);
    if z.value.Some? { ReadShown(v, z.c, m, z.value.value); }
  }

  lemma {:induction false} ScanShown<B>(v: Volume, c: Cache<B>, m: Device, node: PyIndexNode, comp: seq<bv8>, seek: nat)
    requires Sound(c) && Shows(v, c, m) && seek < U32 && Aligned(seek)
    requires ScanIn(c, m, node, comp, seek).lossless
    ensures ScanIn(c, m, node, comp, seek).value == Scan(v, node, comp, seek)
    decreases U32 - seek
  {
    hide EntryIn, EntryOf, Shows, Sound, Keeps, FileSize, NameMatches, Aligned;
    EntryFits(seek);
    if seek < FileSize(node) {
      var e := EntryIn(c, m, node, seek);
      EntryShown(v, c, m, node, seek);
      ShowsThen(v, c, m, e);
      if seek + ENTRY_SIZE < U32 && e.value.Some? && NameMatches(comp, e.value.value.name) == Some(false) {
        ScanShown(v, e.c, m, node, comp, seek + ENTRY_SIZE);
      }
    }
  }

  /** A directory search through the cache gives the volume's answer, unless a modified buffer was recycled
      on the way. */
  lemma SearchShown<B>(v: Volume, c: Cache<B>, m: Device, node: PyIndexNode, comp: seq<bv8>)
    requires Sound(c) && Shows(v, c, m) && SearchIn(c, m, node, comp).lossless
    ensures SearchIn(c, m, node, comp).value == Search(v, node, comp)
  {
    hide ScanIn, Scan;
    if IsDir(Mode(node)) { ScanShown(v, c, m, node, comp, 0); }
  }
}
