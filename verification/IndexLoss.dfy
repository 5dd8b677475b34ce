/**
 Which index blocks get_zone can lose while it walks through the cache: every miss recycles the buffer released
 longest ago, and if that one holds a modified index block which the walk comes to later, the walk reads what
 the disk has instead.
 */
module IndexLoss {
  import opened Machine
  import opened AtaRegisters
  import opened CacheModel
  import opened CacheRuns
  import opened CacheClient
  import opened ZoneTree
  import opened Readings

  // Fetching block `first` takes the buffer of block l, where entry s differs from the disk's.
  ghost predicate Takes<B>(c: Cache<B>, m: Device, first: nat, l: nat, s: nat)
    requires Sound(c) && s < INDIRECT_ZONES
  {
    && Key(m.dev, first) !in c.index
    && Key(m.dev, l) in c.index && c.index[Key(m.dev, l)] == c.free[0]
    && Word(c.data[c.free[0]], s) != Word(m.image(l), s)
  }

  // Entry s of block l as it reads in c.
  ghost function EntryNow<B>(c: Cache<B>, m: Device, l: nat, s: nat): (w: nat)
    requires Sound(c) && s < INDIRECT_ZONES
    ensures w < U32
  {
    Word(Logical(c, Key(m.dev, l), m.image), s)
  }

  lemma BorrowKeepsEntryIff<B>(c: Cache<B>, m: Device, first: nat, l: nat, s: nat)
    requires Available(c, Key(m.dev, first)) && s < INDIRECT_ZONES
    ensures var d := Borrowed(c, Key(m.dev, first), m.image);
            && Sound(d) && Quiet(c, d)
            && (EntryNow(d, m, l, s) == EntryNow(c, m, l, s) <==> !Takes(c, m, first, l, s))
            && (EntryNow(d, m, l, s) == EntryNow(c, m, l, s) || EntryNow(d, m, l, s) == Word(m.image(l), s))
            && (EntryNow(c, m, l, s) == Word(m.image(l), s) ==> EntryNow(d, m, l, s) == Word(m.image(l), s))
  {
    hide Word, Borrowed, Logical, WellFormed, Exclusive, Quiet, Holding;
    BorrowIsQuiet(c, Key(m.dev, first), m.image);
    ReadsAfterBorrow(c, Key(m.dev, first), Key(m.dev, l), m.image);
    if Key(m.dev, l) in c.index { ReadsResident(c, Key(m.dev, l), m.image); }
  }

  lemma ReadsResident<B>(c: Cache<B>, l: Key, disk: Image)
    requires WellFormed(c) && l in c.index
    ensures c.index[l] in c.data && Logical(c, l, disk) == c.data[c.index[l]]
  {
  }

  // A miss recycles one buffer, and the block it held reads as on the disk.
  lemma ReadsAfterBorrow<B>(c: Cache<B>, k: Key, l: Key, disk: Image)
    requires Available(c, k) && WellFormed(Borrowed(c, k, disk))
    ensures Logical(Borrowed(c, k, disk), l, disk) ==
            if k !in c.index && l in c.index && c.index[l] == c.free[0] then disk(l.blk) else Logical(c, l, disk)
  {
  }

  lemma BorrowsKeepEntryIff<B>(c: Cache<B>, m: Device, first: nat, second: nat, l: nat, s: nat)
    requires Available(c, Key(m.dev, first)) && s < INDIRECT_ZONES
    requires Available(Borrowed(c, Key(m.dev, first), m.image), Key(m.dev, second))
    ensures var d := Borrowed(c, Key(m.dev, first), m.image);
            var e := Borrowed(d, Key(m.dev, second), m.image);
            && Sound(d) && Sound(e) && Quiet(c, d) && Quiet(d, e)
            && (EntryNow(e, m, l, s) == EntryNow(c, m, l, s) <==> !Takes(c, m, first, l, s) && !Takes(d, m, second, l, s))
  {
    hide Takes, EntryNow, Sound, Borrowed;
    BorrowKeepsEntryIff(c, m, first, l, s);
    BorrowKeepsEntryIff(Borrowed(c, Key(m.dev, first), m.image), m, second, l, s);
  }

  // A block that is addressable and that nobody holds.
  ghost predicate Readable<B>(c: Cache<B>, m: Device, zone: nat)
    requires Sound(c)
  {
    m.Blk(zone) < MAX_BLK && !Holding(c, Key(m.dev, m.Blk(zone)))
  }

  ghost function Fetched<B>(c: Cache<B>, m: Device, zone: nat): (d: Cache<B>)
    requires Sound(c) && Readable(c, m, zone)
    ensures Sound(d) && Quiet(c, d)
  {
    BorrowIsQuiet(c, Key(m.dev, m.Blk(zone)), m.image);
    Borrowed(c, Key(m.dev, m.Blk(zone)), m.image)
  }

  lemma QuietReadable<B>(c: Cache<B>, d: Cache<B>, m: Device, zone: nat)
    requires Sound(c) && Sound(d) && Quiet(c, d)
    ensures Readable(d, m, zone) == Readable(c, m, zone)
  {
  }

  // One entry of an index block, where it can be read.
  ghost function EntryOfZone<B>(c: Cache<B>, m: Device, zone: nat, s: nat): (w: Option<nat>)
    requires Sound(c) && s < INDIRECT_ZONES
    ensures w.Some? ==> w.value < U32
  {
    if Readable(c, m, zone) then Some(EntryNow(c, m, m.Blk(zone), s)) else None
  }

  // A walk by one step through the cache and on the volume.
  lemma FirstStep<B>(c: Cache<B>, m: Device, zone: nat, steps: seq<nat>)
    requires Sound(c) && steps != [] && forall s :: s in steps ==> s < INDIRECT_ZONES
    ensures steps[0] < INDIRECT_ZONES && forall s :: s in steps[1..] ==> s < INDIRECT_ZONES
    ensures FollowIn(c, m, zone, steps).value ==
            if !Readable(c, m, zone) then None
            else FollowIn(Fetched(c, m, zone), m, EntryNow(c, m, m.Blk(zone), steps[0]), steps[1..]).value
  {
    hide FollowIn, Word, Device.Blk, Logical, Sound, Quiet, Borrowed, Lossless;
    FollowInStep(c, m, zone, steps);
  }

  lemma FirstVolumeStep<B>(v: Volume, c: Cache<B>, m: Device, zone: nat, steps: seq<nat>)
    requires Sound(c) && Shows(v, c, m) && steps != [] && forall s :: s in steps ==> s < INDIRECT_ZONES
    ensures steps[0] < INDIRECT_ZONES && forall s :: s in steps[1..] ==> s < INDIRECT_ZONES
    ensures Follow(v, zone, steps) ==
            if !Readable(c, m, zone) then None
            else Follow(v, EntryNow(c, m, m.Blk(zone), steps[0]), steps[1..])
  {
    hide Follow, Word, Device.Blk, Volume.Zone, Logical, Sound, Shows, Borrowed, Lossless, Keeps;
    FollowStep(v, zone, steps);
    FollowFrom(v, c, m, zone);
  }

  lemma OneInCache<B>(c: Cache<B>, m: Device, zone: nat, s: nat)
    requires Sound(c) && s < INDIRECT_ZONES
    ensures FollowIn(c, m, zone, [s]).value == EntryOfZone(c, m, zone, s)
  {
    hide Sound, Readable, EntryNow;
    assert [s][1..] == [];
    FirstStep(c, m, zone, [s]);
  }

  lemma OneOnVolume<B>(v: Volume, c: Cache<B>, m: Device, zone: nat, s: nat)
    requires Sound(c) && Shows(v, c, m) && s < INDIRECT_ZONES
    ensures Follow(v, zone, [s]) == EntryOfZone(c, m, zone, s)
  {
    hide Shows, Sound, Readable, EntryNow;
    assert [s][1..] == [];
    FirstVolumeStep(v, c, m, zone, [s]);
  }

  // What the walk meets, in terms of the cache before it: with two index blocks it goes right unless fetching the first
  // takes the second; with three also unless fetching the first or the second takes the third.  If the second has
  // been taken the walk goes on from what the disk has there, and ends right only if the entry it comes to
  // happens to be the same.
  ghost predicate LedRight<B>(c: Cache<B>, m: Device, zone: nat, steps: seq<nat>)
    requires Sound(c) && |steps| <= 3 && forall s :: s in steps ==> s < INDIRECT_ZONES
  {
    |steps| <= 1 || !Readable(c, m, zone) ||
    (assert steps[0] in steps && steps[1] in steps;
     var zone1 := EntryNow(c, m, m.Blk(zone), steps[0]);
     !Readable(c, m, zone1) ||
     if |steps| == 2 then !Takes(c, m, m.Blk(zone), m.Blk(zone1), steps[1])
     else
       assert steps[2] in steps;
       ThirdRight(c, m, zone, zone1, steps[1], steps[2]))
  }

  ghost predicate ThirdRight<B>(c: Cache<B>, m: Device, zone: nat, zone1: nat, j: nat, k: nat)
    requires Sound(c) && Readable(c, m, zone) && Readable(c, m, zone1) && j < INDIRECT_ZONES && k < INDIRECT_ZONES
  {
    var c1 := Fetched(c, m, zone);
    QuietReadable(c, c1, m, zone1);
    var zone2 := EntryNow(c, m, m.Blk(zone1), j);
    if Takes(c, m, m.Blk(zone), m.Blk(zone1), j) then
      EntryOfZone(Fetched(c1, m, zone1), m, Word(m.image(m.Blk(zone1)), j), k) == EntryOfZone(c, m, zone2, k)
    else
      Readable(c, m, zone2) ==>
        !Takes(c, m, m.Blk(zone), m.Blk(zone2), k) && !Takes(c1, m, m.Blk(zone1), m.Blk(zone2), k)
  }

  lemma TwoBlocksIff<B>(v: Volume, c: Cache<B>, m: Device, zone: nat, i: nat, j: nat)
    requires Sound(c) && Shows(v, c, m) && i < INDIRECT_ZONES && j < INDIRECT_ZONES
    ensures FollowIn(c, m, zone, [i, j]).value == Follow(v, zone, [i, j]) <==> LedRight(c, m, zone, [i, j])
  {
    hide Shows, Sound, Readable, EntryNow, Fetched, Takes, FollowIn, Follow, Quiet;
    assert [i, j][1..] == [j];
    FirstStep(c, m, zone, [i, j]);
    FirstVolumeStep(v, c, m, zone, [i, j]);
    if Readable(c, m, zone) {
      var d, zone1 := Fetched(c, m, zone), EntryNow(c, m, m.Blk(zone), i);
      QuietReadable(c, d, m, zone1);
      OneOnVolume(v, c, m, zone1, j);
      OneInCache(d, m, zone1, j);
      FetchKeepsEntryIff(c, m, zone, m.Blk(zone1), j);
    }
  }

  lemma ThreeBlocksIff<B>(v: Volume, c: Cache<B>, m: Device, zone: nat, i: nat, j: nat, k: nat)
    requires Sound(c) && Shows(v, c, m) && i < INDIRECT_ZONES && j < INDIRECT_ZONES && k < INDIRECT_ZONES
    ensures FollowIn(c, m, zone, [i, j, k]).value == Follow(v, zone, [i, j, k]) <==> LedRight(c, m, zone, [i, j, k])
  {
    hide Shows, Sound, Readable, EntryNow, Fetched, Takes, FollowIn, Follow, Quiet, ThirdRight;
    assert [i, j, k][1..] == [j, k];
    FirstStep(c, m, zone, [i, j, k]);
    FirstVolumeStep(v, c, m, zone, [i, j, k]);
    if Readable(c, m, zone) {
      var zone1 := EntryNow(c, m, m.Blk(zone), i);
      ThirdBlock(v, c, m, zone, zone1, j, k);
    }
  }

  // The walk from the second index block on.
  lemma ThirdBlock<B>(v: Volume, c: Cache<B>, m: Device, zone: nat, zone1: nat, j: nat, k: nat)
    requires Sound(c) && Shows(v, c, m) && Readable(c, m, zone) && j < INDIRECT_ZONES && k < INDIRECT_ZONES
    ensures FollowIn(Fetched(c, m, zone), m, zone1, [j, k]).value == Follow(v, zone1, [j, k]) <==>
            !Readable(c, m, zone1) || ThirdRight(c, m, zone, zone1, j, k)
  {
    hide Shows, Sound, Readable, EntryNow, Fetched, Takes, FollowIn, Follow, Quiet;
    var c1 := Fetched(c, m, zone);
    assert [j, k][1..] == [k];
    QuietReadable(c, c1, m, zone1);
    FirstStep(c1, m, zone1, [j, k]);
    FirstVolumeStep(v, c, m, zone1, [j, k]);
    if Readable(c, m, zone1) {
      var c2, b1 := Fetched(c1, m, zone1), m.Blk(zone1);
      var zone2, then2 := EntryNow(c, m, b1, j), EntryNow(c1, m, b1, j);
      OneOnVolume(v, c, m, zone2, k);
      OneInCache(c2, m, then2, k);
      FetchKeepsEntryIff(c, m, zone, b1, j);
      QuietReadable(c1, c2, m, zone2);
      QuietReadable(c, c1, m, zone2);
      FetchKeepsEntryTwiceIff(c, m, zone, zone1, m.Blk(zone2), k);
    }
  }

  lemma FetchKeepsEntryTwiceIff<B>(c: Cache<B>, m: Device, zone: nat, zone1: nat, l: nat, s: nat)
    requires Sound(c) && Readable(c, m, zone) && Readable(c, m, zone1) && s < INDIRECT_ZONES
    ensures var c1 := Fetched(c, m, zone);
            && Readable(c1, m, zone1)
            && (EntryNow(Fetched(c1, m, zone1), m, l, s) == EntryNow(c, m, l, s) <==>
                !Takes(c, m, m.Blk(zone), l, s) && !Takes(c1, m, m.Blk(zone1), l, s))
  {
    hide Takes, EntryNow, Borrowed, Word, Device.Blk;
    var c1 := Fetched(c, m, zone);
    QuietReadable(c, c1, m, zone1);
    BorrowsKeepEntryIff(c, m, m.Blk(zone), m.Blk(zone1), l, s);
  }

  lemma FetchKeepsEntryIff<B>(c: Cache<B>, m: Device, zone: nat, l: nat, s: nat)
    requires Sound(c) && Readable(c, m, zone) && s < INDIRECT_ZONES
    ensures var d := Fetched(c, m, zone);
            && (EntryNow(d, m, l, s) == EntryNow(c, m, l, s) <==> !Takes(c, m, m.Blk(zone), l, s))
            && (EntryNow(d, m, l, s) != EntryNow(c, m, l, s) ==> EntryNow(d, m, l, s) == Word(m.image(l), s))
  {
    hide Takes, EntryNow, Borrowed, Word, Device.Blk;
    BorrowKeepsEntryIff(c, m, m.Blk(zone), l, s);
  }

  lemma {:induction false} FollowBelow<B>(v: Volume, c: Cache<B>, m: Device, zone: nat, steps: seq<nat>)
    requires Sound(c) && steps != [] && forall s :: s in steps ==> s < INDIRECT_ZONES
    ensures var r, f := FollowIn(c, m, zone, steps).value, Follow(v, zone, steps);
            (r.Some? ==> r.value < U32) && (f.Some? ==> f.value < U32)
    decreases |steps|
  {
    hide Sound, Keeps, Device.Blk, Volume.Zone, Word, ReadIn;
    FollowInStep(c, m, zone, steps);
    FollowStep(v, zone, steps);
    if |steps| > 1 {
      var d := ReadIn(c, m, m.Blk(zone));
      if d.value.Some? { FollowBelow(v, d.c, m, Word(d.value.value, steps[0]), steps[1..]); }
      if v.Zone(zone).Some? { FollowBelow(v, c, m, Word(v.Zone(zone).value, steps[0]), steps[1..]); }
    }
  }

  lemma BlkInjective(m: Device, x: nat, y: nat)
    requires x < U32 && y < U32
    ensures m.Blk(x) == m.Blk(y) ==> x == y
  {
  }

  /** get_zone through the cache finds the block the volume has at the offset always in the direct and the single
      indirect branch, and in the other two exactly if no index block is taken before its turn. */
  lemma ZoneRightIff<B>(v: Volume, c: Cache<B>, m: Device, zones: seq<nat>, bytesOffset: nat)
    requires Sound(c) && Shows(v, c, m) && |zones| == NUMBER_ZONE && bytesOffset < U32
    ensures PathOf(bytesOffset / BLOCK_SIZE).Some?
    ensures var p := PathOf(bytesOffset / BLOCK_SIZE).value;
            && p.root < NUMBER_ZONE && |p.steps| <= 3 && (forall s :: s in p.steps ==> s < INDIRECT_ZONES)
            && (ZoneIn(c, m, zones, bytesOffset).value == ZoneBlock(v, zones, bytesOffset) <==>
                LedRight(c, m, zones[p.root], p.steps))
            && (p.root <= DIRECT_ZONE ==> LedRight(c, m, zones[p.root], p.steps))
  {
    OffsetsReachable(bytesOffset);
    ZoneRecovered(bytesOffset / BLOCK_SIZE);
    var p := PathOf(bytesOffset / BLOCK_SIZE).value;
    hide FollowIn, Follow, PathOf, Sound, Keeps, Shows, Device.Blk;
    FollowRightIff(v, c, m, zones[p.root], p.steps);
    SameBlock(v, c, m, zones, bytesOffset, p);
  }

  lemma FollowRightIff<B>(v: Volume, c: Cache<B>, m: Device, zone: nat, steps: seq<nat>)
    requires Sound(c) && Shows(v, c, m) && |steps| <= 3 && forall s :: s in steps ==> s < INDIRECT_ZONES
    ensures FollowIn(c, m, zone, steps).value == Follow(v, zone, steps) <==> LedRight(c, m, zone, steps)
  {
    hide Sound, Shows, Readable, EntryNow, Takes, ThirdRight;
    if |steps| == 1 {
      assert steps == [steps[0]] && steps[0] in steps;
      OneInCache(c, m, zone, steps[0]);
      OneOnVolume(v, c, m, zone, steps[0]);
    } else if |steps| == 2 {
      assert steps == [steps[0], steps[1]] && steps[0] in steps && steps[1] in steps;
      TwoBlocksIff(v, c, m, zone, steps[0], steps[1]);
    } else if |steps| == 3 {
      assert steps == [steps[0], steps[1], steps[2]] && steps[0] in steps && steps[1] in steps && steps[2] in steps;
      ThreeBlocksIff(v, c, m, zone, steps[0], steps[1], steps[2]);
    }
  }

  // Zones are equal exactly if the blocks they name are.
  lemma SameBlock<B>(v: Volume, c: Cache<B>, m: Device, zones: seq<nat>, bytesOffset: nat, p: Path)
    requires Sound(c) && Shows(v, c, m) && |zones| == NUMBER_ZONE && bytesOffset < U32
    requires PathOf(bytesOffset / BLOCK_SIZE) == Some(p)
    ensures p.root < NUMBER_ZONE && forall s :: s in p.steps ==> s < INDIRECT_ZONES
    ensures ZoneIn(c, m, zones, bytesOffset).value == ZoneBlock(v, zones, bytesOffset) <==>
            FollowIn(c, m, zones[p.root], p.steps).value == Follow(v, zones[p.root], p.steps)
  {
    hide PathOf, Sound, Keeps, ZoneIn, ZoneBlock, Device.Blk, Shows;
    BlocksNamed(v, c, m, zones, bytesOffset, p);
    if p.steps == [] {
      FollowEnds(v, c, m, zones[p.root]);
    } else {
      hide FollowIn, Follow;
      var r, f := FollowIn(c, m, zones[p.root], p.steps).value, Follow(v, zones[p.root], p.steps);
      FollowBelow(v, c, m, zones[p.root], p.steps);
      if r.Some? && f.Some? { BlkInjective(m, r.value, f.value); }
    }
  }

  lemma FollowEnds<B>(v: Volume, c: Cache<B>, m: Device, zone: nat)
    requires Sound(c)
    ensures FollowIn(c, m, zone, []).value == Follow(v, zone, []) == Some(zone)
  {
  }

  lemma SameNames<B>(v: Volume, c: Cache<B>, m: Device, zone: nat)
    requires WellFormed(c) && Shows(v, c, m)
    ensures v.Blk(zone) == m.Blk(zone)
  {
  }

  lemma BlocksNamed<B>(v: Volume, c: Cache<B>, m: Device, zones: seq<nat>, bytesOffset: nat, p: Path)
    requires Sound(c) && Shows(v, c, m) && |zones| == NUMBER_ZONE && bytesOffset < U32
    requires PathOf(bytesOffset / BLOCK_SIZE) == Some(p)
    ensures p.root < NUMBER_ZONE && forall s :: s in p.steps ==> s < INDIRECT_ZONES
    ensures var r, f := FollowIn(c, m, zones[p.root], p.steps).value, Follow(v, zones[p.root], p.steps);
            && ZoneIn(c, m, zones, bytesOffset).value == (if r.None? then None else Some(m.Blk(r.value)))
            && ZoneBlock(v, zones, bytesOffset) == (if f.None? then None else Some(m.Blk(f.value)))
  {
    OffsetsReachable(bytesOffset);
    hide PathOf, Sound, Keeps, FollowIn, Follow, Shows, Volume.Blk, Device.Blk;
    var f := Follow(v, zones[p.root], p.steps);
    if f.Some? { SameNames(v, c, m, f.value); }
  }

  // Block `first` is not resident, its entry i names the zone of block `second`, and that one's buffer is the next
  // to be recycled.
  ghost predicate AboutToLose<B>(c: Cache<B>, m: Device, zone: nat, i: nat, second: nat)
    requires i < INDIRECT_ZONES
  {
    var first := m.Blk(zone);
    && Sound(c) && first < MAX_BLK && Key(m.dev, first) !in c.index
    && second == m.Blk(Word(m.image(first), i)) && second < MAX_BLK
    && Key(m.dev, second) in c.index && c.index[Key(m.dev, second)] == c.free[0]
  }

  /** A walk that goes wrong: its first miss recycles the modified buffer of the second index block, and it goes on with
      what the disk has there instead of what was released. */
  lemma LostIndexBlockMisleads<B>(v: Volume, c: Cache<B>, m: Device, zone: nat, i: nat, j: nat, second: nat)
    requires i < INDIRECT_ZONES && j < INDIRECT_ZONES && AboutToLose(c, m, zone, i, second) && Shows(v, c, m)
    ensures FollowIn(c, m, zone, [i, j]).value == Some(Word(m.image(second), j))
    ensures Follow(v, zone, [i, j]) == Some(Word(c.data[c.free[0]], j))
  {
    ReadableHere(c, m, zone, i, second);
    hide Shows, Readable, EntryNow, Fetched, FollowIn, Follow, WellFormed, Exclusive, Word, Device.Blk;
    var d, zone1 := Fetched(c, m, zone), EntryNow(c, m, m.Blk(zone), i);
    assert [i, j][1..] == [j];
    FirstStep(c, m, zone, [i, j]);
    FirstVolumeStep(v, c, m, zone, [i, j]);
    QuietReadable(c, d, m, zone1);
    OneOnVolume(v, c, m, zone1, j);
    OneInCache(d, m, zone1, j);
    LostByMiss(c, m, zone, second, j);
  }

  lemma ReadableHere<B>(c: Cache<B>, m: Device, zone: nat, i: nat, second: nat)
    requires i < INDIRECT_ZONES && AboutToLose(c, m, zone, i, second)
    ensures var zone1 := EntryNow(c, m, m.Blk(zone), i);
            Readable(c, m, zone) && m.Blk(zone1) == second && Readable(c, m, zone1)
  {
    hide Word, Device.Blk;
    ExclusiveMeansOneOwner(c);
  }

  lemma LostByMiss<B>(c: Cache<B>, m: Device, zone: nat, lost: nat, s: nat)
    requires Sound(c) && Readable(c, m, zone) && Key(m.dev, m.Blk(zone)) !in c.index && s < INDIRECT_ZONES
    requires Key(m.dev, lost) in c.index && c.index[Key(m.dev, lost)] == c.free[0]
    ensures EntryNow(c, m, lost, s) == Word(c.data[c.free[0]], s)
    ensures EntryNow(Fetched(c, m, zone), m, lost, s) == Word(m.image(lost), s)
  {
    hide Word, Device.Blk;
  }

  /** With no modified block in the free ring nothing can be taken, so every walk is led right. */
  lemma CleanLedRight<B>(c: Cache<B>, m: Device, zone: nat, steps: seq<nat>)
    requires Sound(c) && Clean(c, m.image) && |steps| <= 3 && forall s :: s in steps ==> s < INDIRECT_ZONES
    ensures LedRight(c, m, zone, steps)
  {
    hide Word, Device.Blk, EntryNow, Borrowed, Holding;
    if Readable(c, m, zone) {
      BorrowIsQuiet(c, Key(m.dev, m.Blk(zone)), m.image);
    }
  }
}
