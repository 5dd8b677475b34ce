/** get_zone of minixfs/zones.c running on the block cache. */
module Zones {
  import opened Machine
  import opened AtaRegisters
  import opened Buffers
  import opened CacheModel
  import opened CacheClient
  import opened ZoneTree
  import opened Readings
  import opened IndexBytes
  import opened BufferCache

  ghost predicate Serviceable(cache: BlockCache)
    reads cache.Repr()
  {
    cache.Valid() && Sound(cache.View())
  }

  lemma CacheAllocated(cache: BlockCache)
    ensures forall o :: o in cache.Repr() ==> allocated(o)
  {
  }

  // A method that starts from c on cache and device m.
  ghost predicate At(cache: BlockCache, c: Cache<BlockBuffer>, m: Device, dev: nat, nstart: nat)
    reads cache.Repr()
  {
    Serviceable(cache) && cache.View() == c && Sound(c) && m == Device(cache.disk.image, dev, nstart)
  }

  // get_block, read the contents, release_block.
  method Borrow(cache: BlockCache, dev: nat, blk: nat, ghost before: Cache<BlockBuffer>) returns (content: Block)
    requires Serviceable(cache) && before == cache.View() && blk < MAX_BLK && Available(before, Key(dev, blk))
    modifies cache.Repr()
    ensures Serviceable(cache) && cache.View() == Borrowed(before, Key(dev, blk), cache.disk.image)
    ensures content == Logical(before, Key(dev, blk), cache.disk.image)
  {
    hide BlockCache.Valid, Sound, Quiet, Clean, Lossless, SameLogical, Logical, Holding;
    var patience: nat := *;
    TakeUnheld(before, Key(dev, blk), cache.disk.image);
    BorrowIsQuiet(before, Key(dev, blk), cache.disk.image);
    FreeFound(before);
    var buf := cache.GetBlock(dev, blk, patience);
    content := buf.data;
    cache.ReleaseBlock(buf);
  }

  lemma FreeFound<B>(c: Cache<B>)
    requires Sound(c)
    ensures c.free != [] && WellFormed(c)
  {
  }

  // A block of the device, where it can be read.
  method ReadBlock(cache: BlockCache, dev: nat, nstart: nat, blk: nat, ghost c: Cache<BlockBuffer>, ghost m: Device)
    returns (content: Block)
    requires At(cache, c, m, dev, nstart) && ReadIn(c, m, blk).value.Some?
    modifies cache.Repr()
    ensures At(cache, ReadIn(c, m, blk).c, m, dev, nstart) && content == ReadIn(c, m, blk).value.value
  {
    hide Serviceable, Keeps, Borrowed, Logical, Lossless, BlockCache.View;
    assert Serviceable(cache) && cache.View() == c;
    content := Borrow(cache, dev, blk, c);
  }

  // get_zone's walk through one, two or three index blocks.
  method Descend(cache: BlockCache, dev: nat, nstart: nat, root: nat, steps: seq<nat>,
                 ghost c: Cache<BlockBuffer>, ghost m: Device)
    returns (zone: nat)
    requires At(cache, c, m, dev, nstart) && Sound(c)
    requires (forall s :: s in steps ==> s < INDIRECT_ZONES) && FollowIn(c, m, root, steps).value.Some?
    modifies cache.Repr()
    ensures At(cache, FollowIn(c, m, root, steps).c, m, dev, nstart)
    ensures zone == FollowIn(c, m, root, steps).value.value
    decreases |steps|
  {
    if steps == [] {
      return root;
    }
    FollowInStep(c, m, root, steps);
    hide At, Sound, ReadIn, FollowIn, Keeps, Word;
    ghost var d := ReadIn(c, m, m.Blk(root));
    assert m.Blk(root) == (nstart + root) % U32 by { DeviceAt(cache, c, m, dev, nstart, root); }
    var content := ReadBlock(cache, dev, nstart, (nstart + root) % U32, c, m);
    zone := Descend(cache, dev, nstart, Word(content, steps[0]), steps[1..], d.c, m);
  }

  lemma DeviceAt(cache: BlockCache, c: Cache<BlockBuffer>, m: Device, dev: nat, nstart: nat, zone: nat)
    requires At(cache, c, m, dev, nstart)
    ensures m.Blk(zone) == (nstart + zone) % U32
  {
  }

  // get_zone
  method GetZone(cache: BlockCache, dev: nat, nstart: nat, zones: seq<nat>, bytesOffset: nat,
                 ghost c: Cache<BlockBuffer>, ghost m: Device)
    returns (blk: nat, offsetInBlk: nat)
    requires At(cache, c, m, dev, nstart) && Sound(c)
    requires |zones| == NUMBER_ZONE && bytesOffset < U32 && ZoneIn(c, m, zones, bytesOffset).value.Some?
    modifies cache.Repr()
    ensures At(cache, ZoneIn(c, m, zones, bytesOffset).c, m, dev, nstart)
    ensures blk == ZoneIn(c, m, zones, bytesOffset).value.value && offsetInBlk == bytesOffset % BLOCK_SIZE
    ensures Located(c, m, zones, bytesOffset, blk)
  {
    hide Located, At, Sound, FollowIn, PathOf, Keeps;
    OffsetsReachable(bytesOffset);
    ZoneByBytes(c, m, zones, bytesOffset);
    offsetInBlk := bytesOffset % BLOCK_SIZE;
    var root, steps := IndexPath(bytesOffset / BLOCK_SIZE);
    var zone := Descend(cache, dev, nstart, zones[root], steps, c, m);
    DeviceAt(cache, FollowIn(c, m, zones[root], steps).c, m, dev, nstart, zone);
    blk := (nstart + zone) % U32;
  }

  // The four branches of get_zone.
  method IndexPath(zoneNum: nat) returns (root: nat, steps: seq<nat>)
    requires PathOf(zoneNum).Some?
    ensures PathOf(zoneNum) == Some(Path(root, steps))
  {
    if zoneNum < DIRECT_ZONE {
      return zoneNum, [];
    } else if zoneNum < DIRECT_ZONE + INDIRECT_ZONES {
      return DIRECT_ZONE, [zoneNum - DIRECT_ZONE];
    } else if zoneNum < DIRECT_ZONE + INDIRECT_ZONES + DINDIRECT_ZONES {
      var dbNum := zoneNum - DIRECT_ZONE - INDIRECT_ZONES;
      return DIRECT_ZONE + 1, [dbNum / INDIRECT_ZONES, dbNum % INDIRECT_ZONES];
    } else {
      var trNum := zoneNum - DIRECT_ZONE - INDIRECT_ZONES - DINDIRECT_ZONES;
      return DIRECT_ZONE + 2,
             [trNum / DINDIRECT_ZONES, trNum % DINDIRECT_ZONES / INDIRECT_ZONES, trNum % INDIRECT_ZONES];
    }
  }
}
