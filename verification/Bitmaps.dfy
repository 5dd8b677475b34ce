/** _alloc_bit, init_inodes, init_zones, alloc_zone and alloc_inode: the bitmaps kept in held cache buffers. */
module Bitmaps {
  import opened Machine
  import opened AtaRegisters
  import opened Buffers
  import opened CacheModel
  import opened CacheClient
  import opened BitmapModel
  import opened BufferCache
  import opened Zones
  import opened Inodes

  const MAX_IMAP_NUM: nat := 8
  const MAX_ZMAP_NUM: nat := 64

  // The bitmap spread over the buffers of a node map.
  ghost function MapOf(nodeMap: seq<BlockBuffer>): (m: Bitmap)
    reads nodeMap`data
    ensures |m| == |nodeMap| && forall i :: 0 <= i < |m| ==> m[i] == nodeMap[i].data
  {
    if nodeMap == [] then [] else [nodeMap[0].data] + MapOf(nodeMap[1..])
  }

  // The buffers of a node map are different buffers of the cache.
  ghost predicate Mapped(cache: BlockCache, nodeMap: seq<BlockBuffer>) {
    Distinct(nodeMap) && forall b :: b in nodeMap ==> b in cache.pool
  }

  // Block begin + i came back in nodes[i].
  ghost predicate Came(c: Cache<BlockBuffer>, disk: Image, dev: nat, begin: nat, nodes: seq<BlockBuffer>)
    requires Takeable(c, dev, begin, |nodes|)
  {
    forall i {:trigger nodes[i]} :: 0 <= i < |nodes| ==> nodes[i] == Chosen(Gathered(c, disk, dev, begin, i), Key(dev, begin + i))
  }

  // And with what the block read as then.
  ghost predicate Loaded(c: Cache<BlockBuffer>, disk: Image, dev: nat, begin: nat, m: Bitmap) {
    forall i :: 0 <= i < |m| ==> LoadedAt(c, disk, dev, begin, i, m[i])
  }

  ghost predicate LoadedAt(c: Cache<BlockBuffer>, disk: Image, dev: nat, begin: nat, i: nat, content: Block) {
    Takeable(c, dev, begin, i) && content == Logical(Gathered(c, disk, dev, begin, i), Key(dev, begin + i), disk)
  }

  // The first blocks have been fetched from c on.
  ghost predicate Loading(cache: BlockCache, dev: nat, begin: nat, nodes: seq<BlockBuffer>, c: Cache<BlockBuffer>)
    reads cache.Repr()
  {
    && cache.Valid() && Takeable(c, dev, begin, |nodes|)
    && cache.View() == Gathered(c, cache.disk.image, dev, begin, |nodes|)
    && Came(c, cache.disk.image, dev, begin, nodes)
  }

  // init_inodes and init_zones: the blocks of a bitmap are fetched and never given back.
  method InitMap(cache: BlockCache, dev: nat, begin: nat, cnt: nat, limit: nat, ghost c: Cache<BlockBuffer>)
    returns (nodeMap: seq<BlockBuffer>)
    requires cache.Valid() && c == cache.View()
    requires var n := if cnt <= limit then cnt else limit; begin + n <= MAX_BLK && Takeable(c, dev, begin, n)
    modifies cache.Repr()
    ensures |nodeMap| == (if cnt <= limit then cnt else limit) && Loading(cache, dev, begin, nodeMap, c)
    ensures cache.Valid() && Mapped(cache, nodeMap) && (|c.free| >= |nodeMap| + 2 ==> Serviceable(cache))
    ensures Loaded(c, cache.disk.image, dev, begin, MapOf(nodeMap))
  {
    hide BlockCache.Valid, BlockCache.View, Takeable, Loading, Loaded;
    ghost var n: nat := if cnt <= limit then cnt else limit;
    NoneYet(cache, dev, begin, n, c);
    nodeMap := [];
    var i := 0;
    while i < cnt && i < limit
      invariant i == |nodeMap| <= n && Loading(cache, dev, begin, nodeMap, c)
    {
      hide BlockCache.Valid, BlockCache.View, Takeable, Loading, Loaded;
      TakeableLess(c, dev, begin, n, i + 1);
      var buf := Acquire(cache, dev, begin, nodeMap, c);
      nodeMap := nodeMap + [buf];
      i := i + 1;
    }
    MapIsHeld(cache, dev, begin, nodeMap, c);
  }

  // One turn of the loop.
  method Acquire(cache: BlockCache, dev: nat, begin: nat, nodes: seq<BlockBuffer>, ghost c: Cache<BlockBuffer>)
    returns (buf: BlockBuffer)
    requires Loading(cache, dev, begin, nodes, c) && Takeable(c, dev, begin, |nodes| + 1) && begin + |nodes| < MAX_BLK
    modifies cache.Repr()
    ensures Loading(cache, dev, begin, nodes + [buf], c)
  {
    hide BlockCache.Valid, BlockCache.View, Gathered, Came, Takeable, Get, Chosen, Sound, HoldsMore;
    NextGathered(c, cache.disk.image, dev, begin, nodes);
    buf := Fetch(cache, dev, begin + |nodes|, Gathered(c, cache.disk.image, dev, begin, |nodes|));
  }

  method Fetch(cache: BlockCache, dev: nat, blk: nat, ghost d: Cache<BlockBuffer>) returns (buf: BlockBuffer)
    requires cache.Valid() && d == cache.View() && d.free != [] && blk < MAX_BLK
    modifies cache.Repr()
    ensures cache.Valid() && cache.View() == Get(d, Key(dev, blk), cache.disk.image)
    ensures buf == Chosen(d, Key(dev, blk))
  {
    hide BlockCache.Valid, Get, Chosen;
    var patience: nat := *;
    buf := cache.GetBlock(dev, blk, patience);
  }

  lemma NoneYet(cache: BlockCache, dev: nat, begin: nat, n: nat, c: Cache<BlockBuffer>)
    requires cache.Valid() && c == cache.View() && Takeable(c, dev, begin, n)
    ensures Loading(cache, dev, begin, [], c)
  {
  }

  lemma NextGathered(c: Cache<BlockBuffer>, disk: Image, dev: nat, begin: nat, nodes: seq<BlockBuffer>)
    requires Takeable(c, dev, begin, |nodes| + 1) && Takeable(c, dev, begin, |nodes|)
    requires Came(c, disk, dev, begin, nodes)
    ensures var d, k := Gathered(c, disk, dev, begin, |nodes|), Key(dev, begin + |nodes|);
            && d.free != [] && Gathered(c, disk, dev, begin, |nodes| + 1) == Get(d, k, disk)
            && Came(c, disk, dev, begin, nodes + [Chosen(d, k)])
  {
    hide Get, Chosen, Sound, WellFormed, Exclusive, Holding, HoldsMore, Gathered, Unheld, Takeable;
    GatheredNext(c, disk, dev, begin, |nodes|);
  }

  // Buffer b holds block begin + i in d, with what the block read as when it was fetched.
  ghost predicate NodeHolds(d: Cache<BlockBuffer>, c: Cache<BlockBuffer>, disk: Image, dev: nat, begin: nat, i: nat, b: BlockBuffer) {
    && Takeable(c, dev, begin, i)
    && HeldAs(d, Key(dev, begin + i), b, Logical(Gathered(c, disk, dev, begin, i), Key(dev, begin + i), disk))
  }

  lemma NodeIsHeld(c: Cache<BlockBuffer>, disk: Image, dev: nat, begin: nat, nodes: seq<BlockBuffer>, i: nat)
    requires Takeable(c, dev, begin, |nodes|) && Came(c, disk, dev, begin, nodes) && i < |nodes|
    ensures NodeHolds(Gathered(c, disk, dev, begin, |nodes|), c, disk, dev, begin, i, nodes[i])
  {
    TakeableLess(c, dev, begin, |nodes|, i);
    GatheredStays(c, disk, dev, begin, |nodes|, i);
    hide Gathered, Chosen, Logical, Takeable, HeldAs, HoldsMore, WellFormed, Exclusive;
  }

  lemma HeldApart(d: Cache<BlockBuffer>, c: Cache<BlockBuffer>, disk: Image, dev: nat, begin: nat, nodes: seq<BlockBuffer>)
    requires WellFormed(d) && forall i :: 0 <= i < |nodes| ==> NodeHolds(d, c, disk, dev, begin, i, nodes[i])
    ensures Distinct(nodes) && forall b :: b in nodes ==> b in d.pool
  {
  }

  lemma MapIsHeld(cache: BlockCache, dev: nat, begin: nat, nodeMap: seq<BlockBuffer>, c: Cache<BlockBuffer>)
    requires Loading(cache, dev, begin, nodeMap, c)
    ensures cache.Valid() && Mapped(cache, nodeMap) && (|c.free| >= |nodeMap| + 2 ==> Serviceable(cache))
    ensures Loaded(c, cache.disk.image, dev, begin, MapOf(nodeMap))
  {
    hide BlockCache.Valid, BlockCache.View, Gathered, Takeable, HoldsMore, Distinct, Came, NodeHolds, WellFormed, Exclusive;
    hide MapOf, Loaded;
    var d := cache.View();
    forall i | 0 <= i < |nodeMap| ensures NodeHolds(d, c, cache.disk.image, dev, begin, i, nodeMap[i]) {
      NodeIsHeld(c, cache.disk.image, dev, begin, nodeMap, i);
    }
    HeldApart(d, c, cache.disk.image, dev, begin, nodeMap);
    PoolSeen(cache);
    MapIsLoaded(cache, dev, begin, nodeMap, c);
  }

  lemma MapIsLoaded(cache: BlockCache, dev: nat, begin: nat, nodeMap: seq<BlockBuffer>, c: Cache<BlockBuffer>)
    requires forall b :: b in nodeMap ==> b in cache.pool
    requires forall i :: 0 <= i < |nodeMap| ==> NodeHolds(cache.View(), c, cache.disk.image, dev, begin, i, nodeMap[i])
    ensures Loaded(c, cache.disk.image, dev, begin, MapOf(nodeMap))
  {
  }

  lemma PoolSeen(cache: BlockCache)
    ensures cache.View().pool == cache.pool
  {
  }

  /** As long as no modified buffer was recycled meanwhile, the bitmap is loaded as its blocks read at the
      start. */
  lemma LoadedAsBefore(c: Cache<BlockBuffer>, disk: Image, dev: nat, begin: nat, m: Bitmap)
    requires Loaded(c, disk, dev, begin, m) && Takeable(c, dev, begin, |m|)
    requires forall i :: 0 <= i < |m| ==> Lossless(Gathered(c, disk, dev, begin, i), Key(dev, begin + i), disk)
    ensures forall i :: 0 <= i < |m| ==> m[i] == Logical(c, Key(dev, begin + i), disk)
  {
    hide Gathered, Logical, Lossless;
    forall i | 0 <= i < |m| ensures m[i] == Logical(c, Key(dev, begin + i), disk) {
      GatheredKeepsLogical(c, disk, dev, begin, i);
    }
  }

  // The loops of _alloc_bit: the first clear bit over the blocks of a node map.
  method FindClear(nodeMap: seq<BlockBuffer>) returns (found: bool, blk: nat, byte: nat, bit: nat)
    ensures if found then
              && blk < |nodeMap| && byte < BLOCK_SIZE && bit < 8
              && TakenBelow(MapOf(nodeMap), Number(blk, byte, bit))
              && Number(blk, byte, bit) !in Taken(MapOf(nodeMap))
            else Full(MapOf(nodeMap))
  {
    hide Taken, Number, TakenBelow, Full;
    blk, byte, bit := 0, 0, 0;
    Start(MapOf(nodeMap));
    while blk < |nodeMap|
      invariant blk <= |nodeMap| && TakenBelow(MapOf(nodeMap), Number(blk, 0, 0))
    {
      var buffer := nodeMap[blk];
      byte := 0;
      while byte < BLOCK_SIZE
        invariant byte <= BLOCK_SIZE && TakenBelow(MapOf(nodeMap), Number(blk, byte, 0))
      {
        bit := 0;
        while bit < 8
          invariant bit <= 8 && TakenBelow(MapOf(nodeMap), Number(blk, byte, bit))
        {
          Inspect(MapOf(nodeMap), blk, byte, bit);
          if GetBit(buffer.data[byte], bit) == 0 {
            return true, blk, byte, bit;
          }
          bit := bit + 1;
        }
        byte := byte + 1;
        Carry(blk, byte);
      }
      blk := blk + 1;
      Carry(blk, 0);
    }
    found := false;
    AllTaken(MapOf(nodeMap));
  }

  lemma Start(map_: Bitmap)
    ensures TakenBelow(map_, Number(0, 0, 0))
  {
  }

  // The bit looked at decides whether its number is taken.
  lemma Inspect(map_: Bitmap, blk: nat, byte: nat, bit: nat)
    requires blk < |map_| && byte < BLOCK_SIZE && bit < 8 && TakenBelow(map_, Number(blk, byte, bit))
    ensures if GetBit(map_[blk][byte], bit) == 0 then Number(blk, byte, bit) !in Taken(map_)
            else TakenBelow(map_, Number(blk, byte, bit + 1))
  {
    Position(blk, byte, bit);
    InRange(|map_|, blk, byte, bit);
    var n := Number(blk, byte, bit);
    assert Number(blk, byte, bit + 1) == n + 1;
    hide Number, GetBit;
  }

  // Number after the last bit of a byte, and after the last byte of a block.
  lemma Carry(blk: nat, byte: nat)
    ensures byte > 0 ==> Number(blk, byte - 1, 8) == Number(blk, byte, 0)
    ensures blk > 0 ==> Number(blk - 1, BLOCK_SIZE, 0) == Number(blk, 0, 0)
  {
  }

  lemma AllTaken(map_: Bitmap)
    requires TakenBelow(map_, Number(|map_|, 0, 0))
    ensures Full(map_)
  {
  }

  // _alloc_bit over a node map of cnt blocks.
  method AllocBit(cache: BlockCache, nodeMap: seq<BlockBuffer>) returns (n: nat)
    requires cache.Valid() && Mapped(cache, nodeMap)
    modifies cache.pool`data
    ensures cache.Valid() && Allocated(old(MapOf(nodeMap)), n, MapOf(nodeMap))
    ensures cache.View().(data := map[]) == old(cache.View()).(data := map[])
    ensures forall b :: b in cache.pool && b !in nodeMap ==> b.data == old(b.data)
  {
    hide BlockCache.Valid, Taken, Number, TakenBelow, Full, Marked, Distinct;
    CacheAllocated(cache);
    var found, blk, byte, bit := FindClear(nodeMap);
    if !found {
      return 0;
    }
    Clear(MapOf(nodeMap), blk, byte, bit);
    MarkTakesOne(MapOf(nodeMap), blk, byte, bit);
    SetInPlace(cache, nodeMap, blk, nodeMap[blk], byte, bit);
    n := Number(blk, byte, bit);
  }

  lemma Clear(map_: Bitmap, blk: nat, byte: nat, bit: nat)
    requires blk < |map_| && byte < BLOCK_SIZE && bit < 8 && Number(blk, byte, bit) !in Taken(map_)
    ensures !Full(map_) && Number(blk, byte, bit) < BLOCK_BITS * |map_|
  {
  }

  // _set_bit on a byte of a held buffer.
  method SetInPlace(cache: BlockCache, ghost nodeMap: seq<BlockBuffer>, ghost blk: nat, buffer: BlockBuffer, byte: nat, bit: nat)
    requires cache.Valid() && Mapped(cache, nodeMap) && blk < |nodeMap| && byte < BLOCK_SIZE && bit < 8
    requires buffer == nodeMap[blk]
    modifies buffer`data
    ensures cache.Valid() && MapOf(nodeMap) == Marked(old(MapOf(nodeMap)), blk, byte, bit)
    ensures cache.View().(data := map[]) == old(cache.View()).(data := map[])
  {
    hide BlockCache.Valid, SetBit;
    ghost var before := MapOf(nodeMap);
    assert forall i :: 0 <= i < |nodeMap| && i != blk ==> nodeMap[i] != nodeMap[blk];
    cache.WriteData(buffer, buffer.data[byte := SetBit(buffer.data[byte], bit)]);
    ghost var after := Marked(before, blk, byte, bit);
    assert forall i :: 0 <= i < |nodeMap| ==> MapOf(nodeMap)[i] == after[i];
  }

  // alloc_zone
  method AllocZone(cache: BlockCache, nodeMap: seq<BlockBuffer>) returns (znode: nat)
    requires cache.Valid() && Mapped(cache, nodeMap)
    modifies cache.pool`data
    ensures cache.Valid() && Allocated(old(MapOf(nodeMap)), znode, MapOf(nodeMap))
    ensures cache.View().(data := map[]) == old(cache.View()).(data := map[])
  {
    znode := AllocBit(cache, nodeMap);
  }

  // alloc_inode.  The number is not checked and is cut to 16 bits; the node's contents stay what they were.
  method AllocInode(table: InodeTable, dev: nat, nodeMap: seq<BlockBuffer>) returns (node: IndexNode, ghost n: nat)
    requires table.Valid() && table.cache.Valid() && Mapped(table.cache, nodeMap)
    modifies table, table.nodes, table.cache.pool`data
    ensures table.Valid() && table.cache.Valid() && Allocated(old(MapOf(nodeMap)), n, MapOf(nodeMap))
    ensures table.ihash == old(table.ihash)[(dev, n % U16) := node]
    ensures |nodeMap| <= MAX_IMAP_NUM ==> n % U16 == n
    ensures table.cache.View().(data := map[]) == old(table.cache.View()).(data := map[])
    ensures forall b :: b in table.cache.pool && b !in nodeMap ==> b.data == old(b.data)
  {
    hide BlockCache.Valid, InodeTable.Valid, Distinct, Allocated, BlockCache.View, Mapped, MapOf, BlockCache.Repr;
    table.Unrelated(table.cache);
    CacheAllocated(table.cache);
    node := table.NewNode();
    var inodeIndex := AllocBit(table.cache, nodeMap);
    n := inodeIndex;
    table.Enter(node, dev, inodeIndex % U16);
    SixteenBits(old(MapOf(nodeMap)), n, MapOf(nodeMap));
  }

  lemma SixteenBits(before: Bitmap, n: nat, after: Bitmap)
    requires Allocated(before, n, after)
    ensures |before| <= MAX_IMAP_NUM ==> n % U16 == n
  {
  }
}
