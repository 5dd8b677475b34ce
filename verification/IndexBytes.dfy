/** Which block get_zone arrives at, told by the bytes of the index blocks it reads. */
module IndexBytes {
  import opened Machine
  import opened CacheModel
  import opened CacheClient
  import opened ZoneTree
  import opened InodeModel
  import opened Readings
  import opened IndexLoss

  // Entry i of the index block that a zone number names has the bytes of w, as the block reads in c.
  ghost predicate Points<B>(c: Cache<B>, m: Device, zone: nat, i: nat, w: nat)
    requires Sound(c)
  {
    i < 256 && IsBytes(Logical(c, Key(m.dev, (m.nstart + zone) % 0x1_0000_0000), m.image)[4 * i..4 * i + 4], w)
  }

  // The cache after that block has been read.
  ghost function Past<B>(c: Cache<B>, m: Device, zone: nat): (d: Cache<B>)
    requires Sound(c)
    ensures Sound(d)
  {
    if Readable(c, m, zone) then Fetched(c, m, zone) else c
  }

  // Index blocks lead from one zone number to another: the entry taken in each, as the block reads when the walk comes
  // to it, has the bytes of the next.
  ghost predicate Leads<B>(c: Cache<B>, m: Device, zone: nat, steps: seq<nat>, w: nat)
    requires Sound(c)
    decreases |steps|
  {
    if steps == [] then w == zone
    else exists x :: Points(c, m, zone, steps[0], x) && Leads(Past(c, m, zone), m, x, steps[1..], w)
  }

  // What a file with these zone numbers has for its n-th zone.
  ghost predicate Reaches<B>(c: Cache<B>, m: Device, zones: seq<nat>, n: nat, w: nat)
    requires Sound(c) && |zones| == 10
  {
    if n < 7 then w == zones[n]
    else if n < 263 then Leads(c, m, zones[7], [n - 7], w)
    else if n < 65799 then Leads(c, m, zones[8], [(n - 263) / 256, (n - 263) % 256], w)
    else Leads(c, m, zones[9], [(n - 65799) / 65536, (n - 65799) % 65536 / 256, (n - 65799) % 256], w)
  }

  // Block blk is where byte position `offset` of the file lies.
  ghost predicate Located<B>(c: Cache<B>, m: Device, zones: seq<nat>, offset: nat, blk: nat)
    requires Sound(c) && |zones| == 10
  {
    exists w :: Reaches(c, m, zones, offset / 1024, w) && blk == (m.nstart + w) % 0x1_0000_0000
  }

  lemma PointsIff<B>(c: Cache<B>, m: Device, zone: nat, i: nat, w: nat)
    requires Sound(c) && i < 256
    ensures Points(c, m, zone, i, w) <==> EntryNow(c, m, m.Blk(zone), i) == w
  {
    hide Word, IsBytes;
    EntryIff(Logical(c, Key(m.dev, m.Blk(zone)), m.image), i, w);
  }

  lemma {:induction false} WalkByBytes<B>(c: Cache<B>, m: Device, zone: nat, steps: seq<nat>)
    requires Sound(c) && (forall s :: s in steps ==> s < INDIRECT_ZONES) && FollowIn(c, m, zone, steps).value.Some?
    ensures Leads(c, m, zone, steps, FollowIn(c, m, zone, steps).value.value)
    decreases |steps|
  {
    hide Points, Sound, Readable, EntryNow, Fetched, ReadIn;
    if steps != [] {
      FirstStep(c, m, zone, steps);
      var x := EntryNow(c, m, m.Blk(zone), steps[0]);
      PointsIff(c, m, zone, steps[0], x);
      WalkByBytes(Past(c, m, zone), m, x, steps[1..]);
    }
  }

  /** get_zone's answer is the block the bytes lead to: the zone number of the inode, or the entry, lowest byte
      first, of the last of one, two or three index blocks, counted from the start of the partition. */
  lemma ZoneByBytes<B>(c: Cache<B>, m: Device, zones: seq<nat>, offset: nat)
    requires Sound(c) && |zones| == NUMBER_ZONE && offset < U32 && ZoneIn(c, m, zones, offset).value.Some?
    ensures Located(c, m, zones, offset, ZoneIn(c, m, zones, offset).value.value)
  {
    hide FollowIn, Leads, Sound, Keeps;
    OffsetsReachable(offset);
    var p := PathOf(offset / BLOCK_SIZE).value;
    WalkByBytes(c, m, zones[p.root], p.steps);
    NoStep(c, m, zones[p.root]);
    assert Reaches(c, m, zones, offset / 1024, FollowIn(c, m, zones[p.root], p.steps).value.value);
  }

  lemma NoStep<B>(c: Cache<B>, m: Device, zone: nat)
    requires Sound(c)
    ensures FollowIn(c, m, zone, []).value == Some(zone)
  {
  }

  // In c block blk has, from a place in it on, the bytes of a directory entry: the inode number, lowest byte first, and
  // the 30 bytes of the name.
  ghost predicate HasEntry<B>(c: Cache<B>, m: Device, blk: nat, at: nat, e: Direction)
    requires Sound(c) && at + 32 <= 1024
  {
    var d := Logical(c, Key(m.dev, blk), m.image);
    IsBytes(d[at..at + 2], e.inode) && e.name == d[at + 2..at + 32]
  }

  // A directory has this entry at byte position seek, as its blocks read when _next_file comes to them.
  ghost predicate EntryLies<B>(c: Cache<B>, m: Device, node: PyIndexNode, seek: nat, e: Direction)
    requires Sound(c) && seek < U32
  {
    seek % 1024 + 32 <= 1024 &&
    exists blk :: Located(c, m, ZoneNumbers(node), seek, blk) &&
                  HasEntry(ZoneIn(c, m, ZoneNumbers(node), seek).c, m, blk, seek % 1024, e)
  }

  /** The entry _next_file reads is the one whose bytes lie at the position in the directory. */
  lemma EntryByBytes<B>(c: Cache<B>, m: Device, node: PyIndexNode, seek: nat)
    requires Sound(c) && seek < U32 && Aligned(seek) && EntryIn(c, m, node, seek).value.Some?
    ensures EntryLies(c, m, node, seek, EntryIn(c, m, node, seek).value.value)
  {
    hide Located, ZoneIn, Keeps, Sound, Logical, Word16, IsBytes, ZoneNumbers;
    EntryFits(seek);
    var zones, at := ZoneNumbers(node), seek % 1024;
    ZoneByBytes(c, m, zones, seek);
    var z, e := ZoneIn(c, m, zones, seek), EntryIn(c, m, node, seek).value.value;
    var d := ReadIn(z.c, m, z.value.value).value.value;
    Word16Iff(d[at..at + 2], e.inode);
    assert HasEntry(z.c, m, z.value.value, at, e);
  }
}
