/** get_zone against its reference: the tree written out as the list of all the blocks of the file. */
module ZoneFlattening {
  import opened Machine
  import opened AtaRegisters
  import opened ZoneTree

  function Width(level: nat): (w: nat)
    ensures w > 0
  {
    if level == 0 then 1 else INDIRECT_ZONES * Width(level - 1)
  }

  // The zones below a zone number, left to right; None throughout where an index block cannot be read.
  ghost function Leaves(v: Volume, level: nat, zone: nat): (s: seq<Option<nat>>)
    ensures |s| == Width(level)
    decreases level, INDIRECT_ZONES + 1
  {
    if level == 0 then [Some(zone)]
    else match v.Zone(zone)
      case None => seq(Width(level), _ => None)
      case Some(d) => Children(v, level, d, INDIRECT_ZONES)
  }

  // The zones below the first k entries of an index block.
  ghost function Children(v: Volume, level: nat, d: Block, k: nat): (s: seq<Option<nat>>)
    requires level > 0 && k <= INDIRECT_ZONES
    ensures |s| == k * Width(level - 1)
    decreases level, k
  {
    if k == 0 then []
    else Children(v, level, d, k - 1) + Leaves(v, level - 1, Word(d, k - 1))
  }

  // All the blocks of a file, in order.
  ghost function Flat(v: Volume, zones: seq<nat>): seq<Option<nat>>
    requires |zones| == NUMBER_ZONE
  {
    seq(DIRECT_ZONE, i requires 0 <= i < DIRECT_ZONE => Some(zones[i]))
    + Leaves(v, 1, zones[DIRECT_ZONE])
    + Leaves(v, 2, zones[DIRECT_ZONE + 1])
    + Leaves(v, 3, zones[DIRECT_ZONE + 2])
  }

  lemma {:induction false} ChildAt(v: Volume, level: nat, d: Block, k: nat, i: nat, j: nat)
    requires 0 < level && i < k <= INDIRECT_ZONES && j < Width(level - 1)
    ensures i * Width(level - 1) + j < k * Width(level - 1)
    ensures Children(v, level, d, k)[i * Width(level - 1) + j] == Leaves(v, level - 1, Word(d, i))[j]
    decreases k
  {
    var w := Width(level - 1);
    assert k * w == (k - 1) * w + w;
    if i < k - 1 {
      ChildAt(v, level, d, k - 1, i, j);
    } else {
      assert i * w == (k - 1) * w;
    }
  }

  // Position of a leaf from the steps leading to it.
  ghost function Position(steps: seq<nat>): nat {
    if steps == [] then 0 else steps[0] * Width(|steps| - 1) + Position(steps[1..])
  }

  lemma {:induction false} FollowIsLeaf(v: Volume, zone: nat, steps: seq<nat>)
    requires forall s :: s in steps ==> s < INDIRECT_ZONES
    ensures Position(steps) < Width(|steps|)
    ensures Follow(v, zone, steps) == Leaves(v, |steps|, zone)[Position(steps)]
    decreases |steps|
  {
    if steps != [] {
      var s, rest := steps[0], steps[1..];
      assert s in steps && forall x :: x in rest ==> x in steps;
      var w := Width(|rest|);
      match v.Zone(zone)
      case Some(d) =>
        FollowIsLeaf(v, Word(d, s), rest);
        ChildAt(v, |steps|, d, INDIRECT_ZONES, s, Position(rest));
      case None =>
        FollowIsLeaf(v, zone, rest);
        PositionBound(steps);
    }
  }

  lemma {:induction false} PositionBound(steps: seq<nat>)
    requires forall s :: s in steps ==> s < INDIRECT_ZONES
    ensures Position(steps) < Width(|steps|)
  {
    if steps != [] {
      assert steps[0] in steps && forall x :: x in steps[1..] ==> x in steps;
      PositionBound(steps[1..]);
      var w := Width(|steps| - 1);
      Ordered(steps[0], INDIRECT_ZONES, w);
    }
  }

  /** get_zone finds exactly the block that the written-out list of the file's blocks has at the offset. */
  lemma ZoneBlockIsFlatLookup(v: Volume, zones: seq<nat>, bytesOffset: nat)
    requires |zones| == NUMBER_ZONE && bytesOffset < U32
    ensures |Flat(v, zones)| == DIRECT_ZONE + INDIRECT_ZONES + DINDIRECT_ZONES + TINDIRECT_ZONES
    ensures bytesOffset / BLOCK_SIZE < |Flat(v, zones)|
    ensures ZoneBlock(v, zones, bytesOffset) ==
            match Flat(v, zones)[bytesOffset / BLOCK_SIZE]
            case Some(zone) => Some(v.Blk(zone))
            case None => None
  {
    hide Leaves, Flat, Follow, Position, PathOf, Width;
    var zone := bytesOffset / BLOCK_SIZE;
    OffsetsReachable(bytesOffset);
    ZoneRecovered(zone);
    var p := PathOf(zone).value;
    FollowIsLeaf(v, zones[p.root], p.steps);
    PositionMatches(p);
    PositionBound(p.steps);
    FlatAt(v, zones, p.root, |p.steps|, Position(p.steps));
    assert Flat(v, zones)[zone] == Follow(v, zones[p.root], p.steps);
  }

  // Where each root's leaves stand in the list.
  lemma FlatAt(v: Volume, zones: seq<nat>, root: nat, level: nat, i: nat)
    requires |zones| == NUMBER_ZONE && root < NUMBER_ZONE
    requires level == (if root < DIRECT_ZONE then 0 else root - DIRECT_ZONE + 1) && i < Width(level)
    ensures |Flat(v, zones)| == DIRECT_ZONE + INDIRECT_ZONES + DINDIRECT_ZONES + TINDIRECT_ZONES
    ensures var start := (if root <= DIRECT_ZONE then root
                          else if root == DIRECT_ZONE + 1 then DIRECT_ZONE + INDIRECT_ZONES
                          else DIRECT_ZONE + INDIRECT_ZONES + DINDIRECT_ZONES);
            start + i < |Flat(v, zones)| && Flat(v, zones)[start + i] == Leaves(v, level, zones[root])[i]
  {
    hide Leaves;
    assert Width(0) == 1 && Width(1) == INDIRECT_ZONES && Width(2) == DINDIRECT_ZONES && Width(3) == TINDIRECT_ZONES;
    if root < DIRECT_ZONE { DirectLeaf(v, zones[root]); }
  }

  lemma DirectLeaf(v: Volume, zone: nat)
    ensures Leaves(v, 0, zone) == [Some(zone)]
  {
  }

  lemma PositionMatches(p: Path)
    requires p.root < NUMBER_ZONE && |p.steps| == if p.root < DIRECT_ZONE then 0 else p.root - DIRECT_ZONE + 1
    ensures Position(p.steps) ==
            ZoneOf(p) - (if p.root <= DIRECT_ZONE then p.root
                         else if p.root == DIRECT_ZONE + 1 then DIRECT_ZONE + INDIRECT_ZONES
                         else DIRECT_ZONE + INDIRECT_ZONES + DINDIRECT_ZONES)
  {
    var s := p.steps;
    assert Width(0) == 1 && Width(1) == INDIRECT_ZONES && Width(2) == DINDIRECT_ZONES;
    if |s| == 1 {
      assert Position(s) == s[0] * 1 + Position(s[1..]);
    } else if |s| == 2 {
      assert Position(s) == s[0] * INDIRECT_ZONES + Position(s[1..]);
      assert Position(s[1..]) == s[1] * 1 + Position(s[1..][1..]);
    } else if |s| == 3 {
      assert Position(s) == s[0] * DINDIRECT_ZONES + Position(s[1..]);
      assert Position(s[1..]) == s[1] * INDIRECT_ZONES + Position(s[1..][1..]);
      assert Position(s[1..][1..]) == s[2] * 1 + Position(s[1..][1..][1..]);
    }
  }
}
