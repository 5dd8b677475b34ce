/** Whole runs of get_block, release_block and client writes against the buffer cache. */
module CacheRuns {
  import opened Machine
  import opened CacheModel

  datatype Op<B> = GetOp(key: Key) | ReleaseOp(buf: B) | WriteOp(buf: B, content: Block)

  // What the kernel's callers must respect for buffers to have one owner: a held block is not requested
  // again, a hit leaves a buffer in the ring, and only a holder writes or releases.
  ghost predicate Allowed<B>(c: Cache<B>, op: Op<B>) {
    match op
    case GetOp(k) => c.free != [] && !Holding(c, k) && (k in c.index ==> |c.free| >= 2)
    case ReleaseOp(b) => b in c.held
    case WriteOp(b, _) => b in c.held
  }

  ghost function Step<B>(c: Cache<B>, op: Op<B>, disk: Image): Cache<B>
    requires Allowed(c, op)
  {
    match op
    case GetOp(k) => Get(c, k, disk)
    case ReleaseOp(b) => Release(c, b)
    case WriteOp(b, d) => Write(c, b, d)
  }

  // The state after a run, if every operation of it was allowed when it came.
  ghost function Run<B>(c: Cache<B>, ops: seq<Op<B>>, disk: Image): Option<Cache<B>> {
    if ops == [] then Some(c)
    else
      var before :- Run(c, ops[..|ops| - 1], disk);
      if Allowed(before, ops[|ops| - 1]) then Some(Step(before, ops[|ops| - 1], disk)) else None
  }

  lemma StepSafe<B>(c: Cache<B>, op: Op<B>, disk: Image)
    requires WellFormed(c) && Exclusive(c) && Allowed(c, op)
    ensures WellFormed(Step(c, op, disk)) && Exclusive(Step(c, op, disk))
    ensures Step(c, op, disk).pool == c.pool
  {
    match op
    case GetOp(k) =>
      GetReturnsBlock(c, k, disk);
      GetKeepsOwnershipIff(c, k, disk);
    case ReleaseOp(b) =>
      ReleaseKeepsOwnershipIff(c, b);
      assert multiset(c.free)[b] + c.held[b] == multiset(c.pool)[b];
      assert b !in c.free;
    case WriteOp(b, d) =>
  }

  /** Over every disciplined run each buffer is in the free ring exactly once or held exactly once, never
      both, and no block is cached by two buffers. */
  lemma {:induction false} RunSafe<B>(c: Cache<B>, ops: seq<Op<B>>, disk: Image)
    requires WellFormed(c) && Exclusive(c) && Run(c, ops, disk).Some?
    ensures var d := Run(c, ops, disk).value;
            && WellFormed(d) && Exclusive(d) && d.pool == c.pool
            && (forall b :: b in c.pool ==> (b in d.free <==> b !in d.held) && d.held[b] <= 1)
    decreases |ops|
  {
    if ops == [] {
      ExclusiveMeansOneOwner(c);
    } else {
      RunSafe(c, ops[..|ops| - 1], disk);
      StepSafe(Run(c, ops[..|ops| - 1], disk).value, ops[|ops| - 1], disk);
      ExclusiveMeansOneOwner(Run(c, ops, disk).value);
    }
  }

  lemma ExclusiveMeansOneOwner<B>(c: Cache<B>)
    requires Exclusive(c)
    ensures forall b :: b in c.pool ==> (b in c.free <==> b !in c.held) && c.held[b] <= 1
  {
    forall b | b in c.pool ensures (b in c.free <==> b !in c.held) && c.held[b] <= 1 {
      assert multiset(c.free)[b] + c.held[b] == multiset(c.pool)[b] == 1;
    }
  }

  lemma OwnedOnce<B>(c: Cache<B>, b: B)
    requires WellFormed(c) && Exclusive(c) && b in c.held
    ensures b !in c.free
  {
    ExclusiveMeansOneOwner(c);
  }

  // ----- Recycling order -----

  // When b was last released: later releases rank higher; a buffer not released since the start keeps its
  // place in the initial ring, before every released one.
  ghost function Rank<B>(c: Cache<B>, ops: seq<Op<B>>, b: B): nat {
    if ops == [] then if b in c.free then IndexIn(c.free, b) else 0
    else if ops[|ops| - 1] == ReleaseOp(b) then |c.free| + |ops|
    else Rank(c, ops[..|ops| - 1], b)
  }

  ghost predicate RankSorted<B>(c: Cache<B>, ops: seq<Op<B>>, free: seq<B>) {
    forall i, j :: 0 <= i < j < |free| ==> Rank(c, ops, free[i]) < Rank(c, ops, free[j])
  }

  lemma {:induction false} RankBound<B>(c: Cache<B>, ops: seq<Op<B>>, b: B)
    requires c.free != []
    ensures Rank(c, ops, b) <= |c.free| + |ops|
    decreases |ops|
  {
    if ops != [] { RankBound(c, ops[..|ops| - 1], b); }
  }

  lemma GetKeepsOrder<B>(c: Cache<B>, ops: seq<Op<B>>, before: Cache<B>, k: Key, disk: Image)
    requires before.free != [] && RankSorted(c, ops, before.free)
    ensures RankSorted(c, ops + [GetOp(k)], Get(before, k, disk).free)
  {
  }

  lemma ReleaseKeepsOrder<B>(c: Cache<B>, ops: seq<Op<B>>, before: Cache<B>, b: B)
    requires c.free != [] && b !in before.free && RankSorted(c, ops, before.free)
    ensures RankSorted(c, ops + [ReleaseOp(b)], Release(before, b).free)
  {
    var free := before.free;
    var later := ops + [ReleaseOp(b)];
    assert later[..|ops|] == ops;
    forall x | x in free ensures Rank(c, later, x) == Rank(c, ops, x) < Rank(c, later, b) {
      RankBound(c, ops, x);
    }
  }

  lemma WriteKeepsOrder<B>(c: Cache<B>, ops: seq<Op<B>>, before: Cache<B>, b: B, d: Block)
    requires RankSorted(c, ops, before.free)
    ensures RankSorted(c, ops + [WriteOp(b, d)], Write(before, b, d).free)
  {
  }

  lemma InitialOrder<B>(c: Cache<B>)
    requires WellFormed(c)
    ensures RankSorted(c, [], c.free)
  {
  }

  /** The free ring is always ordered by time of release, oldest first. */
  lemma {:induction false} FreeRingOldestFirst<B>(c: Cache<B>, ops: seq<Op<B>>, disk: Image)
    requires WellFormed(c) && Exclusive(c) && c.free != [] && Run(c, ops, disk).Some?
    ensures RankSorted(c, ops, Run(c, ops, disk).value.free)
    decreases |ops|
  {
    if ops == [] {
      InitialOrder(c);
    } else {
      hide Rank, RankSorted, WellFormed, Exclusive, Get, Release, Write;
      var prefix, op := ops[..|ops| - 1], ops[|ops| - 1];
      assert ops == prefix + [op];
      var before := Run(c, prefix, disk).value;
      FreeRingOldestFirst(c, prefix, disk);
      RunSafe(c, prefix, disk);
      match op
      case GetOp(k) => GetKeepsOrder(c, prefix, before, k, disk);
      case ReleaseOp(b) =>
        OwnedOnce(before, b);
        ReleaseKeepsOrder(c, prefix, before, b);
      case WriteOp(b, d) => WriteKeepsOrder(c, prefix, before, b, d);
    }
  }

  /** The buffer a miss recycles is the free buffer that was released longest ago. */
  lemma VictimReleasedLongestAgo<B>(c: Cache<B>, ops: seq<Op<B>>, k: Key, disk: Image)
    requires WellFormed(c) && Exclusive(c) && c.free != [] && Run(c, ops, disk).Some?
    requires var d := Run(c, ops, disk).value; k !in d.index && d.free != []
    ensures var d := Run(c, ops, disk).value;
            forall b :: b in d.free && b != Chosen(d, k) ==> Rank(c, ops, Chosen(d, k)) < Rank(c, ops, b)
  {
    FreeRingOldestFirst(c, ops, disk);
  }

  // ----- Logical contents along a run -----

  // An operation after which block k reads as before: no write lands in k's buffer, and if a miss recycles
  // k's buffer then the disk already has what the buffer had.
  ghost predicate Undisturbed<B>(c: Cache<B>, op: Op<B>, k: Key, disk: Image)
    requires WellFormed(c) && Allowed(c, op)
  {
    match op
    case GetOp(l) =>
      l in c.index || k !in c.index || c.index[k] != c.free[0] || c.data[c.free[0]] == disk(k.blk)
    case ReleaseOp(_) => true
    case WriteOp(b, d) => k !in c.index || c.index[k] != b || d == c.data[b]
  }

  lemma StepKeepsBlockIff<B>(c: Cache<B>, op: Op<B>, k: Key, disk: Image)
    requires WellFormed(c) && Exclusive(c) && Allowed(c, op)
    ensures WellFormed(Step(c, op, disk))
    ensures Logical(Step(c, op, disk), k, disk) == Logical(c, k, disk) <==> Undisturbed(c, op, k, disk)
  {
    StepSafe(c, op, disk);
  }

  ghost predicate QuietRun<B>(c: Cache<B>, ops: seq<Op<B>>, k: Key, disk: Image)
    requires WellFormed(c) && Exclusive(c) && Run(c, ops, disk).Some?
    decreases |ops|
  {
    ops == [] ||
    (RunSafe(c, ops[..|ops| - 1], disk);
     && QuietRun(c, ops[..|ops| - 1], k, disk)
     && Undisturbed(Run(c, ops[..|ops| - 1], disk).value, ops[|ops| - 1], k, disk))
  }

  /** Whatever other blocks are fetched, released and modified meanwhile, a block nobody writes and whose
      dirty buffer is not recycled reads the same at the end of the run as at its start. */
  lemma {:induction false} QuietRunKeepsBlock<B>(c: Cache<B>, ops: seq<Op<B>>, k: Key, disk: Image)
    requires WellFormed(c) && Exclusive(c) && Run(c, ops, disk).Some? && QuietRun(c, ops, k, disk)
    ensures WellFormed(Run(c, ops, disk).value)
    ensures Logical(Run(c, ops, disk).value, k, disk) == Logical(c, k, disk)
    decreases |ops|
  {
    RunSafe(c, ops, disk);
    if ops != [] {
      var prefix := ops[..|ops| - 1];
      RunSafe(c, prefix, disk);
      QuietRunKeepsBlock(c, prefix, k, disk);
      StepKeepsBlockIff(Run(c, prefix, disk).value, ops[|ops| - 1], k, disk);
    }
  }
}
