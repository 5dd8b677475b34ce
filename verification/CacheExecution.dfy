/** Whole runs of calls on the block cache of minixfs/buffer.c. */
module CacheExecution {
  import opened Machine
  import opened AtaRegisters
  import opened Buffers
  import opened CacheModel
  import opened CacheRuns
  import opened BufferCache

  // Blocks the drive can be asked for.
  ghost predicate Addressable(ops: seq<Op<BlockBuffer>>) {
    forall i :: 0 <= i < |ops| && ops[i].GetOp? ==> ops[i].key.blk < MAX_BLK
  }

  // One call.
  method Perform(cache: BlockCache, op: Op<BlockBuffer>, ghost c: Cache<BlockBuffer>)
    requires cache.Valid() && cache.View() == c && WellFormed(c) && Exclusive(c) && Allowed(c, op)
    requires op.GetOp? ==> op.key.blk < MAX_BLK
    modifies cache.Repr()
    ensures cache.Valid() && cache.View() == Step(c, op, cache.disk.image)
  {
    hide BlockCache.Valid, WellFormed, Exclusive, Get;
    CanPerform(c, op);
    match op {
      case GetOp(k) =>
        var patience: nat := *;
        var _ := cache.GetBlock(k.dev, k.blk, patience);
      case ReleaseOp(b) => cache.ReleaseBlock(b);
      case WriteOp(b, d) => cache.WriteData(b, d);
    }
  }

  lemma CanPerform(c: Cache<BlockBuffer>, op: Op<BlockBuffer>)
    requires WellFormed(c) && Exclusive(c) && Allowed(c, op)
    ensures op.ReleaseOp? || op.WriteOp? ==> op.buf in c.pool && op.buf !in c.free
  {
    ExclusiveMeansOneOwner(c);
  }

  /** Every disciplined run of get_block, release_block and client writes leaves the linked structures in
      exactly the state the specification's run ends in. */
  method Execute(cache: BlockCache, ops: seq<Op<BlockBuffer>>, ghost c: Cache<BlockBuffer>)
    requires cache.Valid() && cache.View() == c && WellFormed(c) && Exclusive(c)
    requires Run(c, ops, cache.disk.image).Some? && Addressable(ops)
    modifies cache.Repr()
    ensures cache.Valid() && Run(c, ops, cache.disk.image) == Some(cache.View())
  {
    hide BlockCache.Valid, WellFormed, Exclusive, Run, Allowed, Step, BlockCache.View;
    RunStart(c, cache.disk.image);
    for i := 0 to |ops|
      invariant cache.Valid() && Run(c, ops[..i], cache.disk.image) == Some(cache.View())
    {
      hide BlockCache.Valid, WellFormed, Exclusive, Run, Allowed, Step, BlockCache.View;
      RunTurn(c, ops, cache.disk.image, i);
      Perform(cache, ops[i], Run(c, ops[..i], cache.disk.image).value);
    }
    assert ops[..|ops|] == ops;
  }

  lemma RunStart(c: Cache<BlockBuffer>, disk: Image)
    ensures Run(c, [], disk) == Some(c)
  {
  }

  lemma {:induction false} RunTurn(c: Cache<BlockBuffer>, ops: seq<Op<BlockBuffer>>, disk: Image, i: nat)
    requires WellFormed(c) && Exclusive(c) && Run(c, ops, disk).Some? && i < |ops|
    ensures Run(c, ops[..i], disk).Some?
    ensures var d := Run(c, ops[..i], disk).value;
            && WellFormed(d) && Exclusive(d) && Allowed(d, ops[i])
            && Run(c, ops[..i + 1], disk) == Some(Step(d, ops[i], disk))
    decreases |ops|
  {
    hide WellFormed, Exclusive, Allowed, Step;
    if i == |ops| - 1 {
      assert ops[..i + 1] == ops;
      RunSafe(c, ops[..i], disk);
    } else {
      var prefix := ops[..|ops| - 1];
      assert prefix[..i] == ops[..i] && prefix[..i + 1] == ops[..i + 1];
      RunTurn(c, prefix, disk, i);
    }
  }
}
