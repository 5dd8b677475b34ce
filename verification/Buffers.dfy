/** The buffer record of minixfs/buffer.h and the two linked structures minixfs/buffer.c threads through it. */
module Buffers {
  import opened Machine

  class BlockBuffer {
    var data: Block
    var dev: nat
    var blk: nat
    var status: nat
    var hashPrev: BlockBuffer?
    var hashNext: BlockBuffer?
    var prev: BlockBuffer?
    var next: BlockBuffer?

    // A buffer in the zero-filled page that init_block_buffer carves up.
    constructor ()
      ensures dev == blk == status == 0
      ensures hashPrev == hashNext == prev == next == null
    {
      data := seq(BLOCK_SIZE, _ => 0);
      dev, blk, status := 0, 0, 0;
      hashPrev, hashNext, prev, next := null, null, null, null;
    }
  }

  // s is the circular doubly linked list entered at head.
  ghost predicate IsRing(head: BlockBuffer?, s: seq<BlockBuffer>)
    reads s`prev, s`next
  {
    && Distinct(s)
    && head == (if s == [] then null else s[0])
    && (forall i {:trigger s[i].next} :: 0 <= i < |s| ==> s[i].next == s[Succ(i, |s|)])
    && (forall i {:trigger s[i].prev} :: 0 <= i < |s| ==> s[i].prev == s[Pred(i, |s|)])
  }

  // s is the null-terminated doubly linked list starting at head.
  ghost predicate IsChain(head: BlockBuffer?, s: seq<BlockBuffer>)
    reads s`hashPrev, s`hashNext
  {
    && Distinct(s)
    && head == (if s == [] then null else s[0])
    && (forall i {:trigger s[i].hashNext} :: 0 <= i < |s| ==> s[i].hashNext == if i + 1 < |s| then s[i + 1] else null)
    && (forall i {:trigger s[i].hashPrev} :: 0 <= i < |s| ==> s[i].hashPrev == if i > 0 then s[i - 1] else null)
  }

  // HASH(val): 32-bit multiplication by HASH_MAGIC, then the bucket.
  const HASH_LEN: nat := 100
  const HASH_MAGIC: nat := HASH_LEN * 1000 / 618

  function Hash(val: nat): (h: nat)
    ensures h < HASH_LEN
  {
    val * HASH_MAGIC % U32 % HASH_LEN
  }
}
