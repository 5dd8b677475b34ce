/** The allocation bitmaps of the volume: _get_bit and _set_bit of minixfs/inodes.h, and what _alloc_bit of
    inodes.c and zones.c does to a bitmap spread over several blocks. */
module BitmapModel {
  import opened Machine

  const BLOCK_BITS: nat := 8192

  type Bitmap = seq<Block>

  // 1 << (num & 7)
  function Mask(num: nat): bv8 {
    match num % 8
    case 0 => 1
    case 1 => 2
    case 2 => 4
    case 3 => 8
    case 4 => 16
    case 5 => 32
    case 6 => 64
    case _ => 128
  }

  function GetBit(byte: bv8, num: nat): bv8 {
    byte & Mask(num)
  }

  function SetBit(byte: bv8, num: nat): bv8 {
    byte | Mask(num)
  }

  lemma MaskIsShift(num: nat)
    ensures Mask(num) == (1 as bv8) << (num % 8)
  {
    match num % 8
    case 0 =>
    case 1 =>
    case 2 =>
    case 3 =>
    case 4 =>
    case 5 =>
    case 6 =>
    case _ => assert num % 8 == 7;
  }

  /** Setting a bit sets that bit alone. */
  lemma SetBitSetsOne(byte: bv8, i: nat, j: nat)
    requires i < 8 && j < 8
    ensures GetBit(SetBit(byte, i), j) != 0 <==> i == j || GetBit(byte, j) != 0
  {
  }

  // Bit number n of the bitmap.
  ghost predicate Bit(map_: Bitmap, n: nat)
    requires n < BLOCK_BITS * |map_|
  {
    GetBit(map_[n / BLOCK_BITS][n / 8 % BLOCK_SIZE], n % 8) != 0
  }

  /** Bit n of a bitmap is bit n % 8, the lowest first, of byte n / 8 counted through its blocks. */
  lemma BitPlace(map_: Bitmap, n: nat)
    requires n < BLOCK_BITS * |map_|
    ensures n / 8192 < |map_|
    ensures Bit(map_, n) <==> map_[n / 8192][n / 8 % 1024] & ((1 as bv8) << (n % 8)) != 0
  {
    MaskIsShift(n);
    MaskIsShift(n % 8);
  }

  // The number _alloc_bit computes for a bit.
  function Number(blk: nat, byte: nat, bit: nat): nat {
    blk * BLOCK_SIZE * 8 + byte * 8 + bit
  }

  lemma Position(blk: nat, byte: nat, bit: nat)
    requires byte < BLOCK_SIZE && bit < 8
    ensures var n := Number(blk, byte, bit);
            n / BLOCK_BITS == blk && n / 8 % BLOCK_SIZE == byte && n % 8 == bit
  {
  }

  lemma SameNumber(n: nat)
    ensures n == Number(n / BLOCK_BITS, n / 8 % BLOCK_SIZE, n % 8)
  {
    assert n / 8 == BLOCK_SIZE * (n / BLOCK_BITS) + n / 8 % BLOCK_SIZE;
  }

  // The numbers already taken.
  ghost function Taken(map_: Bitmap): (s: set<nat>)
    ensures forall n: nat :: n in s <==> n < BLOCK_BITS * |map_| && Bit(map_, n)
  {
    set n | 0 <= n < BLOCK_BITS * |map_| && Bit(map_, n)
  }

  ghost predicate Full(map_: Bitmap) {
    forall n :: 0 <= n < BLOCK_BITS * |map_| ==> n in Taken(map_)
  }

  // Every number below n is taken.
  ghost predicate TakenBelow(map_: Bitmap, n: nat) {
    forall m :: 0 <= m < n ==> m in Taken(map_)
  }

  // The bitmap with one bit set.
  function Marked(map_: Bitmap, blk: nat, byte: nat, bit: nat): Bitmap
    requires blk < |map_| && byte < BLOCK_SIZE
  {
    map_[blk := map_[blk][byte := SetBit(map_[blk][byte], bit)]]
  }

  lemma MarkTakesOne(map_: Bitmap, blk: nat, byte: nat, bit: nat)
    requires blk < |map_| && byte < BLOCK_SIZE && bit < 8
    ensures Taken(Marked(map_, blk, byte, bit)) == Taken(map_) + {Number(blk, byte, bit)}
  {
    var after := Marked(map_, blk, byte, bit);
    InRange(|map_|, blk, byte, bit);
    Position(blk, byte, bit);
    hide Number, GetBit, SetBit;
    forall n | 0 <= n < BLOCK_BITS * |map_| ensures Bit(after, n) <==> Bit(map_, n) || n == Number(blk, byte, bit) {
      SameNumber(n);
      SetBitSetsOne(map_[blk][byte], bit, n % 8);
    }
  }

  lemma InRange(cnt: nat, blk: nat, byte: nat, bit: nat)
    requires blk < cnt && byte < BLOCK_SIZE && bit < 8
    ensures Number(blk, byte, bit) < BLOCK_BITS * cnt
  {
  }

  // One call of _alloc_bit: the least free number is taken, or nothing changes and the answer is 0.
  ghost predicate Allocated(before: Bitmap, n: nat, after: Bitmap) {
    && |after| == |before|
    && if Full(before) then n == 0 && after == before
       else
         && n < BLOCK_BITS * |before| && n !in Taken(before) && TakenBelow(before, n)
         && Taken(after) == Taken(before) + {n}
  }

  // Successive calls: ns[i] was answered on maps[i] and left maps[i + 1].
  ghost predicate AllocRun(maps: seq<Bitmap>, ns: seq<nat>) {
    && |maps| == |ns| + 1
    && forall i :: 0 <= i < |ns| ==> Allocated(maps[i], ns[i], maps[i + 1])
  }

  lemma {:induction false} TakenGrows(maps: seq<Bitmap>, ns: seq<nat>, i: nat, j: nat)
    requires AllocRun(maps, ns) && i <= j <= |ns|
    ensures Taken(maps[i]) <= Taken(maps[j]) && |maps[i]| == |maps[j]|
    decreases j - i
  {
    if i < j {
      assert Allocated(maps[i], ns[i], maps[i + 1]);
      TakenGrows(maps, ns, i + 1, j);
    }
  }

  /** A number is answered exactly once: with bit 0 set beforehand, over any run of calls an answer is 0
      exactly when the bitmap is full, and the other answers are strictly increasing. */
  lemma AllocationsAreDistinct(maps: seq<Bitmap>, ns: seq<nat>, i: nat, j: nat)
    requires AllocRun(maps, ns) && 0 in Taken(maps[0]) && i < j < |ns|
    ensures (ns[i] == 0 <==> Full(maps[i])) && (ns[j] == 0 <==> Full(maps[j]))
    ensures ns[j] != 0 ==> 0 < ns[i] < ns[j]
  {
    TakenGrows(maps, ns, 0, i);
    TakenGrows(maps, ns, i + 1, j);
    hide Taken;
    assert Allocated(maps[i], ns[i], maps[i + 1]) && Allocated(maps[j], ns[j], maps[j + 1]);
  }

  lemma OneCall(before: Bitmap, n: nat, after: Bitmap)
    requires Allocated(before, n, after) && 0 in Taken(before)
    ensures Taken(after) == Taken(before) + {n}
    ensures n != 0 ==> |Taken(after)| == |Taken(before)| + 1
  {
  }

  ghost function Answers(ns: seq<nat>): set<nat> {
    set n | n in ns
  }

  lemma AnswersSoFar(ns: seq<nat>, k: nat)
    requires k <= |ns|
    ensures Answers(ns[..k]) == if k == 0 then {} else Answers(ns[..k - 1]) + {ns[k - 1]}
  {
  }

  /** What a run has taken is what was taken before plus its answers. */
  lemma {:induction false} RunTakesItsAnswers(maps: seq<Bitmap>, ns: seq<nat>, k: nat)
    requires AllocRun(maps, ns) && 0 in Taken(maps[0]) && k <= |ns|
    ensures Taken(maps[k]) == Taken(maps[0]) + Answers(ns[..k])
  {
    hide Taken, Allocated, Answers;
    AnswersSoFar(ns, k);
    if k > 0 {
      RunTakesItsAnswers(maps, ns, k - 1);
      assert Allocated(maps[k - 1], ns[k - 1], maps[k]);
      OneCall(maps[k - 1], ns[k - 1], maps[k]);
    }
  }

  /** Without the pre-set bit the answer 0 is ambiguous: it means full exactly if bit 0 was taken or the map
      is empty. */
  lemma ZeroMeansFullIff(before: Bitmap, n: nat, after: Bitmap)
    requires Allocated(before, n, after)
    ensures (n == 0 <==> Full(before)) <==> before == [] || 0 in Taken(before)
  {
  }
}
