/** LOG_SIZE in mem/memory.h, and what malloc(LOG_SIZE(n)) gives the caller. */
module LogSize {
  import opened Machine
  import opened ArenaModel
  import opened Allocator

  function Pow2(k: nat): (p: nat)
    ensures p > 0
  {
    if k == 0 then 1 else 2 * Pow2(k - 1)
  }

  // The smallest power of two that is at least val; 0 for val <= 1.
  method Log(val: int) returns (ret: nat)
    ensures val <= Pow2(ret)
    ensures ret > 0 ==> Pow2(ret - 1) < val
  {
    var n := val - 1;
    ret := 0;
    while n > 0
      invariant n <= 0 ==> val <= Pow2(ret)
      invariant n > 0 ==> n * Pow2(ret) <= val - 1 < (n + 1) * Pow2(ret)
      invariant ret > 0 ==> Pow2(ret - 1) < val
      decreases n
    {
      Halve(n, Pow2(ret));
      n := n / 2;
      ret := ret + 1;
    }
  }

  lemma Halve(n: nat, p: nat)
    requires n > 0
    ensures p <= n * p
    ensures n / 2 * (2 * p) <= n * p && (n + 1) * p <= (n / 2 + 1) * (2 * p)
    ensures n == 1 ==> (n + 1) * p == 2 * p
  {
    var h := n / 2;
    assert h * (2 * p) == 2 * h * p && (h + 1) * (2 * p) == 2 * h * p + 2 * p;
    if n == 2 * h {
      assert (n + 1) * p == 2 * h * p + p;
    } else {
      assert n == 2 * h + 1;
      assert n * p == 2 * h * p + p && (n + 1) * p == 2 * h * p + 2 * p;
    }
    if n > 1 { assert n * p == (n - 1) * p + p; }
  }

  lemma PowersGrow(j: nat, k: nat)
    requires j < k
    ensures Pow2(j) < Pow2(k)
  {
  }

  lemma SliceSizes()
    ensures Pow2(4) == 16 && Pow2(10) == 1024
    ensures forall k :: MIN_LOG_SIZE <= k <= MAX_LOG_SIZE ==> Pow2(k) == Shift(k)
  {
  }

  /** malloc(LOG_SIZE(n)) falls in malloc's range exactly for 17 <= n <= 1024, and then the slice holds n
      bytes and wastes less than half of itself. */
  lemma SliceFitsIff(n: int, k: nat)
    requires n <= Pow2(k) && (k > 0 ==> Pow2(k - 1) < n)
    ensures MIN_LOG_SIZE <= k <= MAX_LOG_SIZE <==> 17 <= n <= 1024
    ensures MIN_LOG_SIZE <= k <= MAX_LOG_SIZE ==> n <= Shift(k) < 2 * n
  {
    SliceSizes();
    if k < MIN_LOG_SIZE {
      if k < 4 { PowersGrow(k, 4); }
    } else if k > MAX_LOG_SIZE {
      if k > 11 { PowersGrow(10, k - 1); }
    } else {
      if k > 5 { PowersGrow(4, k - 1); }
      if k < 10 { PowersGrow(k, 10); }
    }
  }
}
