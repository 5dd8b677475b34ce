/** Machine-level vocabulary shared by the kernel models: C integer widths, bytes and disk blocks. */
module Machine {

  const U32: nat := 0x1_0000_0000
  const U16: nat := 0x1_0000

  // Bytes in a cached block: 1 << BLOCK_LOG_SIZE in fs.h, BLK_BUFFER_SIZE in buffer.h.
  const BLOCK_SIZE: nat := 1024

  type Block = s: seq<bv8> | |s| == BLOCK_SIZE witness seq(BLOCK_SIZE, _ => 0)

  // What the drive holds: one block of content for each block number.
  type Image = nat -> Block

  datatype Option<+T> = None | Some(value: T) {
    predicate IsFailure() { None? }

    function PropagateFailure<U>(): Option<U>
      requires None?
    {
      None
    }

    function Extract(): T
      requires Some?
    {
      value
    }
  }

  ghost predicate Distinct<T>(s: seq<T>) {
    forall i, j :: 0 <= i < j < |s| ==> s[i] != s[j]
  }

  // A sequence without the element at index i.
  function Without<T>(s: seq<T>, i: nat): (r: seq<T>)
    requires i < |s|
  {
    s[..i] + s[i + 1..]
  }

  lemma DistinctWithout<T>(s: seq<T>, i: nat)
    requires Distinct(s) && i < |s|
    ensures Distinct(Without(s, i))
    ensures forall x :: x in Without(s, i) <==> x in s && x != s[i]
  {
  }

  // Neighbours in a circular sequence of length n.
  function Succ(i: nat, n: nat): nat {
    if i + 1 < n then i + 1 else 0
  }

  function Pred(i: nat, n: nat): nat
    requires i < n
  {
    if i > 0 then i - 1 else n - 1
  }

  // Neighbours in a circular sequence after the element at i is left out.
  lemma NeighboursWithout<B>(s: seq<B>, i: nat, j: nat)
    requires i < |s| && j < |s| - 1
    ensures var t, k := Without(s, i), if j < i then j else j + 1;
            && t[j] == s[k]
            && t[Succ(j, |t|)] == s[if k == Pred(i, |s|) then Succ(i, |s|) else Succ(k, |s|)]
            && t[Pred(j, |t|)] == s[if k == Succ(i, |s|) then Pred(i, |s|) else Pred(k, |s|)]
  {
  }

  // Consecutive blocks of the same size do not run into later ones.
  lemma {:induction false} Ordered(i: nat, j: nat, size: nat)
    requires i < j
    ensures i * size + size <= j * size
  {
    if i + 1 < j { Ordered(i, j - 1, size); }
    assert j * size == (j - 1) * size + size;
  }
}
