/** Byte-addressed physical memory with little-endian 32-bit words, and linked lists threaded through it. */
module Ram {
  import opened Machine

  type Byte = x: int | 0 <= x < 256

  type Memory = m: seq<Byte> | |m| == U32 witness seq(U32, _ => 0)

  function Read32(m: Memory, a: nat): (v: nat)
    requires a + 4 <= U32
    ensures v < U32
  {
    var b0: int, b1: int, b2: int, b3: int := m[a], m[a + 1], m[a + 2], m[a + 3];
    b0 + 0x100 * b1 + 0x1_0000 * b2 + 0x100_0000 * b3
  }

  function Write32(m: Memory, a: nat, v: nat): Memory
    requires a + 4 <= U32 && v < U32
  {
    m[a := v % 0x100][a + 1 := v / 0x100 % 0x100][a + 2 := v / 0x1_0000 % 0x100][a + 3 := v / 0x100_0000]
  }

  // The four bytes of v put v back together.
  lemma BytesOf(v: nat)
    requires v < U32
    ensures v == v % 0x100 + 0x100 * (v / 0x100 % 0x100) + 0x1_0000 * (v / 0x1_0000 % 0x100)
                 + 0x100_0000 * (v / 0x100_0000)
    ensures v / 0x100_0000 < 0x100
  {
    var w := v / 0x100;
    assert v / 0x1_0000 == w / 0x100;
    assert v / 0x100_0000 == w / 0x1_0000;
    assert w == w % 0x100 + 0x100 * (w / 0x100 % 0x100) + 0x1_0000 * (w / 0x1_0000);
  }

  lemma ReadBack(m: Memory, a: nat, v: nat)
    requires a + 4 <= U32 && v < U32
    ensures Read32(Write32(m, a, v), a) == v
  {
    BytesOf(v);
  }

  ghost predicate SameBytes(m: Memory, n: Memory, a: nat, size: nat)
    requires a + size <= U32
  {
    forall x :: a <= x < a + size ==> m[x] == n[x]
  }

  // ----- Lists of blocks linked through their first word; address 0 is NULL -----

  ghost function Follower(s: seq<nat>, i: nat): nat {
    if i + 1 < |s| then s[i + 1] else 0
  }

  ghost predicate Node(m: Memory, s: seq<nat>, i: nat)
    requires i < |s|
  {
    0 < s[i] && s[i] + 4 <= U32 && Read32(m, s[i]) == Follower(s, i)
  }

  ghost predicate IsList(m: Memory, head: nat, s: seq<nat>) {
    && head == (if s == [] then 0 else s[0])
    && forall i :: 0 <= i < |s| ==> Node(m, s, i)
  }

  // The word at p touches no node of the list.
  ghost predicate Apart(p: nat, size: nat, s: seq<nat>) {
    forall q :: q in s ==> q + 4 <= p || p + size <= q
  }

  lemma ListKept(m: Memory, n: Memory, head: nat, s: seq<nat>)
    requires IsList(m, head, s)
    requires forall q :: q in s && q + 4 <= U32 ==> SameBytes(m, n, q, 4)
    ensures IsList(n, head, s)
  {
    forall i | 0 <= i < |s| ensures Node(n, s, i) {
      assert Node(m, s, i) && s[i] in s;
    }
  }

  lemma ListPushed(m: Memory, head: nat, s: seq<nat>, p: nat)
    requires IsList(m, head, s) && 0 < p && p + 4 <= U32 && head < U32 && Apart(p, 4, s)
    ensures IsList(Write32(m, p, head), p, [p] + s)
  {
    var n := Write32(m, p, head);
    ReadBack(m, p, head);
    assert forall q :: q in s && q + 4 <= U32 ==> SameBytes(m, n, q, 4);
    hide Read32, Write32;
    ListKept(m, n, head, s);
    var t := [p] + s;
    forall i | 0 <= i < |t| ensures Node(n, t, i) {
      if i == 0 {
        assert Follower(t, 0) == head;
      } else {
        assert Node(n, s, i - 1) && t[i] == s[i - 1] && Follower(t, i) == Follower(s, i - 1);
      }
    }
  }
}
