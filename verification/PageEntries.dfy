/** Entries of page directories and tables: 32-bit paging, section 4.3 of volume 3A of the Intel manual, as
    multi_task/page.h, knl_fork.c and page.c read and write them. */
module PageEntries {
  import opened Machine

  const PAGE_SIZE: nat := 4096
  const PAGES: nat := 0x10_0000      // linear pages, and page frames
  const ROW: nat := 1024             // entries in a directory or table

  type Word = x: int | 0 <= x < U32

  // PAGE_PRESENT, PAGE_WRITE and the frame number of an entry.
  predicate Present(e: Word) {
    e % 2 == 1
  }

  predicate Writable(e: Word) {
    e / 2 % 2 == 1
  }

  function FrameOf(e: Word): (f: nat)
    ensures f < PAGES
  {
    e / PAGE_SIZE
  }

  // PAGE_FLOOR(page) | PAGE_WRITE | PAGE_USER | PAGE_PRESENT
  function FullAccess(frame: nat): Word
    requires frame < PAGES
  {
    frame * PAGE_SIZE + 7
  }

  // e & ~PAGE_WRITE
  function ClearWrite(e: Word): Word {
    if Writable(e) then e - 2 else e
  }

  /** The tests and masks of the source are bitwise; each of their constants concerns bits of an entry's lowest
      byte, and keeps or leaves out the three bytes above as a whole. */
  lemma EntryBits(high: nat, low: bv8)
    requires high < 0x100_0000
    ensures var e: Word := 0x100 * high + low as nat;
            && (Present(e) <==> low & 1 != 0)
            && (Writable(e) <==> low & 2 != 0)
            && ClearWrite(e) == 0x100 * high + (low & !2) as nat
            && FrameOf(e) == high / 16
  {
    BitOne(low);
    BitTwo(low);
    BitTwoCleared(low);
    LowBitsOf(high, low as nat);
  }

  lemma LowBitsOf(high: nat, low: nat)
    requires high < 0x100_0000 && low < 0x100
    ensures Present(0x100 * high + low) <==> low % 2 == 1
    ensures Writable(0x100 * high + low) <==> low / 2 % 2 == 1
  {
    assert 0x100 * high + low == 4 * (0x40 * high + low / 4) + low % 4;
    Quarters(0x40 * high + low / 4, low % 4);
    Quarters(low / 4, low % 4);
  }

  lemma BitOne(low: bv8)
    ensures low as nat % 2 == 1 <==> low & 1 != 0
  {
  }

  lemma BitTwo(low: bv8)
    ensures low as nat / 2 % 2 == 1 <==> low & 2 != 0
  {
  }

  lemma BitTwoCleared(low: bv8)
    ensures (low & !2) as nat == if low & 2 != 0 then low as nat - 2 else low as nat
  {
  }

  lemma FullAccessIsBitwise(frame: nat)
    requires frame < PAGES
    ensures FullAccess(frame) == 0x100 * (16 * frame) + (0x00 as bv8 | 2 | 4 | 1) as nat
  {
  }

  // The entries at and above this index of a table are made read-only by a fork.
  const FIRST_SHARED: nat := 256

  predicate Shared(page: nat) {
    page % ROW >= FIRST_SHARED
  }

  // What a fork leaves in an entry of the parent, and puts in the child's.
  function Downgrade(page: nat, e: Word): Word {
    if Shared(page) then ClearWrite(e) else e
  }

  // Bit 1 of an entry stays below entry 256 of its table and is 0 from there on; all other bits stay.
  ghost predicate Forked(page: nat, e: Word, after: Word) {
    && after / 4 == e / 4 && after % 2 == e % 2
    && after / 2 % 2 == if page % 1024 < 256 then e / 2 % 2 else 0
  }

  ghost predicate ForkedEntry(page: nat, e: Option<Word>, after: Option<Word>) {
    if e.None? then after.None? else after.Some? && Forked(page, e.value, after.value)
  }

  lemma DowngradeKeepsFrame(page: nat, e: Word)
    ensures FrameOf(Downgrade(page, e)) == FrameOf(e)
    ensures Present(Downgrade(page, e)) == Present(e)
    ensures Writable(Downgrade(page, e)) <==> Writable(e) && !Shared(page)
    ensures Forked(page, e, Downgrade(page, e))
  {
    ClearedBits(e);
    OtherBits(e);
  }

  lemma OtherBits(e: Word)
    ensures ClearWrite(e) / 4 == e / 4 && ClearWrite(e) % 2 == e % 2 && ClearWrite(e) / 2 % 2 == 0
  {
    var q, r := e / 4, e % 4;
    assert e == 4 * q + r;
    Quarters(q, r);
    if r >= 2 {
      Quarters(q, r - 2);
      assert ClearWrite(e) == 4 * q + (r - 2);
    }
  }

  lemma ClearedBits(e: Word)
    ensures FrameOf(ClearWrite(e)) == FrameOf(e) && Present(ClearWrite(e)) == Present(e) && !Writable(ClearWrite(e))
  {
    if Writable(e) {
      var frame, low := e / PAGE_SIZE, e % PAGE_SIZE;
      assert e == PAGE_SIZE * frame + low;
      LowBits(frame, low);
    }
  }

  // With the write bit on, taking 2 away reaches no other bit.
  lemma LowBits(frame: nat, low: nat)
    requires low < PAGE_SIZE && (PAGE_SIZE * frame + low) / 2 % 2 == 1
    ensures low >= 2
    ensures var e: int := PAGE_SIZE * frame + (low - 2);
            e / PAGE_SIZE == frame && e % 2 == low % 2 && e / 2 % 2 == 0
  {
    var q := low / 4;
    assert low == 4 * q + low % 4;
    var n := 1024 * frame + q;
    Quarters(n, low % 4);
    assert low % 4 >= 2;
    Quarters(n, low % 4 - 2);
    assert PAGE_SIZE * frame + (low - 2) == 4 * n + (low % 4 - 2);
    Quarters(q, low % 4);
  }

  lemma Quarters(n: nat, r: nat)
    requires r < 4
    ensures (4 * n + r) / 2 % 2 == r / 2 && (4 * n + r) % 2 == r % 2
  {
    assert (4 * n + r) / 2 == 2 * n + r / 2;
  }

  lemma FullAccessBits(frame: nat)
    requires frame < PAGES
    ensures FrameOf(FullAccess(frame)) == frame && Present(FullAccess(frame)) && Writable(FullAccess(frame))
  {
  }
}
