/** How minixfs/hard_disk.c spreads a sector address over the drive's registers (ata_cmd). */
module AtaRegisters {
  import opened Machine

  const PER_BLOCK_SECTORS: nat := 2

  // Number of sectors a 28-bit address can name.
  const LBA28: nat := 0x1000_0000

  const MAX_BLK: nat := LBA28 / PER_BLOCK_SECTORS

  // ATA_REG_LBA1..3 and ATA_REG_DRV.
  datatype Registers = Registers(lba1: nat, lba2: nat, lba3: nat, drv: nat)

  // 0xE0 | byte: bits 5 to 7 are set, bits 0 to 4 are the byte's.
  function OrE0(byte: nat): nat {
    0xE0 + byte % 32
  }

  /** OrE0 is the bitwise or. */
  lemma OrE0IsBitwise(byte: bv8)
    ensures OrE0(byte as nat) == (0xE0 | byte) as nat
  {
  }

  // BYTE1 to BYTE4 are the bytes 0 to 3 of a number.
  function Byte(n: nat, k: nat): nat {
    if k == 0 then n % 256 else Byte(n / 256, k - 1)
  }

  function Split(lba: nat): Registers
    requires lba < U32
  {
    var low := lba % 0x100_0000;
    Registers(Byte(low, 0), Byte(low, 1), Byte(low, 2), OrE0(Byte(lba, 3)))
  }

  // What the drive makes of them: the low nibble of the drive register carries address bits 24 to 27,
  // bit 4 selects the slave drive.
  function Sector(r: Registers): nat {
    r.lba1 + 256 * r.lba2 + 0x1_0000 * r.lba3 + 0x100_0000 * (r.drv % 16)
  }

  predicate Master(r: Registers) {
    r.drv / 16 % 2 == 0
  }

  /** The drive sees the address modulo 2^28, and the address bit above those picks the drive; so the split
      names the intended sector of the master drive exactly for addresses below 2^28. */
  lemma SplitNamesSectorIff(lba: nat)
    requires lba < U32
    ensures Sector(Split(lba)) == lba % LBA28
    ensures Master(Split(lba)) <==> lba / LBA28 % 2 == 0
    ensures Sector(Split(lba)) == lba && Master(Split(lba)) <==> lba < LBA28
  {
    hide Sector, Master, Split, OrE0;
    var low, high := lba % 0x100_0000, lba / 0x100_0000;
    SplitParts(lba, low, high);
    HighByte(lba, low, high);
    Quotient(lba);
  }

  lemma SplitParts(lba: nat, low: nat, high: nat)
    requires lba < U32 && low == lba % 0x100_0000 && high == lba / 0x100_0000
    ensures lba == low + 0x100_0000 * high && high < 256
    ensures Sector(Split(lba)) == low + 0x100_0000 * (OrE0(high) % 16)
    ensures Master(Split(lba)) <==> OrE0(high) / 16 % 2 == 0
  {
    hide OrE0, Byte;
    LowBytes(low);
    HighestByte(lba);
  }

  lemma Quotient(lba: nat)
    requires lba < U32
    ensures lba % LBA28 == lba <==> lba / LBA28 == 0 && lba < LBA28
    ensures lba < LBA28 ==> lba / LBA28 == 0
  {
  }

  lemma LowBytes(n: nat)
    requires n < 0x100_0000
    ensures n == Byte(n, 0) + 256 * Byte(n, 1) + 0x1_0000 * Byte(n, 2)
  {
    var a := n / 256;
    var b := a / 256;
    assert Byte(n, 1) == Byte(a, 0) && Byte(n, 2) == Byte(a, 1) == Byte(b, 0) == b;
  }

  lemma HighestByte(n: nat)
    requires n < U32
    ensures Byte(n, 3) == n / 0x100_0000
  {
    var a := n / 256;
    var b := a / 256;
    var c := b / 256;
    assert Byte(n, 3) == Byte(a, 2) == Byte(b, 1) == Byte(c, 0) == c;
  }

  lemma HighByte(lba: nat, low: nat, high: nat)
    requires lba == low + 0x100_0000 * high && low < 0x100_0000 && high < 256
    ensures OrE0(high) % 16 == high % 16 && OrE0(high) / 16 % 2 == high / 16 % 2
    ensures lba % LBA28 == low + 0x100_0000 * (high % 16) && lba / LBA28 == high / 16
  {
    DriveByte(high);
    var q, r := high / 16, high % 16;
    assert high == 16 * q + r && r < 16;
    Lba28(lba, q, low + 0x100_0000 * r);
  }

  lemma Lba28(lba: nat, q: nat, r: nat)
    requires lba == LBA28 * q + r && r < LBA28
    ensures lba / LBA28 == q && lba % LBA28 == r
  {
  }

  lemma DriveByte(high: nat)
    requires high < 256
    ensures OrE0(high) % 16 == high % 16 && OrE0(high) / 16 % 2 == high / 16 % 2
  {
    var b := high % 32;
    assert high == 32 * (high / 32) + b;
    assert high / 16 == 2 * (high / 32) + b / 16 && b / 16 < 2;
  }
}
