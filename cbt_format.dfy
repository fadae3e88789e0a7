/**
 * The integer arithmetic of the changed-block-tracking log: the C integer
 * types the driver computes with, the format constants that come from
 * headers outside this model, the sector-to-block mapping and the length
 * of the mapped log region.
 */
module CbtFormat {

  const U64_LIMIT: int := 0x1_0000_0000_0000_0000
  const U32_LIMIT: int := 0x1_0000_0000
  const INT_MAX: int := 0x7fff_ffff

  /** C's uint64_t / unsigned long on a 64-bit target. */
  type u64 = x: int | 0 <= x < U64_LIMIT
  /** C's unsigned int. */
  type u32 = x: int | 0 <= x < U32_LIMIT
  /** C's 32-bit int. */
  type i32 = x: int | -0x8000_0000 <= x <= 0x7fff_ffff

  datatype Option<T> = None | Some(value: T)

  /** uint64_t addition, wrapping modulo 2^64. */
  function Add64(a: u64, b: u64): u64 { (a + b) % U64_LIMIT }

  /** uint64_t subtraction, wrapping modulo 2^64. */
  function Sub64(a: u64, b: u64): u64 { (a - b) % U64_LIMIT }

  /** uint64_t multiplication, wrapping modulo 2^64. */
  function Mul64(a: u64, b: u64): u64 { (a * b) % U64_LIMIT }

  /** Conversion of an int to uint64_t / unsigned long (modulo 2^64). */
  function ULongOf(x: i32): u64 { if x < 0 then x + U64_LIMIT else x }

  /** Conversion of a uint64_t to a 32-bit int, keeping the low 32 bits as gcc does. */
  function Int32Of(x: u64): i32
  {
    var low := x % U32_LIMIT;
    if low <= INT_MAX then low else low - U32_LIMIT
  }

  lemma WrapFree(x: int)
    ensures 0 <= x < U64_LIMIT ==> x % U64_LIMIT == x
  {}

  lemma MulExactWhenFits(a: u64, b: u64)
    ensures a * b < U64_LIMIT ==> Mul64(a, b) == a * b
  {
    var p := a * b;
    assert p >= 0 by { MulMonotone(0, a, b); }
    WrapFree(p);
  }

  lemma AddNoWrap(a: u64, b: u64)
    requires a + b < U64_LIMIT
    ensures Add64(a, b) == a + b
  {}

  lemma SubNoWrap(a: u64, b: u64)
    requires b <= a
    ensures Sub64(a, b) == a - b
  {}

  /** a + b - 1 in uint64_t is exact whenever the exact value fits, even when a + b wraps to 0. */
  lemma LastOfRunNoWrap(a: u64, b: u64)
    requires 1 <= b && a + b - 1 < U64_LIMIT
    ensures Sub64(Add64(a, b), 1) == a + b - 1
  {
    if a + b < U64_LIMIT {
      AddNoWrap(a, b);
    } else {
      assert Add64(a, b) == 0;
    }
  }

  lemma Int32OfSmall(x: u64)
    requires x <= INT_MAX
    ensures Int32Of(x) == x
  {}

  /**
   * The format constants. sectorSize is SECTOR_SIZE, blockSize is
   * CBT_BLOCK_SIZE (the bytes one bitmap bit stands for), headerBytes is
   * sizeof(struct cbt_log_metadata) and bitmapSize is bitmap_size(), which
   * gives the byte length of the bitmap for a disk of the given byte length.
   */
  datatype Format = Format(sectorSize: u64, blockSize: u64, headerBytes: u64, bitmapSize: u64 -> u64)
  {
    ghost predicate Valid() { sectorSize > 0 && blockSize > 0 }

    /** The byte offset of sector s is representable in uint64_t. */
    predicate OffsetFits(s: u64) { s * sectorSize < U64_LIMIT }
  }

  /**
   * get_bit_for_sec: the tracking block that holds the first byte of a
   * sector. The byte offset is computed in uint64_t and wraps on overflow.
   * When it does not overflow, the result is the block whose byte range
   * [r * blockSize, (r + 1) * blockSize) contains the sector's offset.
   */
  function GetBitForSec(fmt: Format, sector: u64): (r: u64)
    requires fmt.Valid()
    ensures fmt.OffsetFits(sector) ==>
              r == sector * fmt.sectorSize / fmt.blockSize &&
              r * fmt.blockSize <= sector * fmt.sectorSize < (r + 1) * fmt.blockSize
  {
    var offset := Mul64(sector, fmt.sectorSize);
    DivBounds(offset, fmt.blockSize);
    MulExactWhenFits(sector, fmt.sectorSize);
    offset / fmt.blockSize
  }

  lemma DivBounds(x: nat, d: nat)
    requires d > 0
    ensures (x / d) * d <= x < (x / d + 1) * d
    ensures 0 <= x / d <= x
  {
    var q, m := x / d, x % d;
    assert x == q * d + m;
    assert (q + 1) * d == q * d + d;
    MulMonotone(1, d, q);
  }

  lemma DivMonotone(x: nat, y: nat, d: nat)
    requires d > 0 && x <= y
    ensures x / d <= y / d
  {
    DivBounds(x, d);
    DivBounds(y, d);
    if x / d > y / d {
      MulMonotone(y / d + 1, x / d, d);
    }
  }

  lemma MulMonotone(a: nat, b: nat, d: nat)
    requires a <= b
    ensures a * d <= b * d
  {}

  /** get_bit_for_sec is monotone non-decreasing as long as the byte offset does not wrap. */
  lemma GetBitForSecMonotone(fmt: Format, s1: u64, s2: u64)
    requires fmt.Valid() && s1 <= s2 && fmt.OffsetFits(s2)
    ensures GetBitForSec(fmt, s1) <= GetBitForSec(fmt, s2)
  {
    MulMonotone(s1, s2, fmt.sectorSize);
    DivMonotone(s1 * fmt.sectorSize, s2 * fmt.sectorSize, fmt.blockSize);
  }

  /**
   * When a tracking block is at least one sector long, consecutive sectors
   * fall in the same or in adjacent blocks: the mapping never skips a block.
   */
  lemma GetBitForSecStep(fmt: Format, s: u64)
    requires fmt.Valid() && fmt.sectorSize <= fmt.blockSize
    requires s + 1 < U64_LIMIT && fmt.OffsetFits(s + 1)
    ensures GetBitForSec(fmt, s + 1) <= GetBitForSec(fmt, s) + 1
  {
    var x := s * fmt.sectorSize;
    assert (s + 1) * fmt.sectorSize == x + fmt.sectorSize;
    DivMonotone(x + fmt.sectorSize, x + fmt.blockSize, fmt.blockSize);
    DivAddDivisor(x, fmt.blockSize);
  }

  /**
   * When the tracking block size is a whole number of sectors, every byte
   * of a sector lies in the block get_bit_for_sec gives for it, not only
   * its first byte.
   */
  lemma SectorWithinBlock(fmt: Format, s: u64)
    requires fmt.Valid() && fmt.blockSize % fmt.sectorSize == 0
    requires s + 1 < U64_LIMIT && fmt.OffsetFits(s + 1)
    ensures var r := GetBitForSec(fmt, s);
            r * fmt.blockSize <= s * fmt.sectorSize &&
            (s + 1) * fmt.sectorSize <= (r + 1) * fmt.blockSize
  {
    var S, B := fmt.sectorSize, fmt.blockSize;
    MulMonotone(s, s + 1, S);
    var r := GetBitForSec(fmt, s);
    var k: nat := B / S;
    assert B == k * S;
    var m: nat := (r + 1) * k;
    assert (r + 1) * B == m * S;
    if s >= m {
      MulMonotone(m, s, S);
    }
    MulMonotone(s + 1, m, S);
  }

  lemma DivAddDivisor(x: nat, d: nat)
    requires d > 0
    ensures (x + d) / d == x / d + 1
  {
    var q := x / d;
    DivBounds(x, d);
    assert (q + 1) * d == q * d + d;
    assert (q + 2) * d == (q + 1) * d + d;
    DivUnique(x + d, d, q + 1);
  }

  lemma DivUnique(x: nat, d: nat, a: nat)
    requires d > 0 && a * d <= x < (a + 1) * d
    ensures x / d == a
  {
    DivBounds(x, d);
    if x / d < a {
      MulMonotone(x / d + 1, a, d);
    } else if x / d > a {
      MulMonotone(a + 1, x / d, d);
    }
  }

  /**
   * The byte length of the log mapping for a disk of `size` sectors:
   * bitmap_size(size * SECTOR_SIZE) + sizeof(struct cbt_log_metadata),
   * all in uint64_t arithmetic.
   */
  function MapLength(fmt: Format, size: u64): (len: u64)
    ensures fmt.OffsetFits(size) && fmt.bitmapSize(size * fmt.sectorSize) + fmt.headerBytes < U64_LIMIT ==>
              len == fmt.bitmapSize(size * fmt.sectorSize) + fmt.headerBytes
  {
    MulExactWhenFits(size, fmt.sectorSize);
    Add64(fmt.bitmapSize(Mul64(size, fmt.sectorSize)), fmt.headerBytes)
  }

  /** The number of whole bitmap words a mapping for `size` sectors holds past the header. */
  function MappedWords(fmt: Format, size: u64): nat
  {
    fmt.bitmapSize(Mul64(size, fmt.sectorSize)) / 8
  }
}
