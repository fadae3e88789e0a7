/**
 * The dirty bitmap as the driver addresses it: machine words that follow
 * the metadata header of the mapped log, bit nr living in word
 * nr / BITS_PER_LONG at position nr % BITS_PER_LONG, least significant bit
 * first. BitsOf is the abstraction to one flag per tracking block.
 */
module Bitmap {
  import opened CbtFormat

  /** sizeof(unsigned long) * 8 on a 64-bit target. */
  const BITS_PER_LONG: nat := 64

  /** 1UL << k. */
  function Mask(k: nat): bv64
    requires k < BITS_PER_LONG
  {
    (1 as bv64) << (k as bv7)
  }

  /** One flag per bit of the words: flag i is bit i % 64 of word i / 64. */
  function BitsOf(ws: seq<bv64>): (bs: seq<bool>)
    ensures |bs| == BITS_PER_LONG * |ws|
  {
    seq(BITS_PER_LONG * |ws|, i requires 0 <= i < BITS_PER_LONG * |ws| => ws[i / BITS_PER_LONG] & Mask(i % BITS_PER_LONG) != 0)
  }

  lemma BitsOfAt(ws: seq<bv64>, i: nat)
    requires i / BITS_PER_LONG < |ws|
    ensures BitsOf(ws)[i] == (ws[i / BITS_PER_LONG] & Mask(i % BITS_PER_LONG) != 0)
  {}

  /**
   * The bit a C int names. In `nr / BITS_PER_LONG` and `nr % BITS_PER_LONG`
   * the int is converted to unsigned long first, so a negative nr names a
   * bit near 2^64.
   */
  function BitIndex(nr: i32): nat { ULongOf(nr) }

  /** BITMAP_ENTRY's word index. */
  function WordIndex(nr: i32): nat { BitIndex(nr) / BITS_PER_LONG }

  /** BITMAP_SHIFT. */
  function Shift(nr: i32): nat { BitIndex(nr) % BITS_PER_LONG }

  /** The word that holds bit nr lies inside the bitmap. */
  predicate InMap(ws: seq<bv64>, nr: i32) { WordIndex(nr) < |ws| }

  lemma ShiftedBitIsMaskedBit(w: bv64, t: nat)
    requires t < BITS_PER_LONG
    ensures (w >> t) & 1 == 0 || (w >> t) & 1 == 1
    ensures (w >> t) & 1 == 1 ==> w & Mask(t) != 0
  {}

  lemma MaskedBitIsShiftedBit(w: bv64, t: nat)
    requires t < BITS_PER_LONG
    ensures w & Mask(t) != 0 ==> (w >> t) & 1 != 0
  {}

  function LowBit(w: bv64, t: nat): (b: bv64)
    requires t < BITS_PER_LONG
    ensures b == 0 || b == 1
    ensures b == 1 <==> w & Mask(t) != 0
  {
    ShiftedBitIsMaskedBit(w, t);
    MaskedBitIsShiftedBit(w, t);
    (w >> t) & 1
  }

  lemma ShiftAmountExact(k: nat)
    requires k < BITS_PER_LONG
    ensures (k as bv7) as int == k
  {}

  /** Two different bit positions have disjoint masks. */
  lemma MaskDisjoint(s: nat, t: nat)
    requires s < BITS_PER_LONG && t < BITS_PER_LONG && s != t
    ensures Mask(s) & Mask(t) == 0
  {
    ShiftAmountExact(s);
    ShiftAmountExact(t);
    var bs, bt := s as bv7, t as bv7;
    assert bs != bt;
    assert ((1 as bv64) << bs) & ((1 as bv64) << bt) == 0;
  }

  lemma AndOrDistrib(w: bv64, m: bv64, n: bv64)
    ensures (w | m) & n == (w & n) | (m & n)
  {}

  /** Bit t of w | (1 << s) is set exactly when t is s or bit t of w is set. */
  lemma OrMask(w: bv64, s: nat, t: nat)
    requires s < BITS_PER_LONG && t < BITS_PER_LONG
    ensures (w | Mask(s)) & Mask(t) != 0 <==> (s == t || w & Mask(t) != 0)
  {
    AndOrDistrib(w, Mask(s), Mask(t));
    if s != t {
      MaskDisjoint(s, t);
    } else {
      assert Mask(s) & Mask(s) == Mask(s);
      assert Mask(s) != 0;
    }
  }

  /**
   * test_bit: 1 when bit nr of the bitmap is set, 0 otherwise; the word is
   * shifted right and its low bit taken.
   */
  function TestBit(nr: i32, bmap: seq<bv64>): (r: int)
    requires InMap(bmap, nr)
    ensures r == 0 || r == 1
    ensures r == 1 <==> BitsOf(bmap)[BitIndex(nr)]
  {
    var w := bmap[WordIndex(nr)];
    var b := LowBit(w, Shift(nr));
    BitsOfAt(bmap, BitIndex(nr));
    b as int
  }

  /** The words after set_bit(nr): word nr / 64 ORed with 1UL << (nr % 64). */
  function SetBitWords(bmap: seq<bv64>, nr: i32): (r: seq<bv64>)
    requires InMap(bmap, nr)
    ensures |r| == |bmap|
  {
    bmap[WordIndex(nr) := bmap[WordIndex(nr)] | Mask(Shift(nr))]
  }

  /** After set_bit(nr), flag j is set exactly when it was set before or j is nr. */
  lemma SetBitAt(bmap: seq<bv64>, nr: i32, j: nat)
    requires InMap(bmap, nr) && j < BITS_PER_LONG * |bmap|
    ensures BitsOf(SetBitWords(bmap, nr))[j] == (j == BitIndex(nr) || BitsOf(bmap)[j])
  {
    if j / BITS_PER_LONG == WordIndex(nr) {
      SetBitSameWord(bmap, nr, j);
    } else {
      SetBitOtherWord(bmap, nr, j);
    }
  }

  lemma SetBitSameWord(bmap: seq<bv64>, nr: i32, j: nat)
    requires InMap(bmap, nr) && j / BITS_PER_LONG == WordIndex(nr)
    ensures BitsOf(SetBitWords(bmap, nr))[j] == (j == BitIndex(nr) || BitsOf(bmap)[j])
  {
    var w := WordIndex(nr);
    BitsOfAt(SetBitWords(bmap, nr), j);
    BitsOfAt(bmap, j);
    SameWordSameBit(j, BitIndex(nr));
    OrMask(bmap[w], Shift(nr), j % BITS_PER_LONG);
  }

  lemma SetBitOtherWord(bmap: seq<bv64>, nr: i32, j: nat)
    requires InMap(bmap, nr) && j / BITS_PER_LONG != WordIndex(nr) && j < BITS_PER_LONG * |bmap|
    ensures BitsOf(SetBitWords(bmap, nr))[j] == BitsOf(bmap)[j] && j != BitIndex(nr)
  {
    var after := SetBitWords(bmap, nr);
    BitsOfAt(after, j);
    BitsOfAt(bmap, j);
    assert after[j / BITS_PER_LONG] == bmap[j / BITS_PER_LONG];
  }

  /** Two bits of the same word are the same bit exactly when their positions agree. */
  lemma SameWordSameBit(a: nat, b: nat)
    requires a / BITS_PER_LONG == b / BITS_PER_LONG
    ensures a == b <==> a % BITS_PER_LONG == b % BITS_PER_LONG
  {}

  /** set_bit sets the flag of bit nr and leaves every other flag as it was. */
  lemma SetBitEffect(bmap: seq<bv64>, nr: i32)
    requires InMap(bmap, nr)
    ensures BitsOf(SetBitWords(bmap, nr)) == BitsOf(bmap)[BitIndex(nr) := true]
  {
    var after, before := BitsOf(SetBitWords(bmap, nr)), BitsOf(bmap)[BitIndex(nr) := true];
    forall j | 0 <= j < |after|
      ensures after[j] == before[j]
    {
      SetBitAt(bmap, nr, j);
    }
  }

  /** Right after set_bit(nr), test_bit(nr) returns 1. */
  lemma SetThenTest(bmap: seq<bv64>, nr: i32)
    requires InMap(bmap, nr)
    ensures TestBit(nr, SetBitWords(bmap, nr)) == 1
  {
    SetBitEffect(bmap, nr);
  }

  /** Setting one bit does not change what test_bit reports for any other bit. */
  lemma SetBitKeepsOtherBits(bmap: seq<bv64>, nr: i32, other: i32)
    requires InMap(bmap, nr) && InMap(bmap, other) && BitIndex(nr) != BitIndex(other)
    ensures TestBit(other, SetBitWords(bmap, nr)) == TestBit(other, bmap)
  {
    SetBitEffect(bmap, nr);
  }

  /** set_bit never clears a bit. */
  lemma SetBitNeverClears(bmap: seq<bv64>, nr: i32, j: nat)
    requires InMap(bmap, nr) && j < |BitsOf(bmap)| && BitsOf(bmap)[j]
    ensures BitsOf(SetBitWords(bmap, nr))[j]
  {
    SetBitEffect(bmap, nr);
  }

  /** Setting a bit twice leaves the same words as setting it once. */
  lemma SetBitIdempotent(bmap: seq<bv64>, nr: i32)
    requires InMap(bmap, nr)
    ensures SetBitWords(SetBitWords(bmap, nr), nr) == SetBitWords(bmap, nr)
  {}

  /** set_bit, in place on the mapped words. */
  method SetBit(nr: i32, bmap: array<bv64>)
    requires InMap(bmap[..], nr)
    modifies bmap
    ensures bmap[..] == SetBitWords(old(bmap[..]), nr)
    ensures BitsOf(bmap[..]) == BitsOf(old(bmap[..]))[BitIndex(nr) := true]
  {
    var w := WordIndex(nr);
    bmap[w] := bmap[w] | Mask(Shift(nr));
    SetBitEffect(old(bmap[..]), nr);
  }

  /**
   * The flags after the first `count` rounds of bitmap_set's loop from
   * `block`: round i sets flag block + i. A round whose flag lies past the
   * bitmap sets nothing here (bitmap_set's callers never reach one).
   */
  function SetRun(bs: seq<bool>, block: nat, count: int): (r: seq<bool>)
    ensures |r| == |bs|
    decreases count
  {
    if count <= 0 then bs
    else
      var prev := SetRun(bs, block, count - 1);
      if block + count - 1 < |prev| then prev[block + count - 1 := true] else prev
  }

  /** After the run, flag j is set exactly when it was set before or j is one of block .. block + count - 1. */
  lemma {:induction false} SetRunAt(bs: seq<bool>, block: nat, count: int, j: nat)
    requires j < |bs|
    ensures SetRun(bs, block, count)[j] == (bs[j] || block <= j < block + count)
    decreases count
  {
    if count > 0 {
      SetRunAt(bs, block, count - 1, j);
    }
  }

  /** A run of zero or fewer bits leaves the flags unchanged. */
  lemma SetRunNone(bs: seq<bool>, block: nat, count: int)
    requires count <= 0
    ensures SetRun(bs, block, count) == bs
  {}

  /** Setting the same run twice is the same as setting it once. */
  lemma SetRunIdempotent(bs: seq<bool>, block: nat, count: int)
    ensures SetRun(SetRun(bs, block, count), block, count) == SetRun(bs, block, count)
  {
    var once := SetRun(bs, block, count);
    forall j | 0 <= j < |bs|
      ensures SetRun(once, block, count)[j] == once[j]
    {
      SetRunAt(once, block, count, j);
      SetRunAt(bs, block, count, j);
    }
  }

  /** Setting a run never clears a flag. */
  lemma SetRunNeverClears(bs: seq<bool>, block: nat, count: int, j: nat)
    requires j < |bs| && bs[j]
    ensures SetRun(bs, block, count)[j]
  {
    SetRunAt(bs, block, count, j);
  }

  /** Once the words hold the run, test_bit reports 1 for every bit of it. */
  lemma RunThenTest(before: seq<bv64>, after: seq<bv64>, block: nat, count: int, nr: i32)
    requires |after| == |before| && BitsOf(after) == SetRun(BitsOf(before), block, count)
    requires block <= nr < block + count && InMap(after, nr)
    ensures TestBit(nr, after) == 1
  {
    SetRunAt(BitsOf(before), block, count, nr as nat);
  }
}
