/** Two int128 amounts in one word: BalanceDelta and BeforeSwapDelta, with the casts they use
    (docs/superpowers/specs/_contract/BalanceDelta.sol, BeforeSwapDelta.sol, SafeCast.sol). */
module Deltas {
  import opened Words

  const P128: int := 0x1_0000_0000_0000_0000_0000_0000_0000_0000
  const P127: int := 0x8000_0000_0000_0000_0000_0000_0000_0000

  type Int128 = x: int | -P127 <= x < P127

  type Int256 = x: int | -(W / 2) <= x < W / 2

  /** The two's complement word of an integer. */
  function ToWord(x: int): Word { x % W }

  function FromWord(w: Word): Int256
  {
    if w < W / 2 then w else w - W
  }

  /** `int128(x)`: the low 128 bits, as a signed number. */
  function Truncate128(x: int): Int128
  {
    var low := x % P128;
    if low < P127 then low else low - P128
  }

  function ToInt128(x: int): Result<Int128>
  {
    if Truncate128(x) != x then Revert else Return(Truncate128(x))
  }

  /** `or(shl(128, upper), and(sub(shl(128, 1), 1), lower))`. */
  function Pack(upper: Int128, lower: Int128): Word
  {
    PackFits(upper, lower);
    BitOr(ToWord(upper) * P128 % W, BitAnd(ToWord(lower), P128 - 1))
  }

  /** `sar(128, d)`. */
  function Upper(d: Word): Int128
  {
    UpperFits(d);
    FromWord(d) / P128
  }

  /** `signextend(15, d)`. */
  function Lower(d: Word): Int128 { Truncate128(d) }

  lemma UpperFits(d: Word)
    ensures -P127 <= FromWord(d) / P128 < P127
  {
  }

  /** Packing puts one amount in the high half of the word and the other in the low half. */
  lemma PackFits(upper: Int128, lower: Int128)
    ensures BitOr(ToWord(upper) * P128 % W, BitAnd(ToWord(lower), P128 - 1)) == upper % P128 * P128 + lower % P128
    ensures upper % P128 * P128 + lower % P128 < W
  {
    assert Pow2(128) == P128 by { Pow2Constants(); }
    LowHalf(upper);
    LowHalf(lower);
    var high := ToWord(upper) * P128 % W;
    HighHalf(ToWord(upper), upper % P128);
    hide Pow2, BitOr, BitAnd;
    BitAndMask(ToWord(lower), 128);
    DivModOf(high, upper % P128, 0, P128);
    BitOrDisjoint(high, lower % P128, 128);
  }

  /** The cast keeps the low 128 bits: the one int128 congruent to the number. */
  lemma TruncationIs(x: int, y: Int128)
    ensures Truncate128(x) == y <==> (x - y) % 0x1_0000_0000_0000_0000_0000_0000_0000_0000 == 0
  {
  }

  lemma LowHalf(x: Int128)
    ensures ToWord(x) % P128 == x % P128
  {
  }

  lemma HighHalf(w: Word, low: nat)
    requires w % P128 == low
    ensures w * P128 % W == low * P128
  {
    var k := w / P128;
    assert w * P128 == k * W + low * P128;
    DivModOf(w * P128, k, low * P128, W);
  }

  lemma SignOfWord(d: Word, high: nat, low: nat)
    requires high < P128 && low < P128 && d == high * P128 + low
    ensures FromWord(d) == (if high < P127 then high else high - P128) * P128 + low
  {
  }

  lemma UpperOf(d: Word, high: nat, low: nat)
    requires high < P128 && low < P128 && d == high * P128 + low
    ensures Upper(d) == Truncate128(high) && Lower(d) == Truncate128(low)
  {
    SignOfWord(d, high, low);
    DivModOf(d, high, low, P128);
    DivModOf(FromWord(d), if high < P127 then high else high - P128, low, P128);
    DivModOf(high, 0, high, P128);
    DivModOf(low, 0, low, P128);
    hide FromWord;
  }

  lemma TruncateResidue(x: Int128)
    ensures Truncate128(x % P128) == x
  {
  }

  lemma ResidueOfTruncated(low: nat)
    requires low < P128
    ensures Truncate128(low) % P128 == low
  {
  }

  /** The first amount is the high half of the word, in two's complement, and the second the low half. */
  lemma PackIs(upper: Int128, lower: Int128)
    ensures Pack(upper, lower) == upper % P128 * P128 + lower % P128
  {
    PackFits(upper, lower);
    hide BitOr, BitAnd;
  }

  /** Packing and unpacking are inverse to each other. */
  lemma PackRoundTrip(upper: Int128, lower: Int128)
    ensures Upper(Pack(upper, lower)) == upper && Lower(Pack(upper, lower)) == lower
  {
    PackIs(upper, lower);
    TruncateResidue(upper);
    TruncateResidue(lower);
    UpperOf(Pack(upper, lower), upper % P128, lower % P128);
    hide Pack, Upper, Lower, Truncate128;
  }

  lemma UnpackRoundTrip(d: Word)
    ensures Pack(Upper(d), Lower(d)) == d
  {
    var high, low := d / P128, d % P128;
    assert 0 <= high < P128 && d == high * P128 + low;
    UpperOf(d, high, low);
    ResidueOfTruncated(high);
    ResidueOfTruncated(low);
    PackIs(Upper(d), Lower(d));
    hide Pack, Upper, Lower, Truncate128;
  }

  // ---- addition and subtraction of packed amounts ----

  function AddDeltas(a: Word, b: Word): Result<Word>
  {
    var upper, lower := ToInt128(Upper(a) + Upper(b)), ToInt128(Lower(a) + Lower(b));
    if upper.Revert? || lower.Revert? then Revert else Return(Pack(upper.value, lower.value))
  }

  function SubDeltas(a: Word, b: Word): Result<Word>
  {
    var upper, lower := ToInt128(Upper(a) - Upper(b)), ToInt128(Lower(a) - Lower(b));
    if upper.Revert? || lower.Revert? then Revert else Return(Pack(upper.value, lower.value))
  }

  lemma CastIs(x: int)
    ensures ToInt128(x).Return? <==> -P127 <= x < P127
    ensures ToInt128(x).Return? ==> ToInt128(x).value == x
  {
  }

  /** Both amounts change by exactly the other delta's, or the operation reverts. */
  lemma SubIsExact(a: Word, b: Word)
    ensures SubDeltas(a, b).Return? <==> -P127 <= Upper(a) - Upper(b) < P127 && -P127 <= Lower(a) - Lower(b) < P127
    ensures SubDeltas(a, b).Return? ==>
      Upper(SubDeltas(a, b).value) == Upper(a) - Upper(b) && Lower(SubDeltas(a, b).value) == Lower(a) - Lower(b)
  {
    hide ToInt128, Pack, Upper, Lower;
    CastIs(Upper(a) - Upper(b));
    CastIs(Lower(a) - Lower(b));
    if SubDeltas(a, b).Return? {
      PackRoundTrip(Upper(a) - Upper(b), Lower(a) - Lower(b));
    }
  }

  lemma AddIsExact(a: Word, b: Word)
    ensures AddDeltas(a, b).Return? <==> -P127 <= Upper(a) + Upper(b) < P127 && -P127 <= Lower(a) + Lower(b) < P127
    ensures AddDeltas(a, b).Return? ==>
      Upper(AddDeltas(a, b).value) == Upper(a) + Upper(b) && Lower(AddDeltas(a, b).value) == Lower(a) + Lower(b)
  {
    hide ToInt128, Pack, Upper, Lower;
    CastIs(Upper(a) + Upper(b));
    CastIs(Lower(a) + Lower(b));
    if AddDeltas(a, b).Return? {
      PackRoundTrip(Upper(a) + Upper(b), Lower(a) + Lower(b));
    }
  }

  /** What was subtracted can be added back. */
  lemma SubThenAdd(a: Word, b: Word)
    requires SubDeltas(a, b).Return?
    ensures AddDeltas(SubDeltas(a, b).value, b) == Return(a)
  {
    hide AddDeltas, SubDeltas, Pack, Upper, Lower;
    SubIsExact(a, b);
    var c := SubDeltas(a, b).value;
    AddIsExact(c, b);
    UnpackRoundTrip(a);
    UnpackRoundTrip(AddDeltas(c, b).value);
  }
}
