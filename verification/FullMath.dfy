/** 512-bit multiply-and-divide on 256-bit words (FullMath.sol). */
module FullMath {
  import opened Words

  /** floor(a * b / d), defined when it fits a word and d is not zero. */
  function MulDivFloor(a: Word, b: Word, d: Word): Result<Word>
  {
    if d > a * b / W then QuotientFits(a, b, d); Return(a * b / d) else Revert
  }

  /** ceil(a * b / d), under the same condition and when the ceiling itself fits. */
  function MulDivCeil(a: Word, b: Word, d: Word): Result<Word>
  {
    if d > a * b / W then
      QuotientFits(a, b, d);
      var q := a * b / d;
      if a * b % d == 0 then Return(q) else if q + 1 < W then Return(q + 1) else Revert
    else Revert
  }

  lemma QuotientFits(a: Word, b: Word, d: Word)
    requires d > a * b / W
    ensures a * b / d < W
  {
    FloorIff(a * b, d, W);
    FloorIff(a * b, W, d);
  }

  /** The fitting condition is exactly that a divisor exists and the quotient is a word. */
  lemma FitsIff(a: Word, b: Word, d: Word)
    ensures MulDivFloor(a, b, d).Return? <==> d != 0 && a * b / d < W
  {
    if d != 0 {
      FloorIff(a * b, d, W);
      FloorIff(a * b, W, d);
    }
  }

  lemma FloorIs(a: Word, b: Word, d: Word)
    ensures MulDivFloor(a, b, d).Return? ==> d > 0 && MulDivFloor(a, b, d).value == a * b / d
  {
  }

  // ---- the high word of the product, from the product modulo 2^256 - 1 ----

  lemma ProductBound(a: Word, b: Word)
    ensures a * b / W <= W - 2
  {
    MulMonotone(a, W - 1, b);
    MulMonotone(b, W - 1, W - 1);
    FloorIff(a * b, W, W - 1);
  }

  /** `prod1` by the Chinese remainder trick is the high word of the 512-bit product. */
  lemma HighWord(a: Word, b: Word)
    ensures var prod0 := Mul(a, b);
            var mm := MulMod(a, b, W - 1);
            Sub(Sub(mm, prod0), Flag(mm < prod0)) == a * b / W
  {
    var h, l := a * b / W, a * b % W;
    ProductBound(a, b);
    assert a * b == h * W + l;
    HighFromResidues(h, l, a * b % (W - 1)) by {
      ResidueOfHalves(h, l);
    }
  }

  lemma ResidueOfHalves(h: nat, l: Word)
    requires h <= W - 2
    ensures (h * W + l) % (W - 1) == if h + l < W - 1 then h + l else h + l - (W - 1)
  {
    if h + l < W - 1 {
      DivModOf(h * W + l, h, h + l, W - 1);
    } else {
      DivModOf(h * W + l, h + 1, h + l - (W - 1), W - 1);
    }
  }

  lemma HighFromResidues(h: Word, l: Word, mm: Word)
    requires h <= W - 2
    requires mm == if h + l < W - 1 then h + l else h + l - (W - 1)
    ensures Sub(Sub(mm, l), Flag(mm < l)) == h
  {
    if h + l >= W - 1 {
      DivModOf(mm - l, -1, W + mm - l, W);
    }
  }

  // ---- factoring the powers of two out of the division ----

  /** Flipping t into 2^256 / t; for t = 1 the word wraps to zero. */
  lemma FlipTwos(t: nat, f: nat)
    requires t * f == W && t >= 1 && f >= 2
    ensures t < W
    ensures Add(Div(Sub(0, t), t), 1) == f % W
  {
    MulMonotone(2, f, t);
    assert W - t == (f - 1) * t;
    DivModOf(W - t, f - 1, 0, t);
    DivModOf(0 - t, -1, W - t, W);
  }

  lemma SplitProduct(p: nat, t: nat, f: nat, n: nat)
    requires t * f == n && t >= 1
    ensures p * f == p / t * n + p % t * f
    ensures p % t * f + f <= n
  {
    var q, r := p / t, p % t;
    assert p == q * t + r;
    MulDistributes(q * t, r, f);
    MulAssociates(q, t, f);
    MulMonotone(r + 1, t, f);
    MulDistributes(r, 1, f);
  }

  lemma TruncateShifted(p: nat, low: nat, t: nat, f: nat, n: nat)
    requires t * f == n && t >= 1 && low < f
    ensures (p * f + low) % n == p % t * f + low
  {
    SplitProduct(p, t, f, n);
    DivModOf(p * f + low, p / t, p % t * f + low, n);
  }

  /** Reducing the factor first changes nothing: when it wraps to zero, t is 1. */
  lemma FlippedProduct(p: nat, t: nat, f: nat, n: nat)
    requires t * f == n && t >= 1 && f >= 1
    ensures p * (f % n) % n == p % t * f
  {
    TruncateShifted(p, 0, t, f, n);
    if t == 1 {
      DivModOf(n, 1, 0, n);
    } else {
      MulMonotone(2, t, f);
      DivModOf(f, 0, f, n);
    }
  }

  /** Dividing both halves by 2^k: the exact quotient of the double word. */
  lemma ShiftDown(p1: Word, low: nat, k: nat, shifted: nat)
    requires k < 256 && p1 * W + low * Pow2(k) == shifted * Pow2(k)
    ensures shifted == p1 * Pow2(256 - k) + low
  {
    hide Pow2;
    var t, f := Pow2(k), Pow2(256 - k);
    PowerPair(k);
    MulDistributes(p1 * f, low, t);
    MulAssociates(p1, f, t);
    CancelFactor(shifted, p1 * f + low, t);
  }

  lemma LowHalfFits(p0: Word, k: nat)
    requires k < 256 && p0 % Pow2(k) == 0
    ensures p0 / Pow2(k) < Pow2(256 - k)
    ensures p0 / Pow2(k) * Pow2(k) == p0
  {
    hide Pow2;
    PowerPair(k);
    FloorIff(p0, Pow2(k), Pow2(256 - k));
  }

  lemma CancelFactor(x: nat, y: nat, t: nat)
    requires t > 0 && x * t == y * t
    ensures x == y
  {
    MulDistributes(x, y, t);
    MulSign(x - y, t);
  }

  lemma MultipleOf(q: nat, m: nat)
    requires m > 0
    ensures q * m % m == 0
  {
    DivModOf(q * m, q, 0, m);
  }

  lemma PowerPair(k: nat)
    requires k < 256
    ensures Pow2(k) * Pow2(256 - k) == W && Pow2(256 - k) >= 2
  {
    Pow2Constants();
    Pow2Add(k, 256 - k);
    Pow2Monotone(1, 256 - k);
  }

  // ---- the modular inverse ----

  /** inv *= 2 - d * inv, modulo 2^256. */
  function NewtonStep(d: Word, inv: Word): Word { Mul(inv, Sub(2, Mul(d, inv))) }

  ghost predicate InverseModulo(d: Word, inv: Word, m: nat)
  {
    exists e: int :: InverseWitness(d, inv, m, e)
  }

  ghost predicate InverseWitness(d: int, inv: int, m: nat, e: int)
  {
    d * inv == 1 + e * m
  }

  /** The seed `(3 * d) ^ 2` inverts every odd d modulo 16. */
  lemma SeedInverts(d: Word)
    requires d % 2 == 1
    ensures BitXor(Mul(3, d), 2) < W
    ensures InverseModulo(d, BitXor(Mul(3, d), 2), 16)
  {
    hide BitXor, Mul, InverseModulo;
    var x := Mul(3, d);
    var inv := BitXor(x, 2);
    BitXorTwo(x);
    TripleDigit(d);
    ParityDigit(d);
    XorDigit(x, inv);
    SeedTable(d % 16, x % 16, inv % 16);
    InverseFromDigits(d, inv);
  }

  lemma TripleDigit(d: Word)
    ensures Mul(3, d) % 16 == 3 * (d % 16) % 16
  {
    var x := Mul(3, d);
    assert x == 3 * d + -(3 * d / W) * W;
    assert W == 16 * (W / 16);
    SameResidue(x, 3 * d, -(3 * d / W) * (W / 16), 16);
    SameResidue(3 * d, 3 * (d % 16), 3 * (d / 16), 16);
  }

  lemma ParityDigit(d: nat)
    ensures d % 2 == d % 16 % 2
  {
    SameResidue(d, d % 16, 8 * (d / 16), 2);
  }

  lemma XorDigit(x: Word, inv: int)
    requires inv == if x / 2 % 2 == 0 then x + 2 else x - 2
    ensures inv < W
    ensures inv % 16 == (if x % 16 / 2 % 2 == 0 then x % 16 + 2 else x % 16 - 2) % 16
  {
    var a, r := x / 16, x % 16;
    DivModOf(x, 8 * a + r / 2, r % 2, 2);
    SameResidue(x / 2, r / 2, 4 * a, 2);
    SameResidue(inv, if r / 2 % 2 == 0 then r + 2 else r - 2, a, 16);
  }

  lemma InverseFromDigits(d: Word, inv: Word)
    requires d % 16 * (inv % 16) % 16 == 1
    ensures InverseModulo(d, inv, 16)
  {
    var a, r, b, i := d / 16, d % 16, inv / 16, inv % 16;
    Expand16(a, r, b, i);
    assert InverseWitness(d, inv, 16, 16 * a * b + a * i + b * r + r * i / 16);
  }

  lemma SeedTable(d: nat, x: nat, inv: nat)
    requires d < 16 && x < 16 && inv < 16
    requires d % 2 == 1 && x == 3 * d % 16
    requires inv == (if x / 2 % 2 == 0 then x + 2 else x - 2) % 16
    ensures d * inv % 16 == 1
  {
    if
    case d == 1 =>
    case d == 3 =>
    case d == 5 =>
    case d == 7 =>
    case d == 9 =>
    case d == 11 =>
    case d == 13 =>
    case d == 15 =>
  }

  lemma Expand16(a: int, r: int, b: int, i: int)
    ensures (16 * a + r) * (16 * b + i) == 16 * (16 * a * b + a * i + b * r) + r * i
  {
  }

  /** One Newton step doubles the number of correct low bits. */
  lemma NewtonDoubles(d: Word, inv: Word, k: nat)
    requires k <= 128 && InverseModulo(d, inv, Pow2(k))
    ensures InverseModulo(d, NewtonStep(d, inv), Pow2(2 * k))
  {
    hide Pow2, W, NewtonStep;
    var e :| InverseWitness(d, inv, Pow2(k), e);
    Pow2Add(k, k);
    Pow2Add(256 - 2 * k, 2 * k);
    Pow2Constants();
    var s, a, b := UnfoldStep(d, inv);
    NewtonProduct(d, inv, e, Pow2(k), Pow2(256 - 2 * k), s, a, b, W);
    assert InverseWitness(d, NewtonStep(d, inv), Pow2(2 * k), (d * inv * a + d * b) * Pow2(256 - 2 * k) - e * e);
  }

  lemma UnfoldStep(d: Word, inv: Word) returns (s: int, a: int, b: int)
    ensures s == 2 - d * inv + a * W
    ensures NewtonStep(d, inv) == inv * s + b * W
  {
    s := Sub(2, Mul(d, inv));
    a := d * inv / W - (2 - d * inv % W) / W;
    b := -(inv * s / W);
  }

  /** The algebra of a step, modulo any n = w * m^2; a and b count the wrap-arounds. */
  lemma NewtonProduct(d: int, inv: int, e: int, m: int, w: int, s: int, a: int, b: int, n: int)
    requires d * inv == 1 + e * m && s == 2 - d * inv + a * n && n == w * (m * m)
    ensures d * (inv * s + b * n) == 1 + ((d * inv * a + d * b) * w - e * e) * (m * m)
  {
    SquareError(e, m);
    MulAssociates(d * inv * a + d * b, w, m * m);
  }

  lemma SquareError(e: int, m: int)
    ensures (1 + e * m) * (2 - (1 + e * m)) == 1 - e * e * (m * m)
  {
  }

  // ---- exact division ----

  /** Multiplying by the inverse divides exactly: the quotient fits a word, so nothing is lost. */
  lemma ExactQuotient(q: Word, d: Word, inv: Word)
    requires InverseModulo(d, inv, W)
    ensures Mul(q * d % W, inv) == q
  {
    var e :| InverseWitness(d, inv, W, e);
    var c := q * d / W;
    ExactProduct(q, d, inv, e, c, W);
    DivModOf(q * d % W * inv, q * e - c * inv, q, W);
  }

  lemma ExactProduct(q: int, d: int, inv: int, e: int, c: int, n: int)
    requires d * inv == 1 + e * n
    ensures (q * d - c * n) * inv == (q * e - c * inv) * n + q
  {
    MulAssociates(q, d, inv);
  }

  /** Taking the remainder off the double word (prod1, prod0). */
  lemma SubtractRemainder(p: nat, d: Word)
    requires p < W * W && d > 0
    ensures p % d < W && p / W < W && p % W < W
    ensures var r := p % d;
            Sub(p / W, Flag(r > p % W)) * W + Sub(p % W, r) == p / d * d
  {
    FloorIff(p, W, W);
    BorrowFromHigh(p / W, p % W, p % d);
    RemainderAtMost(p, d);
    assert p == p / d * d + p % d;
    assert p == p / W * W + p % W;
  }

  lemma BorrowFromHigh(high: Word, low: Word, r: Word)
    requires r <= high * W + low
    ensures Sub(high, Flag(r > low)) * W + Sub(low, r) == high * W + low - r
  {
    if r > low {
      DivModOf(low - r, -1, W + low - r, W);
    }
  }

  lemma RemainderAtMost(p: nat, d: nat)
    requires d > 0
    ensures p % d <= p
  {
    assert p == p / d * d + p % d;
  }

  lemma DivisibleLowHalf(p1: Word, p0: Word, q: nat, d: nat, k: nat)
    requires k < 256 && p1 * W + p0 == q * d && d % Pow2(k) == 0
    ensures p0 % Pow2(k) == 0
  {
    hide Pow2;
    PowerPair(k);
    DivisibleRest(p1, p0, q, d / Pow2(k), Pow2(k), Pow2(256 - k));
  }

  lemma DivisibleRest(p1: nat, p0: nat, q: nat, e: nat, t: nat, f: nat)
    requires t > 0 && p1 * (t * f) + p0 == q * (e * t)
    ensures p0 % t == 0
  {
    assert p0 == (q * e - p1 * f) * t by {
      MulAssociates(q, e, t);
      MulAssociates(p1, f, t);
      MulDistributes(q * e, p1 * f, t);
    }
    DivModOf(p0, q * e - p1 * f, 0, t);
  }

  method NewtonInverse(d: Word) returns (inv: Word)
    requires d % 2 == 1
    ensures InverseModulo(d, inv, W)
  {
    SeedInverts(d);
    Pow2Constants();
    assert Pow2(4) == 16;
    inv := BitXor(Mul(3, d), 2);
    NewtonDoubles(d, inv, 4);
    inv := NewtonStep(d, inv);
    NewtonDoubles(d, inv, 8);
    inv := NewtonStep(d, inv);
    NewtonDoubles(d, inv, 16);
    inv := NewtonStep(d, inv);
    NewtonDoubles(d, inv, 32);
    inv := NewtonStep(d, inv);
    NewtonDoubles(d, inv, 64);
    inv := NewtonStep(d, inv);
    NewtonDoubles(d, inv, 128);
    inv := NewtonStep(d, inv);
  }

  /** The 512-by-256 part: [prod1 prod0] is a multiple of d whose quotient fits a word. */
  method DivideExactly(p1: Word, p0: Word, d: Word, ghost q: Word) returns (result: Word)
    requires d > 0 && p1 * W + p0 == q * d
    ensures result == q
  {
    hide Pow2, BitAnd, BitOr, InverseModulo, Add, Sub, Div;
    var prod1, prod0, denominator := p1, p0, d;
    NegatedWord(d);
    ghost var k := IsolateLowestBit(d, 256);
    PowerPair(k);
    FlipTwos(Pow2(k), Pow2(256 - k));
    var twos: Word := BitAnd(Sub(0, denominator), denominator);
    DivisibleLowHalf(prod1, prod0, q, d, k);
    ghost var shifted := q * (d / Pow2(k));
    OddPart(d, prod0, twos);
    MulAssociates(q, d / Pow2(k), Pow2(k));
    LowHalfFits(prod0, k);
    ShiftDown(prod1, prod0 / Pow2(k), k, shifted);
    denominator := Div(denominator, twos);
    prod0 := Div(prod0, twos);
    // both halves join into the truncated quotient: they share no bit position
    ghost var f := Pow2(256 - k);
    FlippedProduct(prod1, twos, f, W);
    TruncateShifted(prod1, prod0, twos, f, W);
    MultipleOf(prod1 % twos, f);
    BitOrDisjoint(prod1 % twos * f, prod0, 256 - k);
    twos := Add(Div(Sub(0, twos), twos), 1);
    prod0 := BitOr(prod0, Mul(prod1, twos));

    var inv := NewtonInverse(denominator);
    ExactQuotient(q, denominator, inv);
    result := Mul(prod0, inv);
  }

  lemma OddPart(d: Word, p0: Word, t: Word)
    requires t > 0 && d % t == 0
    ensures Div(d, t) == d / t && Div(d, t) * t == d
    ensures Div(p0, t) == p0 / t
  {
  }

  lemma NegatedWord(d: Word)
    requires d > 0
    ensures Sub(0, d) == W - d == Pow2(256) - d
  {
    Pow2Constants();
    DivModOf(0 - d, -1, W - d, W);
  }

  lemma SingleWordProduct(a: Word, b: Word, d: Word)
    requires a * b / W == 0 && d > 0
    ensures Div(Mul(a, b), d) == a * b / d
  {
    assert a * b == a * b / W * W + a * b % W;
  }

  lemma RemainderTakenOff(a: Word, b: Word, high: Word, d: Word)
    requires d > 0 && high == a * b / W
    ensures var r := MulMod(a, b, d);
            Sub(high, Flag(r > Mul(a, b))) * W + Sub(Mul(a, b), r) == a * b / d * d
  {
    ProductBound(a, b);
    FloorIff(a * b, W, W);
    SubtractRemainder(a * b, d);
  }

  /** `mulDiv`: the exact floor of the 512-bit product over the denominator, or a revert. */
  method MulDiv(a: Word, b: Word, denominator: Word) returns (r: Result<Word>)
    ensures denominator > a * b / W ==> r == Return(a * b / denominator)
    ensures denominator <= a * b / W ==> r == Revert
  {
    hide Mul, MulMod, Sub, Div, Flag;
    var prod0 := Mul(a, b);
    var mm := MulMod(a, b, W - 1);
    var prod1 := Sub(Sub(mm, prod0), Flag(mm < prod0));
    HighWord(a, b);
    if !(denominator > prod1) {
      return Revert;
    }
    QuotientFits(a, b, denominator);
    if prod1 == 0 {
      SingleWordProduct(a, b, denominator);
      return Return(Div(prod0, denominator));
    }
    var remainder := MulMod(a, b, denominator);
    RemainderTakenOff(a, b, prod1, denominator);
    prod1 := Sub(prod1, Flag(remainder > prod0));
    prod0 := Sub(prod0, remainder);
    var quotient := DivideExactly(prod1, prod0, denominator, a * b / denominator);
    return Return(quotient);
  }

  /** `mulDivRoundingUp`: the exact ceiling, or a revert when it does not fit a word. */
  method MulDivRoundingUp(a: Word, b: Word, denominator: Word) returns (r: Result<Word>)
    ensures r == MulDivCeil(a, b, denominator)
  {
    r := MulDiv(a, b, denominator);
    if r.Revert? {
      return;
    }
    var result := r.value;
    if MulMod(a, b, denominator) != 0 {
      result := Add(result, 1);
      if !(result > 0) {
        return Revert;
      }
    }
    return Return(result);
  }

  /** The ceiling is the least word q with q * d >= a * b, and it exists exactly when no revert. */
  lemma CeilIsLeast(a: Word, b: Word, d: Word)
    ensures MulDivCeil(a, b, d).Return? ==>
              var q := MulDivCeil(a, b, d).value;
              q * d >= a * b && forall q': nat :: q' * d >= a * b ==> q <= q'
    ensures MulDivCeil(a, b, d).Revert? ==> d == 0 || forall q: Word :: q * d < a * b
  {
    if d != 0 {
      var p := a * b;
      assert p == p / d * d + p % d;
      FitsIff(a, b, d);
      forall q': nat
        ensures q' * d >= p ==> q' >= if p % d == 0 then p / d else p / d + 1
      {
        MulSign(p / d - q', d);
        MulDistributes(p / d, q', d);
      }
    }
  }
}
