/** `getTickAtSqrtPrice` (docs/superpowers/specs/_contract/TickMath.sol): a logarithm with fourteen fraction
    bits leaves at most two ticks to choose from, and the choice is always the greatest tick whose price is
    not above the given one. */
module TickAtPrice {
  import opened TickMath
  import opened TickOrder
  import opened TickPowers
  import opened Words

  const ERROR_BELOW: nat := 3402992956809132418596140100660247210
  const ERROR_ABOVE: nat := 291339464771989622907027621153398088495

  /** What the rounded powers of prices can be off by. */
  const MARGIN: nat := 0x200_0000_0000_0000_0000_0000_0000_0000

  /** The scale, for a logarithm in 2^-14ths. */
  const UNIT: nat := 0x4_0000_0000_0000 * SCALE

  // ---- the value of a tick before the last rounding ----

  function Raw(t: int): nat
  {
    if t <= 0 then PriceAfter(-t, 20)
    else
      assert PriceAfter(t, 20) <= Q128;
      Div(W - 1, PriceAfter(t, 20))
  }

  /** 128 * EXPONENT, and a tick's worth more for each tick. */
  function Level(t: int): int
  {
    128 * EXPONENT + TICK * t
  }

  lemma CancelPow2(x: nat, i: nat, j: nat)
    requires j <= i
    ensures x * Pow2(j) <= Pow2(i) <==> x <= Pow2(i - j)
    ensures Pow2(i) <= x * Pow2(j) <==> Pow2(i - j) <= x
  {
    Pow2Add(i - j, j);
    hide Pow2;
    MulMonotoneIff(x, Pow2(i - j), Pow2(j));
    MulMonotoneIff(Pow2(i - j), x, Pow2(j));
  }

  lemma MulMonotoneIff(x: nat, y: nat, q: nat)
    requires q > 0
    ensures x * q <= y * q <==> x <= y
  {
    if x <= y {
      MulMonotone(x, y, q);
    } else {
      MulMonotone(y + 1, x, q);
      MulDistributes(y, 1, q);
    }
  }

  lemma DriftOf(a: nat)
    requires a <= 887_272
    ensures a * (TICK + DRIFT) <= TICK * a + MARGIN - SCALE
    ensures a * (TICK - DRIFT) >= TICK * a - (MARGIN - SCALE)
    ensures a * (TICK + DRIFT) + MARGIN <= 128 * EXPONENT
  {
  }

  ghost predicate NearLevel(t: int, x: nat, n: nat)
  {
    && Level(t) >= MARGIN
    && Pow2(Level(t) - MARGIN) <= Power(x, n) <= Pow2(Level(t) + MARGIN)
  }

  lemma NegativeTick(t: int, a: nat, y: nat, n: nat, up: nat, down: nat)
    requires t + a == 0 && a <= 887_272 && n == EXPONENT && up == TICK + DRIFT && down == TICK - DRIFT
    requires PowerWithin(a, y, n, up, down)
    ensures NearLevel(t, y, n)
  {
    DriftOf(a);
    BetweenPowers(Power(y, n), 128 * n, a * up, a * down, Level(t) - MARGIN, Level(t) + MARGIN);
    hide Power, Pow2;
  }

  lemma BetweenPowers(x: nat, i: nat, j: nat, k: nat, lo: nat, hi: nat)
    requires Pow2(i) <= x * Pow2(j) && x * Pow2(k) <= Pow2(i)
    requires j <= i && k <= i && lo <= i - j && i - k <= hi
    ensures Pow2(lo) <= x <= Pow2(hi)
  {
    hide *;
    PowerBelow(x, i, j, lo);
    PowerAbove(x, i, k, hi);
  }

  lemma PowerBelow(x: nat, i: nat, j: nat, lo: nat)
    requires Pow2(i) <= x * Pow2(j) && lo + j <= i
    ensures Pow2(lo) <= x
  {
    hide *;
    CancelPow2(x, i, j);
    Pow2Monotone(lo, i - j);
  }

  lemma PowerAbove(x: nat, i: nat, k: nat, hi: nat)
    requires x * Pow2(k) <= Pow2(i) && k <= i <= hi + k
    ensures x <= Pow2(hi)
  {
    hide *;
    CancelPow2(x, i, k);
    Pow2Monotone(i - k, hi);
  }

  /** r * y < 2^256 <= (r + 1) * y, to the n-th power. */
  lemma InversePowers(r: nat, y: nat, n: nat)
    requires r * y <= W <= (r + 1) * y
    ensures Power(r, n) * Power(y, n) <= Pow2(256 * n) <= Power(r + 1, n) * Power(y, n)
  {
    assert Pow2(256) == W by { Pow2Constants(); }
    hide *;
    PowerMonotone(r * y, W, n);
    PowerMonotone(W, (r + 1) * y, n);
    PowerOfProduct(r, y, n);
    PowerOfProduct(r + 1, y, n);
    Pow2OfPower(256, n);
  }

  lemma InverseHigh(x: nat, y: nat, n: nat, j: nat)
    requires x * y <= Pow2(256 * n) && Pow2(128 * n) <= y * Pow2(j)
    ensures x <= Pow2(128 * n + j)
  {
    hide *;
    MulMonotone(Pow2(128 * n), y * Pow2(j), x);
    MulMonotone(x * y, Pow2(256 * n), Pow2(j));
    MulAssociates(x, y, Pow2(j));
    Pow2Add(256 * n, j);
    CancelPow2(x, 256 * n + j, 128 * n);
  }

  lemma InverseLow(x: nat, y: nat, n: nat, j: nat)
    requires Pow2(256 * n) <= x * y && y * Pow2(j) <= Pow2(128 * n)
    ensures Pow2(128 * n + j) <= x
  {
    hide *;
    MulMonotone(y * Pow2(j), Pow2(128 * n), x);
    MulMonotone(Pow2(256 * n), x * y, Pow2(j));
    MulAssociates(x, y, Pow2(j));
    Pow2Add(256 * n, j);
    CancelPow2(x, 256 * n + j, 128 * n);
  }

  lemma OneLess(r: nat, n: nat)
    requires r >= 0x2_0000_0000_0000_0000 && n == EXPONENT
    ensures Power(r + 1, n) <= Power(r, n) * Pow2(SCALE)
  {
    hide Power, Pow2;
    CloseBases(r, 0x1_0000_0000_0000_0000, SCALE);
  }

  lemma PositiveTick(a: nat, y: nat, r: nat, n: nat, up: nat, down: nat)
    requires a <= 887_272 && n == EXPONENT && up == TICK + DRIFT && down == TICK - DRIFT
    requires PowerWithin(a, y, n, up, down)
    requires r * y <= W <= (r + 1) * y && r >= 0x2_0000_0000_0000_0000
    ensures NearLevel(a, r, n)
  {
    DriftOf(a);
    hide Power, Pow2, W;
    InversePowers(r, y, n);
    InverseHigh(Power(r, n), Power(y, n), n, a * up);
    InverseLow(Power(r + 1, n), Power(y, n), n, a * down);
    OneLess(r, n);
    CancelPow2(Power(r, n), 128 * n + a * down, SCALE);
    Pow2Monotone(128 * n + a * up, Level(a) + MARGIN);
    Pow2Monotone(Level(a) - MARGIN, 128 * n + a * down - SCALE);
  }

  lemma InverseOf(y: nat)
    requires 0x1_0000_0000_0000_0000 < y <= Q128
    ensures var r := (W - 1) / y; r * y <= W <= (r + 1) * y && r >= 0x2_0000_0000_0000_0000
  {
    FloorIff(W - 1, y, (W - 1) / y);
    FloorIff(W - 1, y, (W - 1) / y + 1);
    FloorIff(W - 1, y, Q128 - 1);
    MulMonotone(y, Q128, Q128 - 1);
  }

  /** The power of every tick's value is near its level. */
  lemma RawPower(t: int, n: nat)
    requires -887_272 <= t <= 887_272 && n == EXPONENT
    ensures NearLevel(t, Raw(t), n)
  {
    PriceIs32(t);
    hide PriceAfter, Power, Pow2, NearLevel, PowerWithin, SqrtPriceAtTick;
    PowerAtTick(Abs(t), n, TICK + DRIFT, TICK - DRIFT);
    var y := PriceAfter(Abs(t), 20);
    if t <= 0 {
      NegativeTick(t, -t, y, n, TICK + DRIFT, TICK - DRIFT);
    } else {
      InverseOf(y);
      PositiveTick(t, y, (W - 1) / y, n, TICK + DRIFT, TICK - DRIFT);
    }
  }

  // ---- the power of a price, from its logarithm ----

  lemma LogParts(price: nat, log2: nat, e: nat, p: nat)
    requires LogOf(price, log2, e) && p == Power(price, 16384)
    ensures Pow2(e) <= p && p * Q127 <= (Q128 + 0x2000_0000) * Pow2(e)
    ensures Pow2(e / 16384) <= price
    ensures log2 == (e * 0x4_0000_0000_0000 - 128 * 0x1_0000_0000_0000_0000) % W
  {
    hide Power, Pow2;
  }

  lemma LogPower(price: nat, e: nat, p: nat, k: nat, m: nat, n: nat)
    requires k == UNIT && m == 16384 && n == EXPONENT && p == Power(price, m)
    requires Pow2(e) <= p && p * Q127 <= (Q128 + 0x2000_0000) * Pow2(e)
    ensures 0 <= e * k && Pow2(e * k) <= Power(price, n) <= Pow2(e * k + k + SCALE)
  {
    assert m * k == n;
    hide *;
    PowerMonotone(Pow2(e), p, k);
    Pow2OfPower(e, k);
    PowerOfPower(price, m, k);
    PowerMonotone(p * Q127, (Q128 + 0x2000_0000) * Pow2(e), k);
    PowerOfProduct(p, Q127, k);
    PowerOfProduct(Q128 + 0x2000_0000, Pow2(e), k);
    HalfPower(k);
    JustAboveTwo(k);
    Excess(Power(p, k), Power(Q128 + 0x2000_0000, k), e * k, k);
  }

  lemma HalfPower(k: nat)
    ensures Power(Q127, k) == Pow2(127 * k)
  {
    PowersOfHalf();
    hide Pow2, Power;
    Pow2OfPower(127, k);
  }

  /** (2^128 + 2^29)^k, for as many factors as the scale takes. */
  lemma JustAboveTwo(k: nat)
    requires k == UNIT
    ensures Power(Q128 + 0x2000_0000, k) <= Pow2(128 * k + SCALE)
  {
    SmallPowers();
    hide Pow2, Power;
    var m: nat := Pow2(99);
    CloseBases(m, 0x4_0000_0000_0000, SCALE);
    assert Q128 + 0x2000_0000 == (m + 1) * Pow2(29);
    PowerOfProduct(m + 1, Pow2(29), k);
    Pow2OfPower(29, k);
    Pow2OfPower(99, k);
    Pow2Add(99 * k, SCALE);
    Pow2Add(99 * k + SCALE, 29 * k);
    MulMonotone(Power(m + 1, k), Pow2(99 * k + SCALE), Pow2(29 * k));
  }

  lemma SmallPowers()
    ensures Pow2(29) == 0x2000_0000 && Pow2(99) == 0x8_0000_0000_0000_0000_0000_0000
  {
    Pow2Constants();
    Pow2Small();
    assert Pow2(3) == 8 && Pow2(32) == 8 * Pow2(29);
    Pow2Add(3, 96);
    hide Pow2;
  }

  lemma Excess(p: nat, x: nat, i: nat, k: nat)
    requires p * Pow2(127 * k) <= x * Pow2(i) && x <= Pow2(128 * k + SCALE)
    ensures p <= Pow2(i + k + SCALE)
  {
    hide *;
    MulMonotone(x, Pow2(128 * k + SCALE), Pow2(i));
    Pow2Add(128 * k + SCALE, i);
    CancelPow2(p, 128 * k + SCALE + i, 127 * k);
  }

  // ---- comparing a price with a tick ----

  lemma NotAbove(t: int, x: nat, price: nat, j: nat, n: nat)
    requires n > 0 && NearLevel(t, x, n) && Pow2(j) <= Power(price, n) && Level(t) + MARGIN <= j
    ensures x <= price
  {
    hide Pow2, Power, Level;
    Pow2Monotone(Level(t) + MARGIN, j);
    RootMonotone(x, price, n);
  }

  lemma NotBelow(t: int, x: nat, price: nat, j: nat, n: nat)
    requires NearLevel(t, x, n) && Power(price, n) <= Pow2(j) && j < Level(t) - MARGIN
    ensures price < x
  {
    assert Pow2(j + 1) == 2 * Pow2(j);
    hide Pow2, Power, Level;
    Pow2Monotone(j + 1, Level(t) - MARGIN);
    if x <= price {
      PowerMonotone(x, price, n);
    }
  }

  lemma RoundedUpIff(x: nat, s: nat)
    ensures RoundedUp(x) <= s <==> x <= s * 0x1_0000_0000
  {
  }

  lemma PriceOfRaw(t: int)
    requires -887_272 <= t <= 887_272
    ensures SqrtPriceAtTick(t) == Return(RoundedUp(Raw(t)))
  {
    PriceIs32(t);
    hide PriceAfter, RoundedUp, SqrtPriceAtTick;
  }

  /** How ticks compare with a price, in terms of the scaled logarithm. */
  lemma LogDecides(s: nat, log2: nat, e: nat, t: int)
    requires LogOf(s * 0x1_0000_0000, log2, e) && -887_272 <= t <= 887_272
    ensures SqrtPriceAtTick(t).Return?
    ensures TICK * t + ERROR_BELOW <= ScaledLog(e) ==> SqrtPriceAtTick(t).value <= s
    ensures ScaledLog(e) + ERROR_ABOVE < TICK * t ==> s < SqrtPriceAtTick(t).value
  {
    hide *;
    var price, n, k, m := s * 0x1_0000_0000, EXPONENT, UNIT, 16384;
    var p := Power(price, m);
    LogParts(price, log2, e, p);
    LogPower(price, e, p, k, m, n);
    RawPower(t, n);
    Thresholds(e, t, k, n);
    if TICK * t + ERROR_BELOW <= ScaledLog(e) {
      NotAbove(t, Raw(t), price, e * k, n);
    } else if ScaledLog(e) + ERROR_ABOVE < TICK * t {
      NotBelow(t, Raw(t), price, e * k + k + SCALE, n);
    }
    PriceOfRaw(t);
    RoundedUpIff(Raw(t), s);
  }

  /** `log_2` times the scale, for a logarithm of e 2^-14ths above -128. */
  function ScaledLog(e: nat): int
  {
    e * UNIT - 128 * EXPONENT
  }

  lemma Thresholds(e: nat, t: int, k: nat, n: nat)
    requires k == UNIT && n == EXPONENT
    ensures n > 0
    ensures TICK * t + ERROR_BELOW <= ScaledLog(e) ==> Level(t) + MARGIN <= e * k
    ensures ScaledLog(e) + ERROR_ABOVE < TICK * t ==> e * k + k + SCALE < Level(t) - MARGIN
  {
  }

  // ---- the tick at a price ----

  /** The price lies between those of this tick and the next. */
  ghost predicate TickAt(s: nat, t: int)
  {
    && -887_272 <= t < 887_272
    && SqrtPriceAtTick(t).Return? && SqrtPriceAtTick(t + 1).Return?
    && SqrtPriceAtTick(t).value <= s < SqrtPriceAtTick(t + 1).value
  }

  /** Every valid price has such a tick. */
  lemma {:induction false} SomeTick(s: nat, hi: int) returns (t: int)
    requires -887_272 < hi <= 887_272 && MIN_SQRT_PRICE <= s
    requires SqrtPriceAtTick(hi).Return? && s < SqrtPriceAtTick(hi).value
    ensures TickAt(s, t)
    decreases hi + 887_272
  {
    hide SqrtPriceAtTick;
    TickRaises(hi - 1);
    if SqrtPriceAtTick(hi - 1).value <= s {
      t := hi - 1;
    } else {
      ExtremePrices(0);
      t := SomeTick(s, hi - 1);
    }
  }

  /** And only one. */
  lemma OneTick(s: nat, t: int, u: int)
    requires TickAt(s, t) && TickAt(s, u)
    ensures t == u
  {
    hide SqrtPriceAtTick;
    if t < u {
      if t + 1 < u {
        PricesIncrease(t + 1, u);
      }
    } else if u < t {
      if u + 1 < t {
        PricesIncrease(u + 1, t);
      }
    }
  }

  /** The tick of a tick's own price is that tick. */
  lemma TickOfItsPrice(t: int)
    requires -887_272 <= t < 887_272
    ensures SqrtPriceAtTick(t).Return? && TickAt(SqrtPriceAtTick(t).value, t)
  {
    hide SqrtPriceAtTick;
    TickRaises(t);
  }

  /** `log_2` is a signed number in a word; times the scale it is the scaled logarithm, and no word overflows. */
  lemma SignedLog(s: nat, log2: Word, e: nat)
    requires s < MAX_SQRT_PRICE && LogOf(s * 0x1_0000_0000, log2, e)
    ensures (if log2 < W / 2 then log2 else log2 - W) * SCALE == ScaledLog(e)
    ensures -(W / 2) <= ScaledLog(e) < W / 2
  {
    var p := Power(s * 0x1_0000_0000, 16384);
    hide LogOf, Power, Pow2, ScaledLog, SCALE, W;
    LogParts(s * 0x1_0000_0000, log2, e, p);
    SmallLog(s, e / 16384);
    SignOfWord(e * 0x4_0000_0000_0000 - 128 * 0x1_0000_0000_0000_0000) by {
      HalfWord();
    }
    LogTimesScale(e);
  }

  lemma HalfWord()
    ensures W / 2 > 0x1_0000_0000_0000_0000_0000_0000_0000_0000
  {
  }

  lemma SignOfWord(x: int)
    requires -(W / 2) <= x < W / 2
    ensures (if x % W < W / 2 then x % W else x % W - W) == x
  {
  }

  lemma LogTimesScale(e: nat)
    requires e < 256 * 16384
    ensures (e * 0x4_0000_0000_0000 - 128 * 0x1_0000_0000_0000_0000) * SCALE == ScaledLog(e)
    ensures -(W / 2) <= ScaledLog(e) < W / 2
  {
  }

  lemma SmallLog(s: nat, msb: nat)
    requires s < MAX_SQRT_PRICE && Pow2(msb) <= s * 0x1_0000_0000
    ensures msb < 256
  {
    hide Pow2;
    Pow2Constants();
    if msb >= 256 {
      Pow2Monotone(256, msb);
    }
  }

  /** The two candidates are the tick of the price, or the tick and a neighbour. */
  lemma Candidates(s: nat, log2: nat, e: nat, t: int)
    requires LogOf(s * 0x1_0000_0000, log2, e) && TickAt(s, t)
    ensures (ScaledLog(e) - ERROR_BELOW) / TICK <= t <= (ScaledLog(e) + ERROR_ABOVE) / TICK
    ensures (ScaledLog(e) + ERROR_ABOVE) / TICK <= (ScaledLog(e) - ERROR_BELOW) / TICK + 1
  {
    LogDecides(s, log2, e, t);
    LogDecides(s, log2, e, t + 1);
    hide SqrtPriceAtTick, LogOf, ScaledLog;
  }

  /** The greatest tick whose price is at most the given one; a revert exactly for prices outside the valid
      range. */
  method GetTickAtSqrtPrice(sqrtPriceX96: Word) returns (r: Result<Int24>)
    requires sqrtPriceX96 < 0x1_0000_0000_0000_0000_0000_0000_0000_0000_0000_0000
    ensures r.Revert? <==> !(MIN_SQRT_PRICE <= sqrtPriceX96 < MAX_SQRT_PRICE)
    ensures r.Return? ==> TickAt(sqrtPriceX96, r.value)
  {
    hide LogOf, SqrtPriceAtTick;
    var word := Log2OfPrice(sqrtPriceX96);
    if word.Revert? {
      return Revert;
    }
    ghost var e :| LogOf(sqrtPriceX96 * 0x1_0000_0000, word.value, e);
    ExtremePrices(0);
    ghost var t := SomeTick(sqrtPriceX96, 887_272);
    Candidates(sqrtPriceX96, word.value, e, t);
    SignedLog(sqrtPriceX96, word.value, e);
    hide ScaledLog;
    var log2 := if word.value < W / 2 then word.value else word.value - W;
    var logSqrt10001 := log2 * SCALE;
    var tickLow := (logSqrt10001 - ERROR_BELOW) / TICK;
    var tickHi := (logSqrt10001 + ERROR_ABOVE) / TICK;
    if tickLow == tickHi {
      return Return(tickLow);
    }
    var price := GetSqrtPriceAtTick(tickHi);
    TickRaises(t);
    if price.Revert? {
      return Revert;
    }
    return Return(if price.value <= sqrtPriceX96 then tickHi else tickLow);
  }
}
