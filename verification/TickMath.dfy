/** Square-root prices and ticks (docs/superpowers/specs/_contract/TickMath.sol): the price at a tick,
    and the binary logarithm behind the tick at a price. */
module TickMath {
  import opened BitMath
  import opened Words

  const MAX_TICK: nat := 887_272
  const MIN_SQRT_PRICE: nat := 4_295_128_739
  const MAX_SQRT_PRICE: nat := 1_461_446_703_485_210_103_287_273_052_203_988_822_378_723_970_342
  const Q128: nat := 0x1_0000_0000_0000_0000_0000_0000_0000_0000
  const Q127: nat := 0x8000_0000_0000_0000_0000_0000_0000_0000

  // ---- the price at a tick ----

  /** 1 / sqrt(1.0001^(2^i)) in Q128.128, rounded to nearest. */
  function Ratio(i: nat): (c: nat)
    requires i < 20
    ensures c < Q128
  {
    match i
    case 0 => 0xfffcb933bd6fad37aa2d162d1a594001
    case 1 => 0xfff97272373d413259a46990580e213a
    case 2 => 0xfff2e50f5f656932ef12357cf3c7fdcc
    case 3 => 0xffe5caca7e10e4e61c3624eaa0941cd0
    case 4 => 0xffcb9843d60f6159c9db58835c926644
    case 5 => 0xff973b41fa98c081472e6896dfb254c0
    case 6 => 0xff2ea16466c96a3843ec78b326b52861
    case 7 => 0xfe5dee046a99a2a811c461f1969c3053
    case 8 => 0xfcbe86c7900a88aedcffc83b479aa3a4
    case 9 => 0xf987a7253ac413176f2b074cf7815e54
    case 10 => 0xf3392b0822b70005940c7a398e4b70f3
    case 11 => 0xe7159475a2c29b7443b29c7fa6e889d9
    case 12 => 0xd097f3bdfd2022b8845ad8f792aa5825
    case 13 => 0xa9f746462d870fdf8a65dc1f90e061e5
    case 14 => 0x70d869a156d2a1b890bb3df62baf32f7
    case 15 => 0x31be135f97d08fd981231505542fcfa6
    case 16 => 0x9aa508b5b7a84e1c677de54f3e99bc9
    case 17 => 0x5d6af8dedb81196699c329225ee604
    case 18 => 0x2216e584f5fa1ea926041bedfe98
    case _ => 0x48a170391f7dc42444e8fa2
  }

  function Scaled(price: nat, ratio: nat): nat
  {
    price * ratio / Q128
  }

  lemma ScaledBound(price: nat, ratio: nat)
    requires price <= Q128 && ratio < Q128
    ensures price * ratio < W && Scaled(price, ratio) <= Q128
  {
    MulMonotone(price, Q128, ratio);
    MulMonotone(ratio, Q128, Q128);
    FloorIff(price * ratio, Q128, Q128 + 1);
  }

  /** The product of the ratios of the bits of |tick| below n. */
  function PriceAfter(absTick: nat, n: nat): (price: nat)
    requires n <= 20
    ensures price <= Q128
  {
    if n == 0 then Q128
    else
      var price := PriceAfter(absTick, n - 1);
      ScaledBound(price, Ratio(n - 1));
      if HasBit(absTick, n - 1) then Scaled(price, Ratio(n - 1)) else price
  }

  type Int24 = t: int | -0x80_0000 <= t < 0x80_0000

  function Abs(t: int): nat { if t < 0 then -t else t }

  /** The price at a tick: a positive tick inverts it, and the last step rounds Q128.128 up to Q64.96. */
  function SqrtPriceAtTick(tick: Int24): Result<nat>
  {
    if Abs(tick) > MAX_TICK then Revert
    else
      var price := PriceAfter(Abs(tick), 20);
      var inverted := if tick <= 0 then price else if price == 0 then 0 else (W - 1) / price;
      Return((inverted + 0xffff_ffff) % W / 0x1_0000_0000)
  }

  lemma Parity(x: nat, y: nat)
    ensures (x + y) % 2 == if x % 2 != y % 2 then 1 else 0
  {
  }

  lemma XorWithZero(x: nat)
    ensures BitXor(0, x) == x && BitXor(x, 0) == x
  {
  }

  lemma XorStep(x: nat, y: nat)
    ensures BitXor(x, y) == 2 * BitXor(x / 2, y / 2) + (if x % 2 != y % 2 then 1 else 0)
  {
    Parity(x, y);
    XorWithZero(x);
    XorWithZero(y);
    XorWithZero(x / 2);
    XorWithZero(y / 2);
    if x != 0 && y != 0 {
      assert BitXor(x, y) == 2 * BitXor(x / 2, y / 2) + (x + y) % 2;
    } else {
      hide BitXor;
    }
  }

  lemma {:induction false} XorTwice(x: nat, y: nat)
    ensures BitXor(x, BitXor(x, y)) == y
  {
    if x > 0 || y > 0 {
      var z := BitXor(x, y);
      XorTwice(x / 2, y / 2);
      XorStep(x, y);
      XorStep(x, z);
      hide BitXor;
      assert z / 2 == BitXor(x / 2, y / 2);
    }
  }

  lemma {:induction false} XorWithOnes(x: nat, n: nat)
    requires x < Pow2(n)
    ensures BitXor(Pow2(n) - 1, x) == Pow2(n) - 1 - x
  {
    if n > 0 {
      var ones := Pow2(n) - 1;
      XorWithOnes(x / 2, n - 1);
      XorStep(ones, x);
      hide BitXor;
      assert ones / 2 == Pow2(n - 1) - 1 && ones % 2 == 1;
    }
  }

  /** |tick| without a branch: xor with the sign mask after adding it. */
  lemma MaskedAbs(tick: Int24)
    ensures var mask := if tick < 0 then W - 1 else 0;
      BitXor(mask, Add(mask, tick % W)) == Abs(tick)
  {
    NegativeSum(tick);
    assert Pow2(256) == W by { Pow2Constants(); }
    hide Pow2, BitXor, Add;
    if tick < 0 {
      XorWithOnes((W - 1) + tick, 256);
    } else {
      XorWithZero(tick);
    }
  }

  lemma NegativeSum(tick: Int24)
    ensures tick < 0 ==> Add(W - 1, tick % W) == W - 1 + tick
    ensures tick >= 0 ==> Add(0, tick % W) == tick
  {
  }

  lemma NextPrice(absTick: nat, i: nat)
    requires i < 20
    ensures PriceAfter(absTick, i + 1) ==
            if HasBit(absTick, i) then Scaled(PriceAfter(absTick, i), Ratio(i)) else PriceAfter(absTick, i)
  {
  }

  lemma ScaledInWords(price: nat, ratio: nat)
    requires price <= Q128 && ratio < Q128
    ensures price < W && ratio < W && Mul(price, ratio) / Q128 == Scaled(price, ratio)
  {
    ScaledBound(price, ratio);
  }

  /** One bit of |tick|: scale the price if the bit is set. */
  method ApplyBit(absTick: nat, mask: nat, ratio: nat, ghost i: nat, price: nat) returns (p: nat)
    requires i < 20 && mask == Pow2(i) && ratio == Ratio(i) && price == PriceAfter(absTick, i)
    ensures p == PriceAfter(absTick, i + 1)
  {
    hide *;
    AndWithBit(absTick, i);
    NextPrice(absTick, i);
    ScaledInWords(price, ratio);
    p := price;
    if BitAnd(absTick, mask) != 0 {
      p := Mul(price, ratio) / Q128;
    }
  }

  lemma {:induction false} XorBelow(x: nat, y: nat, n: nat)
    requires x < Pow2(n) && y < Pow2(n)
    ensures BitXor(x, y) < Pow2(n)
  {
    if n > 0 {
      XorBelow(x / 2, y / 2, n - 1);
      XorStep(x, y);
      hide BitXor;
    }
  }

  lemma XorInWords(x: Word, y: Word)
    ensures BitXor(x, y) < W
  {
    assert Pow2(256) == W by { Pow2Constants(); }
    hide *;
    XorBelow(x, y, 256);
  }

  lemma ScaledOne(c: nat)
    ensures Scaled(Q128, c) == c
  {
  }

  lemma TimesBit(w: Word)
    ensures Mul(w, 1) == w && Mul(w, 0) == 0
  {
  }

  lemma FirstRatio(absTick: nat, c: nat)
    requires c == Ratio(0)
    ensures c < W && Q128 < W && BitXor(Q128, c) < W && BitAnd(absTick, 1) < W
    ensures BitXor(Q128, Mul(BitXor(Q128, c), BitAnd(absTick, 1))) == PriceAfter(absTick, 1)
  {
    assert Pow2(0) == 1 && PriceAfter(absTick, 0) == Q128;
    hide BitXor, Pow2, HasBit, Ratio, BitAnd, PriceAfter, Scaled, Mul;
    AndWithBit(absTick, 0);
    NextPrice(absTick, 0);
    XorInWords(Q128, c);
    XorTwice(Q128, c);
    XorWithZero(Q128);
    ScaledOne(c);
    TimesBit(BitXor(Q128, c));
  }

  method FirstPrice(absTick: nat) returns (price: nat)
    ensures price == PriceAfter(absTick, 1)
  {
    assert Ratio(0) == 0xfffcb933bd6fad37aa2d162d1a594001;
    hide *;
    FirstRatio(absTick, 0xfffcb933bd6fad37aa2d162d1a594001);
    price := BitXor(Q128, Mul(BitXor(Q128, 0xfffcb933bd6fad37aa2d162d1a594001), BitAnd(absTick, 0x1)));
  }

  /** The product of the ratios, one bit of |tick| after the other. */
  method PriceByBits(absTick: nat) returns (price: nat)
    ensures price == PriceAfter(absTick, 20)
  {
    hide PriceAfter;
    price := FirstPrice(absTick);
    price := ApplyBit(absTick, 0x2, 0xfff97272373d413259a46990580e213a, 1, price);
    price := ApplyBit(absTick, 0x4, 0xfff2e50f5f656932ef12357cf3c7fdcc, 2, price);
    price := ApplyBit(absTick, 0x8, 0xffe5caca7e10e4e61c3624eaa0941cd0, 3, price);
    price := ApplyBit(absTick, 0x10, 0xffcb9843d60f6159c9db58835c926644, 4, price);
    price := ApplyBit(absTick, 0x20, 0xff973b41fa98c081472e6896dfb254c0, 5, price);
    price := ApplyBit(absTick, 0x40, 0xff2ea16466c96a3843ec78b326b52861, 6, price);
    price := ApplyBit(absTick, 0x80, 0xfe5dee046a99a2a811c461f1969c3053, 7, price);
    price := ApplyBit(absTick, 0x100, 0xfcbe86c7900a88aedcffc83b479aa3a4, 8, price);
    price := ApplyBit(absTick, 0x200, 0xf987a7253ac413176f2b074cf7815e54, 9, price);
    price := ApplyBit(absTick, 0x400, 0xf3392b0822b70005940c7a398e4b70f3, 10, price);
    price := ApplyBit(absTick, 0x800, 0xe7159475a2c29b7443b29c7fa6e889d9, 11, price);
    price := ApplyBit(absTick, 0x1000, 0xd097f3bdfd2022b8845ad8f792aa5825, 12, price);
    price := ApplyBit(absTick, 0x2000, 0xa9f746462d870fdf8a65dc1f90e061e5, 13, price);
    price := ApplyBit(absTick, 0x4000, 0x70d869a156d2a1b890bb3df62baf32f7, 14, price);
    price := ApplyBit(absTick, 0x8000, 0x31be135f97d08fd981231505542fcfa6, 15, price);
    price := ApplyBit(absTick, 0x10000, 0x9aa508b5b7a84e1c677de54f3e99bc9, 16, price);
    price := ApplyBit(absTick, 0x20000, 0x5d6af8dedb81196699c329225ee604, 17, price);
    price := ApplyBit(absTick, 0x40000, 0x2216e584f5fa1ea926041bedfe98, 18, price);
    price := ApplyBit(absTick, 0x80000, 0x48a170391f7dc42444e8fa2, 19, price);
  }

  lemma PriceInWords(tick: Int24)
    requires Abs(tick) <= MAX_TICK
    ensures var price := PriceAfter(Abs(tick), 20);
      && price < W
      && SqrtPriceAtTick(tick) == Return(Add(if tick > 0 then Div(W - 1, price) else price, 0xffff_ffff) / 0x1_0000_0000)
  {
    hide PriceAfter;
    assert PriceAfter(Abs(tick), 20) <= Q128;
  }

  method GetSqrtPriceAtTick(tick: Int24) returns (r: Result<nat>)
    ensures r == SqrtPriceAtTick(tick)
  {
    hide BitXor, PriceAfter, Add;
    MaskedAbs(tick);
    var mask := if tick < 0 then W - 1 else 0;
    var absTick := BitXor(mask, Add(mask, tick % W));
    if absTick > MAX_TICK {
      return Revert;
    }
    PriceInWords(tick);
    var price := PriceByBits(absTick);
    if tick > 0 {
      price := Div(W - 1, price);
    }
    r := Return(Add(price, 0xffff_ffff) / 0x1_0000_0000);
  }

  // ---- prices at particular ticks ----

  ghost predicate PriceIs(absTick: nat, n: nat, price: nat)
    requires n <= 20
  {
    PriceAfter(absTick, n) == price
  }

  lemma StartingPrice(absTick: nat)
    ensures PriceIs(absTick, 0, 0x100000000000000000000000000000000)
  {
  }

  lemma NextPriceIs(absTick: nat, n: nat, price: nat, next: nat)
    requires n < 20 && PriceIs(absTick, n, price)
    requires next == if absTick / Pow2(n) % 2 == 1 then price * Ratio(n) / Q128 else price
    ensures PriceIs(absTick, n + 1, next)
  {
    hide Ratio, Pow2;
    NextPrice(absTick, n);
  }

  lemma HighPowers()
    ensures Pow2(15) == 0x8000 && Pow2(16) == 0x1_0000 && Pow2(17) == 0x2_0000
    ensures Pow2(18) == 0x4_0000 && Pow2(19) == 0x8_0000
  {
    Pow2Small();
    assert Pow2(0) == 1 && Pow2(1) == 2 && Pow2(2) == 4 && Pow2(3) == 8;
    Pow2Add(1, 15);
    Pow2Add(1, 16);
    Pow2Add(2, 16);
    Pow2Add(3, 16);
    hide Pow2;
  }

  lemma PriceAtExtremeBits0To7(absTick: nat)
    requires absTick == 887_272
    ensures PriceIs(absTick, 8, 0xfd0c3654da9e033741d1a9f93707f6f6)
  {
    hide PriceIs;
    StartingPrice(absTick);
    NextPriceIs(absTick, 0, 0x100000000000000000000000000000000, 0x100000000000000000000000000000000);
    NextPriceIs(absTick, 1, 0x100000000000000000000000000000000, 0x100000000000000000000000000000000);
    NextPriceIs(absTick, 2, 0x100000000000000000000000000000000, 0x100000000000000000000000000000000);
    NextPriceIs(absTick, 3, 0x100000000000000000000000000000000, 0xffe5caca7e10e4e61c3624eaa0941cd0);
    NextPriceIs(absTick, 4, 0xffe5caca7e10e4e61c3624eaa0941cd0, 0xffe5caca7e10e4e61c3624eaa0941cd0);
    NextPriceIs(absTick, 5, 0xffe5caca7e10e4e61c3624eaa0941cd0, 0xff7d10c63a977157da4140deb6f31a7b);
    NextPriceIs(absTick, 6, 0xff7d10c63a977157da4140deb6f31a7b, 0xfeac1d4052f7714818b490c1138ea058);
    NextPriceIs(absTick, 7, 0xfeac1d4052f7714818b490c1138ea058, 0xfd0c3654da9e033741d1a9f93707f6f6);
  }

  lemma PriceAtExtremeBits8To14(absTick: nat)
    requires absTick == 887_272 && PriceIs(absTick, 8, 0xfd0c3654da9e033741d1a9f93707f6f6)
    ensures PriceIs(absTick, 15, 0xe183ac4e25d5949966242a64e9c80e2f)
  {
    hide PriceIs;
    NextPriceIs(absTick, 8, 0xfd0c3654da9e033741d1a9f93707f6f6, 0xf9d459c5817dbafa9e376ae84dcfeb8b);
    NextPriceIs(absTick, 9, 0xf9d459c5817dbafa9e376ae84dcfeb8b, 0xf9d459c5817dbafa9e376ae84dcfeb8b);
    NextPriceIs(absTick, 10, 0xf9d459c5817dbafa9e376ae84dcfeb8b, 0xf9d459c5817dbafa9e376ae84dcfeb8b);
    NextPriceIs(absTick, 11, 0xf9d459c5817dbafa9e376ae84dcfeb8b, 0xe183ac4e25d5949966242a64e9c80e2f);
    NextPriceIs(absTick, 12, 0xe183ac4e25d5949966242a64e9c80e2f, 0xe183ac4e25d5949966242a64e9c80e2f);
    NextPriceIs(absTick, 13, 0xe183ac4e25d5949966242a64e9c80e2f, 0xe183ac4e25d5949966242a64e9c80e2f);
    NextPriceIs(absTick, 14, 0xe183ac4e25d5949966242a64e9c80e2f, 0xe183ac4e25d5949966242a64e9c80e2f);
  }

  lemma PriceAtExtremeBits15To17(absTick: nat)
    requires absTick == 887_272 && PriceIs(absTick, 15, 0xe183ac4e25d5949966242a64e9c80e2f)
    ensures PriceIs(absTick, 18, 0x1a785cbbdc050483e3be5812760be73)
  {
    HighPowers();
    hide PriceIs, Pow2;
    NextPriceIs(absTick, 15, 0xe183ac4e25d5949966242a64e9c80e2f, 0x2bd1a4c5d2a1181aca1ef15e64c2e3cf);
    NextPriceIs(absTick, 16, 0x2bd1a4c5d2a1181aca1ef15e64c2e3cf, 0x1a785cbbdc050483e3be5812760be73);
    NextPriceIs(absTick, 17, 0x1a785cbbdc050483e3be5812760be73, 0x1a785cbbdc050483e3be5812760be73);
  }

  lemma PriceAtExtremeBits18To19(absTick: nat)
    requires absTick == 887_272 && PriceIs(absTick, 18, 0x1a785cbbdc050483e3be5812760be73)
    ensures PriceIs(absTick, 20, 0x1000276a221a17501)
  {
    HighPowers();
    hide PriceIs, Pow2;
    NextPriceIs(absTick, 18, 0x1a785cbbdc050483e3be5812760be73, 0x3865a6455d07d2bc87c5956d2e);
    NextPriceIs(absTick, 19, 0x3865a6455d07d2bc87c5956d2e, 0x1000276a221a17501);
  }

  lemma PriceAtExtreme(absTick: nat)
    requires absTick == 887_272
    ensures PriceAfter(absTick, 20) == 0x1000276a221a17501
  {
    hide PriceAfter;
    PriceAtExtremeBits0To7(absTick);
    PriceAtExtremeBits8To14(absTick);
    PriceAtExtremeBits15To17(absTick);
    PriceAtExtremeBits18To19(absTick);
  }

  lemma ExtremeArithmetic()
    ensures (0x1000276a221a17501 + 0xffff_ffff) % W / 0x1_0000_0000 == MIN_SQRT_PRICE
    ensures ((W - 1) / 0x1000276a221a17501 + 0xffff_ffff) % W / 0x1_0000_0000 == MAX_SQRT_PRICE
  {
  }

  /** The library's price limits are the prices at its smallest and its largest tick, past which there is
      no price. */
  lemma ExtremePrices(tick: Int24)
    ensures SqrtPriceAtTick(-887_272) == Return(MIN_SQRT_PRICE)
    ensures SqrtPriceAtTick(887_272) == Return(MAX_SQRT_PRICE)
    ensures SqrtPriceAtTick(tick).Revert? <==> tick < -887_272 || tick > 887_272
  {
    PriceAtExtreme(Abs(887_272));
    ExtremeArithmetic();
    hide PriceAfter;
  }

  // ---- the binary logarithm of a price ----

  function Power(b: nat, n: nat): nat
  {
    if n == 0 then 1 else b * Power(b, n - 1)
  }

  lemma {:induction false} PowerAdd(b: nat, m: nat, n: nat)
    ensures Power(b, m + n) == Power(b, m) * Power(b, n)
  {
    if m > 0 {
      PowerAdd(b, m - 1, n);
      MulAssociates(b, Power(b, m - 1), Power(b, n));
    }
  }

  /** `r := shr(127, mul(r, r))`, the next fraction bit `shr(128, r)`, and r shifted by it. */
  function Squared(r: Word): nat { Mul(r, r) / Q127 }

  function FractionBit(r: Word): nat { Squared(r) / Q128 }

  function Halved(r: Word): nat { if FractionBit(r) == 0 then Squared(r) else Squared(r) / 2 }

  lemma SquareRange(r: nat)
    requires Q127 <= r < Q128
    ensures Q127 * Q127 <= r * r < W
  {
    MulMonotone(Q127, r, Q127);
    MulMonotone(Q127, r, r);
    MulMonotone(r + 1, Q128, Q128);
    MulMonotone(r, r + 1, r);
    MulMonotone(r, Q128, r + 1);
    assert Q128 * Q128 == W;
  }

  lemma QuotientRange(x: nat)
    requires Q127 * Q127 <= x < W
    ensures Q127 <= x / Q127 < 2 * Q128 && x / Q127 * Q127 <= x
  {
  }

  /** Squaring does not overflow, gives one bit, and leaves a mantissa again. */
  lemma MantissaStays(r: Word)
    requires Q127 <= r < Q128
    ensures r * r < W && FractionBit(r) <= 1 && Q127 <= Halved(r) < Q128
    ensures Halved(r) * Pow2(FractionBit(r)) * Q127 <= r * r
  {
    SquareRange(r);
    QuotientRange(r * r);
    assert Squared(r) == r * r / Q127;
    HalvedRange(r, r * r / Q127);
  }

  lemma HalvedRange(r: Word, q: nat)
    requires Squared(r) == q && Q127 <= q < 2 * Q128
    ensures FractionBit(r) <= 1 && Q127 <= Halved(r) < Q128
    ensures Halved(r) * Pow2(FractionBit(r)) <= q
  {
    hide Squared;
    assert Pow2(0) == 1 && Pow2(1) == 2;
  }

  /** The fraction so far is not above the logarithm: r / 2^127 * 2^e <= price^n. */
  ghost predicate Below(price: nat, r: nat, e: nat, n: nat)
  {
    r * Pow2(e) <= Power(price, n) * Q127
  }

  lemma CancelFactor(x: nat, y: nat, q: nat)
    requires q > 0 && x * q <= y * q
    ensures x <= y
  {
    MulSign(x - y, q);
    MulDistributes(x, y, q);
  }

  /** Squaring the bound: with h * q <= r^2 and r * t <= p * q, h * t^2 <= p^2 * q. */
  lemma SquaredBound(h: nat, r: nat, t: nat, p: nat, q: nat)
    requires q > 0 && h * q <= r * r && r * t <= p * q
    ensures h * (t * t) <= p * p * q
  {
    var a, b := r * t, p * q;
    MulMonotone(a, b, a);
    MulMonotone(a, b, b);
    MulMonotone(h * q, r * r, t * t);
    Regroup(r, t);
    Regroup(p, q);
    MulAssociates(h, q, t * t);
    MulAssociates(h, t * t, q);
    MulAssociates(p * p, q, q);
    CancelFactor(h * (t * t), p * p * q, q);
  }

  lemma Regroup(r: nat, t: nat)
    ensures (r * t) * (r * t) == r * r * (t * t)
  {
  }

  lemma StepBelow(price: nat, r: Word, e: nat, n: nat)
    requires Q127 <= r < Q128 && Below(price, r, e, n)
    ensures Below(price, Halved(r), 2 * e + FractionBit(r), 2 * n)
  {
    MantissaStays(r);
    assert Q127 > 0;
    hide Halved, FractionBit, Power, Pow2, Q127, Q128;
    var f := FractionBit(r);
    SquaredBound(Halved(r) * Pow2(f), r, Pow2(e), Power(price, n), Q127);
    PowerAdd(price, n, n);
    Pow2Add(e, e);
    Pow2Add(f, e + e);
    MulAssociates(Halved(r), Pow2(f), Pow2(e + e));
  }

  /** The fraction so far is short by at most `slack` units of r: price^n < (r + slack) / 2^127 * 2^e. */
  ghost predicate Above(price: nat, r: nat, slack: nat, e: nat, n: nat)
  {
    Power(price, n) * Q127 < (r + slack) * Pow2(e)
  }

  lemma SquareOfSum(r: nat, slack: nat, h: nat, q: nat)
    requires q <= r < 2 * q && slack * slack <= q && r * r < (h + 2) * q
    ensures (r + slack) * (r + slack) <= (h + 3 + 4 * slack) * q
  {
    ExpandSquare(r, slack);
    MulMonotone(r, 2 * q, 2 * slack);
    MulAssociates(2, q, 2 * slack);
    MulDistributes(h + 2, 4 * slack + 1, q);
    MulDistributes(4 * slack, 1, q);
    MulAssociates(4, slack, q);
    Reorder(q, slack);
  }

  lemma ExpandSquare(r: nat, slack: nat)
    ensures (r + slack) * (r + slack) == r * r + r * (2 * slack) + slack * slack
  {
  }

  lemma Reorder(q: nat, slack: nat)
    ensures 2 * q * (2 * slack) == 4 * slack * q
  {
  }

  lemma SquareStrict(a: nat, b: nat)
    requires a < b
    ensures a * a < b * b
  {
    MulMonotone(a, b, a);
    MulMonotone(a + 1, b, b);
    MulDistributes(a, 1, b);
    MulAssociates(a, b, 1);
  }

  /** With p * q < s * t and s^2 <= u * q, p^2 * q < u * t^2. */
  lemma SquaredExcess(p: nat, q: nat, sum: nat, t: nat, u: nat)
    requires q > 0 && p * q < sum * t && sum * sum <= u * q
    ensures p * p * q < u * (t * t)
  {
    SquareStrict(p * q, sum * t);
    Regroup(p, q);
    Regroup(sum, t);
    MulMonotone(sum * sum, u * q, t * t);
    MulAssociates(u, q, t * t);
    MulAssociates(p * p, q, q);
    CancelStrictly(p * p * q, u * (t * t), q);
  }

  lemma CancelStrictly(x: nat, y: nat, q: nat)
    requires q > 0 && x * q < y * q
    ensures x < y
  {
    MulSign(x - y, q);
    MulDistributes(x, y, q);
  }

  /** What the halving drops: at most one unit of the square. */
  lemma HalvedLoses(r: Word)
    requires Q127 <= r < Q128
    ensures FractionBit(r) <= 1 && r * r < (Halved(r) * Pow2(FractionBit(r)) + 2) * Q127
  {
    SquareRange(r);
    QuotientRange(r * r);
    var q := r * r / Q127;
    assert Squared(r) == q;
    FloorIff(r * r, Q127, q + 1);
    HalvedDrops(r, q);
    var k := Halved(r) * Pow2(FractionBit(r));
    hide Squared, FractionBit, Halved, Pow2, Q127, Q128;
    MulMonotone(q + 1, k + 2, Q127);
  }

  lemma HalvedDrops(r: Word, q: nat)
    requires Squared(r) == q && Q127 <= q < 2 * Q128
    ensures FractionBit(r) <= 1 && q <= Halved(r) * Pow2(FractionBit(r)) + 1
  {
    hide Squared;
    assert Pow2(0) == 1 && Pow2(1) == 2;
  }

  lemma StepAbove(price: nat, r: Word, slack: nat, e: nat, n: nat)
    requires Q127 <= r < Q128 && slack < 0x4000_0000 && Above(price, r, slack, e, n)
    ensures Above(price, Halved(r), 4 * slack + 3, 2 * e + FractionBit(r), 2 * n)
  {
    HalvedLoses(r);
    MulMonotone(slack, 0x4000_0000, slack);
    assert Q128 == 2 * Q127;
    assert slack * slack <= Q127;
    hide Halved, FractionBit, Power, Pow2, Q127, Q128;
    var f := FractionBit(r);
    var h := Halved(r) * Pow2(f);
    SquareOfSum(r, slack, h, Q127);
    SquaredExcess(Power(price, n), Q127, r + slack, Pow2(e), h + 3 + 4 * slack);
    PowerAdd(price, n, n);
    Pow2Add(e, e);
    Pow2Add(f, e + e);
    MulDistributes(Halved(r), 4 * slack + 3, Pow2(f));
    MulMonotone(1, Pow2(f), 4 * slack + 3);
    MulMonotone(h + 3 + 4 * slack, (Halved(r) + (4 * slack + 3)) * Pow2(f), Pow2(e + e));
    MulAssociates(Halved(r) + (4 * slack + 3), Pow2(f), Pow2(e + e));
  }

  function Slack(n: nat): nat
    requires n > 0
  {
    2 * (n * n) - 1
  }

  lemma SlackGrows(n: nat)
    requires 0 < n <= 8192
    ensures Slack(2 * n) == 4 * Slack(n) + 3 && Slack(n) < 0x4000_0000
  {
    MulMonotone(n, 8192, n);
    MulMonotone(n, 8192, 8192);
    DoubledSquare(n);
  }

  lemma DoubledSquare(n: nat)
    ensures (2 * n) * (2 * n) == 4 * (n * n)
  {
  }

  /** The loop's state after n = 2^k squarings: r is a mantissa, and log2 holds the integer part (with
      `d` in place of -128 modulo 2^192) and k fraction bits, above `unit`. */
  ghost predicate Approximates(price: nat, msb: nat, d: int, r: nat, log2: nat, unit: nat, e: nat, n: nat)
    requires n > 0
  {
    && Q127 <= r < Q128
    && Below(price, r, e, n)
    && Above(price, r, Slack(n), e, n)
    && msb * n <= e < msb * n + n
    && e + d * n >= 0
    && log2 == (e + d * n) * Pow2(unit)
  }

  lemma DigitRoom(c: nat, f: nat, p: nat, k: nat, w: nat)
    requires f <= 1 && w == k * (2 * p) && c * (2 * p) < w && p > 0
    ensures f * p < 2 * p && c * (2 * p) + f * p == (2 * c + f) * p < w
  {
    MulSign(c - k, 2 * p);
    MulDistributes(c, k, 2 * p);
    MulMonotone(c + 1, k, 2 * p);
    MulDistributes(c, 1, 2 * p);
    MulDistributes(2 * c, f, p);
    MulAssociates(c, 2, p);
    MulMonotone(f, 1, p);
  }

  lemma WordSplits(m: nat, n: nat)
    requires m + n == 256
    ensures Pow2(m) * Pow2(n) == W
  {
    Pow2Constants();
    hide Pow2, W;
    Pow2Add(m, n);
  }

  lemma NextDigits(c: nat, f: nat, shift: nat)
    requires f <= 1 && shift <= 63 && c * Pow2(shift + 1) < W
    ensures f * Pow2(shift) < W && (2 * c + f) * Pow2(shift) < W
    ensures BitOr(c * Pow2(shift + 1), f * Pow2(shift)) == (2 * c + f) * Pow2(shift)
  {
    var p, q := Pow2(shift), Pow2(shift + 1);
    assert q == 2 * p;
    hide Pow2, BitOr, W;
    WordSplits(255 - shift, shift + 1);
    DigitRoom(c, f, p, Pow2(255 - shift), W);
    DivModOf(c * q, c, 0, q);
    BitOrDisjoint(c * q, f * p, shift + 1);
  }

  lemma NextExponent(msb: nat, e: nat, n: nat, f: nat, d: int)
    requires msb * n <= e < msb * n + n && f <= 1 && e + d * n >= 0
    ensures msb * (2 * n) <= 2 * e + f < msb * (2 * n) + 2 * n
    ensures 2 * e + f + d * (2 * n) == 2 * (e + d * n) + f
  {
    MulAssociates(msb, 2, n);
    MulAssociates(d, 2, n);
  }

  /** One of the fourteen blocks. */
  method Log2Step(ghost price: nat, ghost msb: nat, ghost d: int, r: Word, log2: Word, shift: nat, ghost e: nat, ghost n: nat)
      returns (r': Word, log2': Word, ghost e': nat, ghost n': nat)
    requires shift <= 63 && 0 < n <= 8192 && Approximates(price, msb, d, r, log2, shift + 1, e, n)
    ensures Q127 <= r' < Q128
    ensures n' == 2 * n && Approximates(price, msb, d, r', log2', shift, e', n')
  {
    MantissaStays(r);
    StepBelow(price, r, e, n);
    SlackGrows(n);
    StepAbove(price, r, Slack(n), e, n);
    var squared := Mul(r, r) / Q127;
    var f := squared / Q128;
    assert squared == Squared(r) && f == FractionBit(r);
    assert ShiftRight(squared, f) == Halved(r);
    hide Halved, FractionBit, Below, Above, Slack, ShiftRight, Pow2, BitOr, Mul, Squared;
    NextExponent(msb, e, n, f, d);
    NextDigits(e + d * n, f, shift);
    e', n' := 2 * e + f, 2 * n;
    log2' := BitOr(log2, f * Pow2(shift));
    r' := ShiftRight(squared, f);
  }

  /** The sign offset of log_2: -128, or the same modulo 2^192. */
  ghost function Offset(msb: nat): int
  {
    (if msb >= 128 then 0 else 0x1_0000_0000_0000_0000_0000_0000_0000_0000_0000_0000_0000_0000) - 128
  }

  lemma IntegerPart(msb: nat)
    requires msb < 256
    ensures msb + Offset(msb) >= 0
    ensures (msb - 128) * 0x1_0000_0000_0000_0000 % W == (msb + Offset(msb)) * 0x1_0000_0000_0000_0000
  {
  }

  /** `msb >= 128 ? price >> (msb - 127) : price << (127 - msb)`. */
  function Mantissa(price: nat, msb: nat): nat
  {
    if msb >= 128 then ShiftRight(price, msb - 127)
    else if msb <= 127 then price * Pow2(127 - msb)
    else price
  }

  lemma FirstMantissa(price: nat, msb: nat)
    requires Pow2(msb) <= price < Pow2(msb + 1)
    ensures Q127 <= Mantissa(price, msb) < Q128
    ensures Below(price, Mantissa(price, msb), msb, 1) && Above(price, Mantissa(price, msb), 1, msb, 1)
  {
    PowersOfHalf();
    assert Pow2(msb + 1) == 2 * Pow2(msb) && Power(price, 1) == price;
    if msb >= 128 {
      var k := msb - 127;
      ShiftRightIs(price, k);
      Pow2Add(k, 127);
      hide Pow2, ShiftRight, Power, Q127, Q128;
      ShiftedMantissa(price, Pow2(k), Q127);
    } else {
      var k := 127 - msb;
      Pow2Add(k, msb);
      hide Pow2, ShiftRight, Power, Q127, Q128;
      MulMonotone(Pow2(msb), price, Pow2(k));
      MulMonotone(price + 1, 2 * Pow2(msb), Pow2(k));
      MulAssociates(2, Pow2(msb), Pow2(k));
      MulDistributes(price, 1, Pow2(k));
      MulAssociates(price, Pow2(k), Pow2(msb));
      MulDistributes(price * Pow2(k), 1, Pow2(msb));
    }
  }

  lemma PowersOfHalf()
    ensures Pow2(127) == Q127 && Q128 == 2 * Q127
  {
    Pow2Constants();
    assert Pow2(128) == 2 * Pow2(127);
    hide Pow2;
  }

  lemma ShiftedMantissa(price: nat, p: nat, q: nat)
    requires p > 0 && q > 0 && p * q <= price < 2 * (p * q)
    ensures q <= price / p < 2 * q && price / p * (p * q) <= price * q < (price / p + 1) * (p * q)
  {
    FloorIff(price, p, q);
    MulAssociates(2, q, p);
    FloorIff(price, p, 2 * q);
    FloorIff(price, p, price / p);
    FloorIff(price, p, price / p + 1);
    TimesFactor(price, price / p, p, q);
  }

  lemma TimesFactor(price: nat, k: nat, p: nat, q: nat)
    requires q > 0 && k * p <= price < (k + 1) * p
    ensures k * (p * q) <= price * q < (k + 1) * (p * q)
  {
    MulMonotone(k * p, price, q);
    MulMonotone(price + 1, (k + 1) * p, q);
    MulDistributes(price, 1, q);
    MulAssociates(k, p, q);
    MulAssociates(k + 1, p, q);
  }

  /** log2 is the logarithm of a Q64.128 price with 14 fraction bits, as a signed word with 64 fraction
      places. e counts 2^-14ths from 2^0: it never overestimates, and it falls short by at most one such
      unit and a relative error of 2^-98. */
  ghost predicate LogOf(price: nat, log2: nat, e: nat)
  {
    && log2 == (e * 0x4_0000_0000_0000 - 128 * 0x1_0000_0000_0000_0000) % W
    && Pow2(e) <= Power(price, 16384)
    && Power(price, 16384) * Q127 < (Q128 + 0x2000_0000) * Pow2(e)
    && Pow2(e / 16384) <= price < Pow2(e / 16384 + 1)
  }

  lemma FinalDigits(price: nat, msb: nat, r: nat, log2: nat, e: nat)
    requires Pow2(msb) <= price < Pow2(msb + 1) && log2 < W
    requires Approximates(price, msb, Offset(msb), r, log2, 50, e, 16384)
    ensures LogOf(price, log2, e)
  {
    FiftyPlaces();
    assert e / 16384 == msb;
    hide Pow2, Power;
    assert Q127 > 0;
    MulMonotone(Q127, r, Pow2(e));
    CancelFactor(Pow2(e), Power(price, 16384), Q127);
    MulMonotone(r + Slack(16384), Q128 + 0x2000_0000, Pow2(e));
    WrappedLog(e, log2, Offset(msb));
  }

  lemma FiftyPlaces()
    ensures Pow2(50) == 0x4_0000_0000_0000
  {
    Pow2Small();
    Pow2Add(16, 32);
    Pow2Add(2, 48);
    assert Pow2(2) == 4;
  }

  lemma WrappedLog(e: nat, log2: nat, d: int)
    requires d == -128 || d == 0x1_0000_0000_0000_0000_0000_0000_0000_0000_0000_0000_0000_0000 - 128
    requires log2 < W && log2 == (e + d * 16384) * 0x4_0000_0000_0000
    ensures log2 == (e * 0x4_0000_0000_0000 - 128 * 0x1_0000_0000_0000_0000) % W
  {
  }

  /** The logarithm at the heart of `getTickAtSqrtPrice`. */
  method Log2OfPrice(sqrtPriceX96: Word) returns (log2: Result<Word>)
    requires sqrtPriceX96 < 0x1_0000_0000_0000_0000_0000_0000_0000_0000_0000_0000
    ensures log2.Revert? <==> !(MIN_SQRT_PRICE <= sqrtPriceX96 < MAX_SQRT_PRICE)
    ensures log2.Return? ==> exists e :: LogOf(sqrtPriceX96 * 0x1_0000_0000, log2.value, e)
  {
    var above := (sqrtPriceX96 - MIN_SQRT_PRICE) % 0x1_0000_0000_0000_0000_0000_0000_0000_0000_0000_0000;
    if above > MAX_SQRT_PRICE - MIN_SQRT_PRICE - 1 {
      return Revert;
    }
    var price: Word := sqrtPriceX96 * 0x1_0000_0000;
    var top := MostSignificantBit(price);
    var msb := top.value;
    var word := Logarithm(price, msb);
    log2 := Return(word);
  }

  method Logarithm(price: Word, msb: nat) returns (log2: Word)
    requires msb < 256 && Pow2(msb) <= price < Pow2(msb + 1)
    ensures exists e :: LogOf(price, log2, e)
  {
    FirstMantissa(price, msb);
    IntegerPart(msb);
    ghost var d := Offset(msb);
    ghost var e, n := msb, 1;
    var r: Word := Mantissa(price, msb);
    log2 := (msb - 128) * 0x1_0000_0000_0000_0000 % W;
    assert Pow2(64) == 0x1_0000_0000_0000_0000 by { Pow2Constants(); }
    assert Slack(1) == 1;
    hide Pow2, Offset, Below, Above, Slack, LogOf, Mantissa;
    assert Approximates(price, msb, d, r, log2, 64, e, n);
    hide Approximates;
    r, log2, e, n := Log2Step(price, msb, d, r, log2, 63, e, n);
    r, log2, e, n := Log2Step(price, msb, d, r, log2, 62, e, n);
    r, log2, e, n := Log2Step(price, msb, d, r, log2, 61, e, n);
    r, log2, e, n := Log2Step(price, msb, d, r, log2, 60, e, n);
    r, log2, e, n := Log2Step(price, msb, d, r, log2, 59, e, n);
    r, log2, e, n := Log2Step(price, msb, d, r, log2, 58, e, n);
    r, log2, e, n := Log2Step(price, msb, d, r, log2, 57, e, n);
    r, log2, e, n := Log2Step(price, msb, d, r, log2, 56, e, n);
    r, log2, e, n := Log2Step(price, msb, d, r, log2, 55, e, n);
    r, log2, e, n := Log2Step(price, msb, d, r, log2, 54, e, n);
    r, log2, e, n := Log2Step(price, msb, d, r, log2, 53, e, n);
    r, log2, e, n := Log2Step(price, msb, d, r, log2, 52, e, n);
    r, log2, e, n := Log2Step(price, msb, d, r, log2, 51, e, n);
    r, log2, e, n := Log2Step(price, msb, d, r, log2, 50, e, n);
    FinalDigits(price, msb, r, log2, e);
  }
}
