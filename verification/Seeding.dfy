/** The one price the contract seeds its pool at, and the liquidity it puts there
    (docs/superpowers/specs/_contract/Hash.sol). */
module Seeding {
  import opened FullMath
  import opened LiquidityAmounts
  import opened TickMath
  import opened Words

  // ---- the integer square root ----

  ghost predicate IsSqrt(x: nat, z: nat)
  {
    z * z <= x < (z + 1) * (z + 1)
  }

  lemma SquareMonotone(a: nat, b: nat)
    requires a <= b
    ensures a * a <= b * b
  {
    MulMonotone(a, b, a);
    MulMonotone(a, b, b);
  }

  lemma SqrtUnique(x: nat, y: nat, z: nat)
    requires IsSqrt(x, y) && IsSqrt(x, z)
    ensures y == z
  {
    if y < z {
      SquareMonotone(y + 1, z);
    } else if z < y {
      SquareMonotone(z + 1, y);
    }
  }

  /** Newton's step from any y stays above the root: ((x / y + y) / 2 + 1)^2 > x. */
  lemma NewtonStaysAbove(x: nat, y: nat, z: nat)
    requires y > 0 && z == (x / y + y) / 2
    ensures x < (z + 1) * (z + 1)
  {
    var q := x / y;
    FloorIff(x, y, q + 1);
    ArithmeticMean(q + 1, y, z + 1);
  }

  /** a * b <= c^2 when a + b <= 2 * c. */
  lemma ArithmeticMean(a: nat, b: nat, c: nat)
    requires a + b <= 2 * c
    ensures a * b <= c * c
  {
    SquareMonotone(a + b, 2 * c);
    SquareOfDifference(a, b);
    FourSquares(c);
  }

  lemma SquareOfDifference(a: nat, b: nat)
    ensures (a + b) * (a + b) >= 4 * (a * b)
  {
    var d: int := a - b;
    assert d * d >= 0;
    assert (a + b) * (a + b) == d * d + 4 * (a * b);
  }

  lemma FourSquares(c: nat)
    ensures (2 * c) * (2 * c) == 4 * (c * c)
  {
  }

  lemma QuotientSum(x: nat, z: nat)
    requires 0 < z <= x
    ensures x / z + z <= x + 1
  {
    FloorIff(x, z, x / z);
    var q := x / z;
    if z > 1 && q > 1 {
      TwoFactors(q, z);
    } else if q <= 1 {
    } else {
      assert z == 1;
    }
  }

  lemma TwoFactors(a: nat, b: nat)
    requires a >= 1 && b >= 1
    ensures a + b <= a * b + 1
  {
    assert (a - 1) * (b - 1) >= 0;
    assert a * b == (a - 1) * (b - 1) + a + b - 1;
  }

  function Newton(x: nat, y: nat): nat
    requires y > 0
  {
    (x / y + y) / 2
  }

  ghost predicate AboveRoot(x: nat, z: nat)
  {
    x < (z + 1) * (z + 1)
  }

  /** A step from y with 0 < y <= x neither overflows nor reaches 0, stays above the root, and unless it
      goes down has reached the root. */
  lemma NewtonStep(x: nat, y: nat)
    requires 0 < y <= x
    ensures x / y + y <= x + 1 && 0 < Newton(x, y) <= x
    ensures AboveRoot(x, Newton(x, y))
    ensures Newton(x, y) >= y ==> y * y <= x
  {
    QuotientSum(x, y);
    FloorIff(x, y, 1);
    FloorIff(x, y, y);
    NewtonStaysAbove(x, y, Newton(x, y));
  }

  lemma FirstStep(x: nat)
    requires x > 0
    ensures Newton(x, x) == (x + 1) / 2 && AboveRoot(x, x)
  {
    assert x / x == 1;
    MulMonotone(1, x + 1, x);
  }

  ghost predicate Searching(x: nat, y: nat, z: nat)
  {
    0 < y <= x && 0 < z <= x && z == Newton(x, y) && AboveRoot(x, y)
  }

  lemma FirstGuess(x: nat)
    requires x > 0
    ensures Searching(x, x, (x + 1) / 2)
  {
    FirstStep(x);
    NewtonStep(x, x);
  }

  /** `z = (x / z + z) / 2`, in checked arithmetic. */
  method NextGuess(x: Word, ghost y: nat, z: nat) returns (w: nat)
    requires x + 1 < W && Searching(x, y, z)
    ensures Searching(x, z, w)
  {
    NewtonStep(x, y);
    NewtonStep(x, z);
    hide AboveRoot, W;
    w := (x / z + z) / 2;
  }

  lemma RootOfZero()
    ensures IsSqrt(0, 0)
  {
  }

  lemma SearchEnds(x: nat, y: nat, z: nat)
    requires Searching(x, y, z) && z >= y
    ensures IsSqrt(x, y)
  {
    NewtonStep(x, y);
  }

  /** The largest z with z^2 <= x; only the largest word reverts, in computing x + 1. */
  method Sqrt(x: Word) returns (r: Result<Word>)
    ensures r.Revert? <==> x == W - 1
    ensures r.Return? ==> IsSqrt(x, r.value)
  {
    RootOfZero();
    hide Newton, AboveRoot, IsSqrt;
    if x == 0 {
      return Return(0);
    }
    if x + 1 >= W {
      return Revert;
    }
    var z: nat := (x + 1) / 2;
    var y: nat := x;
    FirstGuess(x);
    while z < y
      invariant Searching(x, y, z)
      decreases y
    {
      var w := NextGuess(x, y, z);
      y := z;
      z := w;
    }
    SearchEnds(x, y, z);
    return Return(y);
  }

  /** The integer square root. */
  ghost function Root(x: nat): (z: nat)
    ensures IsSqrt(x, z)
  {
    if x == 0 then 0
    else
      var z := Root(x - 1);
      if (z + 1) * (z + 1) <= x then NextRoot(x, z); z + 1 else z
  }

  lemma NextRoot(x: nat, z: nat)
    requires x < (z + 1) * (z + 1) + 1
    ensures x < (z + 2) * (z + 2)
  {
    SquareMonotone(z + 1, z + 2);
    assert (z + 2) * (z + 2) == (z + 1) * (z + 1) + 2 * z + 3;
  }

  // ---- the price of the amounts ----

  /** Solidity's unchecked `x << 96`. */
  function Shl96(x: nat): Word
  {
    x * Q96 % W
  }

  ghost function SqrtPriceX96FromAmounts(amount0: Word, amount1: Word): Result<Price>
  {
    if amount0 == 0 then Revert
    else
      var ratioX192 := Shl96(Shl96(amount1) / amount0);
      if ratioX192 == W - 1 || Root(ratioX192) >= U160_SIZE then Revert else Return(Root(ratioX192))
  }

  method ComputeSqrtPriceX96(amount0: Word, amount1: Word) returns (r: Result<Price>)
    ensures r == SqrtPriceX96FromAmounts(amount0, amount1)
  {
    if amount0 == 0 {
      return Revert;
    }
    var priceX96 := Shl96(amount1) / amount0;
    var ratioX192 := Shl96(priceX96);
    var s := Sqrt(ratioX192);
    if s.Revert? {
      return Revert;
    }
    SqrtUnique(ratioX192, s.value, Root(ratioX192));
    if s.value >= U160_SIZE {
      return Revert;
    }
    return Return(s.value);
  }

  const SEED_RATIO: nat := 100_000
  const SEED_PRICE: Price := 25054144837504793118641380156960
  const TICK_LOWER: int := -887_200
  const TICK_UPPER: int := 887_200
  const LOWER_PRICE: Price := 4310618292
  const UPPER_PRICE: Price := 1456195216270955103206513029158776779468408838535

  lemma RatioOfMultiples(eth: nat)
    requires 0 < eth && SEED_RATIO * eth < U160_SIZE
    ensures Shl96(SEED_RATIO * eth) / eth == SEED_RATIO * Q96
  {
    assert SEED_RATIO * eth * Q96 < W;
    hide Q96, W, SEED_RATIO;
    MulAssociates(SEED_RATIO, eth, Q96);
    DivModOf(SEED_RATIO * eth * Q96, SEED_RATIO * Q96, 0, eth);
  }

  lemma RootOfSeedRatio()
    ensures Root(SEED_RATIO * Q96 * Q96) == SEED_PRICE
  {
    SqrtUnique(SEED_RATIO * Q96 * Q96, Root(SEED_RATIO * Q96 * Q96), SEED_PRICE);
    hide Root;
  }

  /** Whatever the genesis raised, the pool is seeded at floor(sqrt(100000 * 2^192)). */
  lemma SeedPriceIsFixed(eth: Word, hash: Word)
    requires eth > 0 && hash == SEED_RATIO * eth && hash < U160_SIZE
    ensures SqrtPriceX96FromAmounts(eth, hash) == Return(SEED_PRICE)
    ensures SEED_PRICE == Root(100_000 * Q96 * Q96)
  {
    RatioOfMultiples(eth);
    RootOfSeedRatio();
    hide Root;
  }

  // ---- the two boundary prices ----

  lemma PriceAtBoundaryBits0To7(absTick: nat)
    requires absTick == 887_200
    ensures PriceIs(absTick, 8, 0xfdf5d45eff7dded15d9fdf37e6de580c)
  {
    hide PriceIs;
    StartingPrice(absTick);
    NextPriceIs(absTick, 0, 0x100000000000000000000000000000000, 0x100000000000000000000000000000000);
    NextPriceIs(absTick, 1, 0x100000000000000000000000000000000, 0x100000000000000000000000000000000);
    NextPriceIs(absTick, 2, 0x100000000000000000000000000000000, 0x100000000000000000000000000000000);
    NextPriceIs(absTick, 3, 0x100000000000000000000000000000000, 0x100000000000000000000000000000000);
    NextPriceIs(absTick, 4, 0x100000000000000000000000000000000, 0x100000000000000000000000000000000);
    NextPriceIs(absTick, 5, 0x100000000000000000000000000000000, 0xff973b41fa98c081472e6896dfb254c0);
    NextPriceIs(absTick, 6, 0xff973b41fa98c081472e6896dfb254c0, 0xff973b41fa98c081472e6896dfb254c0);
    NextPriceIs(absTick, 7, 0xff973b41fa98c081472e6896dfb254c0, 0xfdf5d45eff7dded15d9fdf37e6de580c);
  }

  lemma PriceAtBoundaryBits8To14(absTick: nat)
    requires absTick == 887_200 && PriceIs(absTick, 8, 0xfdf5d45eff7dded15d9fdf37e6de580c)
    ensures PriceIs(absTick, 15, 0xe253df07c9703d60899ec185fc1b6107)
  {
    hide PriceIs;
    NextPriceIs(absTick, 8, 0xfdf5d45eff7dded15d9fdf37e6de580c, 0xfabaff35c82810fdc19941b4326daa51);
    NextPriceIs(absTick, 9, 0xfabaff35c82810fdc19941b4326daa51, 0xfabaff35c82810fdc19941b4326daa51);
    NextPriceIs(absTick, 10, 0xfabaff35c82810fdc19941b4326daa51, 0xfabaff35c82810fdc19941b4326daa51);
    NextPriceIs(absTick, 11, 0xfabaff35c82810fdc19941b4326daa51, 0xe253df07c9703d60899ec185fc1b6107);
    NextPriceIs(absTick, 12, 0xe253df07c9703d60899ec185fc1b6107, 0xe253df07c9703d60899ec185fc1b6107);
    NextPriceIs(absTick, 13, 0xe253df07c9703d60899ec185fc1b6107, 0xe253df07c9703d60899ec185fc1b6107);
    NextPriceIs(absTick, 14, 0xe253df07c9703d60899ec185fc1b6107, 0xe253df07c9703d60899ec185fc1b6107);
  }

  lemma PriceAtBoundaryBits15To17(absTick: nat)
    requires absTick == 887_200 && PriceIs(absTick, 15, 0xe253df07c9703d60899ec185fc1b6107)
    ensures PriceIs(absTick, 18, 0x1a90ccc544cdbbde1017cdeba8cfbad)
  {
    HighPowers();
    hide PriceIs, Pow2;
    NextPriceIs(absTick, 15, 0xe253df07c9703d60899ec185fc1b6107, 0x2bfa1910c23b30c4103005dd64f16746);
    NextPriceIs(absTick, 16, 0x2bfa1910c23b30c4103005dd64f16746, 0x1a90ccc544cdbbde1017cdeba8cfbad);
    NextPriceIs(absTick, 17, 0x1a90ccc544cdbbde1017cdeba8cfbad, 0x1a90ccc544cdbbde1017cdeba8cfbad);
  }

  lemma PriceAtBoundaryBits18To19(absTick: nat)
    requires absTick == 887_200 && PriceIs(absTick, 18, 0x1a90ccc544cdbbde1017cdeba8cfbad)
    ensures PriceIs(absTick, 20, 0x100eed0b3979c5018)
  {
    HighPowers();
    hide PriceIs, Pow2;
    NextPriceIs(absTick, 18, 0x1a90ccc544cdbbde1017cdeba8cfbad, 0x3899b751f73d1746f615bd88d9);
    NextPriceIs(absTick, 19, 0x3899b751f73d1746f615bd88d9, 0x100eed0b3979c5018);
  }

  lemma PriceAtBoundary(absTick: nat)
    requires absTick == 887_200
    ensures PriceAfter(absTick, 20) == 0x100eed0b3979c5018
  {
    hide PriceAfter;
    PriceAtBoundaryBits0To7(absTick);
    PriceAtBoundaryBits8To14(absTick);
    PriceAtBoundaryBits15To17(absTick);
    PriceAtBoundaryBits18To19(absTick);
  }

  lemma BoundaryPrices()
    ensures SqrtPriceAtTick(TICK_LOWER) == Return(LOWER_PRICE)
    ensures SqrtPriceAtTick(TICK_UPPER) == Return(UPPER_PRICE)
  {
    PriceAtBoundary(Abs(TICK_LOWER));
    hide PriceAfter;
    BoundaryArithmetic();
  }

  lemma BoundaryArithmetic()
    ensures (0x100eed0b3979c5018 + 0xffff_ffff) % W / 0x1_0000_0000 == LOWER_PRICE
    ensures ((W - 1) / 0x100eed0b3979c5018 + 0xffff_ffff) % W / 0x1_0000_0000 == UPPER_PRICE
  {
  }

  // ---- the liquidity of the seed ----

  /** The most the genesis raises: 1050 units at 0.01 ether. */
  const MAX_RAISED: nat := 10_500_000_000_000_000_000

  lemma SeedLiquidity0(eth: Word)
    requires 0 < eth <= MAX_RAISED
    ensures GetLiquidityForAmount0(SEED_PRICE, UPPER_PRICE, eth).Return?
    ensures GetLiquidityForAmount0(SEED_PRICE, UPPER_PRICE, eth).value > 0
  {
    FitsIff(SEED_PRICE, UPPER_PRICE, Q96);
    FloorIs(SEED_PRICE, UPPER_PRICE, Q96);
    var i := SEED_PRICE * UPPER_PRICE / Q96;
    FitsIff(eth, i, UPPER_PRICE - SEED_PRICE);
    FloorIs(eth, i, UPPER_PRICE - SEED_PRICE);
    hide MulDivFloor;
  }

  lemma SeedLiquidity1(hash: Word)
    requires 0 < hash <= SEED_RATIO * MAX_RAISED
    ensures GetLiquidityForAmount1(LOWER_PRICE, SEED_PRICE, hash).Return?
    ensures hash >= 1000 ==> GetLiquidityForAmount1(LOWER_PRICE, SEED_PRICE, hash).value > 0
  {
    FitsIff(hash, Q96, SEED_PRICE - LOWER_PRICE);
    FloorIs(hash, Q96, SEED_PRICE - LOWER_PRICE);
    hide MulDivFloor;
  }

  /** The price and liquidity computations of `_seedBody`. */
  ghost function SeedLiquidity(eth: Word, hash: Word): Result<Liquidity>
  {
    match SqrtPriceX96FromAmounts(eth, hash)
    case Revert => Revert
    case Return(price) =>
      match GetLiquidityForAmounts(price, BoundaryPrice(TICK_LOWER), BoundaryPrice(TICK_UPPER), eth, hash)
      case Revert => Revert
      case Return(liquidity) => if liquidity == 0 then Revert else Return(liquidity)
  }

  /** The price at one of the two boundary ticks, as a uint160. */
  function BoundaryPrice(tick: Int24): Price
  {
    match SqrtPriceAtTick(tick)
    case Revert => 0
    case Return(price) => price % U160_SIZE
  }

  lemma BoundariesAre()
    ensures BoundaryPrice(TICK_LOWER) == LOWER_PRICE && BoundaryPrice(TICK_UPPER) == UPPER_PRICE
    ensures SqrtPriceAtTick(TICK_LOWER).Return? && SqrtPriceAtTick(TICK_UPPER).Return?
  {
    BoundaryPrices();
    hide SqrtPriceAtTick;
  }

  method ComputeSeedLiquidity(eth: Word, hash: Word) returns (r: Result<Liquidity>)
    ensures r == SeedLiquidity(eth, hash)
  {
    hide SqrtPriceX96FromAmounts, GetLiquidityForAmounts;
    var price := ComputeSqrtPriceX96(eth, hash);
    if price.Revert? {
      return Revert;
    }
    var lower := GetSqrtPriceAtTick(TICK_LOWER);
    var upper := GetSqrtPriceAtTick(TICK_UPPER);
    BoundariesAre();
    BoundaryPrices();
    hide SqrtPriceAtTick, BoundaryPrice;
    r := GetLiquidityForAmounts(price.value, lower.value, upper.value, eth, hash);
    if r.Return? && r.value == 0 {
      r := Revert;
    }
  }

  /** The price of any two amounts is the root of the ratio, carried through two shifts that drop what does not
      fit in a word: the only reverts are a zero amount and the one word that the root cannot take. */
  lemma PriceOfAmounts(amount0: Word, amount1: Word)
    ensures SqrtPriceX96FromAmounts(amount0, amount1).Return? <==> amount0 != 0 && Ratio(amount0, amount1) != W - 1
    ensures SqrtPriceX96FromAmounts(amount0, amount1).Return? ==>
      IsSqrt(Ratio(amount0, amount1), SqrtPriceX96FromAmounts(amount0, amount1).value)
  {
    if amount0 != 0 {
      RootOfWord(Ratio(amount0, amount1));
    }
    hide Root;
  }

  /** (amount1 << 96) / amount0 << 96, in words. */
  function Ratio(amount0: Word, amount1: Word): int
  {
    if amount0 == 0 then 0
    else
      amount1 * 0x1_0000_0000_0000_0000_0000_0000 % W / amount0 * 0x1_0000_0000_0000_0000_0000_0000 % W
  }

  lemma RootOfWord(x: nat)
    requires x < W
    ensures Root(x) < U128_SIZE
  {
    var z := Root(x);
    hide Root;
    if z >= U128_SIZE {
      SquareMonotone(U128_SIZE, z);
    }
  }

  /** a / b <= c / d from a * d <= c * b, for multiples of the numerators. */
  lemma QuotientsCompare(n: nat, a: nat, b: nat, c: nat, d: nat)
    requires b > 0 && d > 0 && a * d <= c * b
    ensures n * a / b <= n * c / d
  {
    var q := n * a / b;
    FloorIff(n * a, b, q);
    MulMonotone(q * b, n * a, d);
    MulMonotone(a * d, c * b, n);
    SwapFactors(q, b, d);
    SwapFactors(n, a, d);
    MulAssociates(n, a, d);
    MulAssociates(n, c, b);
    if q * d > n * c {
      MulMonotone(n * c + 1, q * d, b);
      MulDistributes(n * c, 1, b);
    }
    FloorIff(n * c, d, q);
  }

  lemma SwapFactors(x: nat, y: nat, z: nat)
    ensures x * y * z == x * z * y
  {
    MulAssociates(x, y, z);
    MulAssociates(x, z, y);
  }

  /** The seed's liquidity, for every amount the genesis can raise: the token side decides, and it is
      100000 * eth * 2^96 / (price - lower price). */
  lemma SeedLiquidityIs(eth: Word, hash: Word)
    requires 0 < eth <= MAX_RAISED && hash == SEED_RATIO * eth
    ensures SeedLiquidity(eth, hash) ==
            Return(100_000 * eth * 0x1_0000_0000_0000_0000_0000_0000 / (25054144837504793118641380156960 - 4310618292))
  {
    SeedNeverReverts(eth, hash);
    BoundariesAre();
    LiquidityIs(SEED_PRICE, LOWER_PRICE, UPPER_PRICE, eth, hash);
    TokenSideDecides(eth);
    hide GetLiquidityForAmounts, SqrtPriceX96FromAmounts, BoundaryPrice, SqrtPriceAtTick;
  }

  lemma TokenSideDecides(eth: nat)
    ensures 100_000 * eth * Q96 / (SEED_PRICE - LOWER_PRICE) <= eth * Depth(SEED_PRICE, UPPER_PRICE) / (UPPER_PRICE - SEED_PRICE)
  {
    QuotientsCompare(eth, 100_000 * Q96, SEED_PRICE - LOWER_PRICE, Depth(SEED_PRICE, UPPER_PRICE), UPPER_PRICE - SEED_PRICE);
  }

  /** A sold-out genesis is seeded with this liquidity. */
  lemma SoldOutLiquidity()
    ensures SeedLiquidity(10_500_000_000_000_000_000, 1_050_000_000_000_000_000_000_000) == Return(3320391543176798298599)
  {
    hide SeedLiquidity;
    SeedLiquidityIs(MAX_RAISED, SEED_RATIO * MAX_RAISED);
  }

  /** Every amount the genesis can raise gives the one seed price and a positive liquidity that fits in
      128 bits: none of the reverts on the way to it can fire. */
  lemma SeedNeverReverts(eth: Word, hash: Word)
    requires 0 < eth <= MAX_RAISED && hash == SEED_RATIO * eth
    ensures SqrtPriceX96FromAmounts(eth, hash) == Return(SEED_PRICE)
    ensures SeedLiquidity(eth, hash).Return? && SeedLiquidity(eth, hash).value > 0
  {
    SeedPriceIsFixed(eth, hash);
    BoundariesAre();
    SeedLiquidity0(eth);
    SeedLiquidity1(hash);
    hide GetLiquidityForAmount0, GetLiquidityForAmount1, SqrtPriceX96FromAmounts, BoundaryPrice, SqrtPriceAtTick;
  }
}
