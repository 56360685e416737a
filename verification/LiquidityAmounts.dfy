/** Liquidity for token amounts and back (docs/superpowers/specs/_contract/LiquidityAmounts.sol). */
module LiquidityAmounts {
  import opened FullMath
  import opened Words

  const Q96: Word := 0x1_0000_0000_0000_0000_0000_0000
  const U128_SIZE: nat := 0x1_0000_0000_0000_0000_0000_0000_0000_0000
  const U160_SIZE: nat := 0x1_0000_0000_0000_0000_0000_0000_0000_0000_0000_0000

  /** A uint160 square-root price in Q64.96. */
  type Price = x: nat | x < U160_SIZE

  type Liquidity = x: nat | x < U128_SIZE

  datatype Amounts = Amounts(amount0: Word, amount1: Word)

  function Lower(a: Price, b: Price): Price { if a > b then b else a }

  function Upper(a: Price, b: Price): Price { if a > b then a else b }

  function ToUint128(x: Word): Result<Liquidity>
  {
    if x < U128_SIZE then Return(x) else Revert
  }

  function GetLiquidityForAmount0(a: Price, b: Price, amount0: Word): Result<Liquidity>
  {
    var lo, hi := Lower(a, b), Upper(a, b);
    match MulDivFloor(lo, hi, Q96)
    case Revert => Revert
    case Return(intermediate) =>
      match MulDivFloor(amount0, intermediate, hi - lo)
      case Revert => Revert
      case Return(x) => ToUint128(x)
  }

  function GetLiquidityForAmount1(a: Price, b: Price, amount1: Word): Result<Liquidity>
  {
    var lo, hi := Lower(a, b), Upper(a, b);
    match MulDivFloor(amount1, Q96, hi - lo)
    case Revert => Revert
    case Return(x) => ToUint128(x)
  }

  function GetLiquidityForAmounts(price: Price, a: Price, b: Price, amount0: Word, amount1: Word): Result<Liquidity>
  {
    var lo, hi := Lower(a, b), Upper(a, b);
    if price <= lo then GetLiquidityForAmount0(lo, hi, amount0)
    else if price < hi then
      match GetLiquidityForAmount0(price, hi, amount0)
      case Revert => Revert
      case Return(liquidity0) =>
        match GetLiquidityForAmount1(lo, price, amount1)
        case Revert => Revert
        case Return(liquidity1) => Return(if liquidity0 < liquidity1 then liquidity0 else liquidity1)
    else GetLiquidityForAmount1(lo, hi, amount1)
  }

  /** `liquidity << 96` */
  function Scaled(liquidity: Liquidity): Word
  {
    liquidity * Q96
  }

  function GetAmount0ForLiquidity(a: Price, b: Price, liquidity: Liquidity): Result<Word>
  {
    var lo, hi := Lower(a, b), Upper(a, b);
    match MulDivFloor(Scaled(liquidity), hi - lo, hi)
    case Revert => Revert
    case Return(x) => if lo == 0 then Revert else DivAtMost(x, lo); Return(x / lo)
  }

  function GetAmount1ForLiquidity(a: Price, b: Price, liquidity: Liquidity): Result<Word>
  {
    MulDivFloor(liquidity, Upper(a, b) - Lower(a, b), Q96)
  }

  function GetAmountsForLiquidity(price: Price, a: Price, b: Price, liquidity: Liquidity): Result<Amounts>
  {
    var lo, hi := Lower(a, b), Upper(a, b);
    if price <= lo then
      match GetAmount0ForLiquidity(lo, hi, liquidity)
      case Revert => Revert
      case Return(amount0) => Return(Amounts(amount0, 0))
    else if price < hi then
      match GetAmount0ForLiquidity(price, hi, liquidity)
      case Revert => Revert
      case Return(amount0) =>
        match GetAmount1ForLiquidity(lo, price, liquidity)
        case Revert => Revert
        case Return(amount1) => Return(Amounts(amount0, amount1))
    else
      match GetAmount1ForLiquidity(lo, hi, liquidity)
      case Revert => Revert
      case Return(amount1) => Return(Amounts(0, amount1))
  }

  // ---- the round trip, one token at a time ----

  /** floor(n / d) * d <= n. */
  lemma FloorTimes(n: nat, d: nat)
    requires d > 0
    ensures n / d * d <= n
  {
    FloorIff(n, d, n / d);
  }

  lemma FloorAtMost(n: nat, d: nat, bound: nat)
    requires d > 0 && n <= bound * d
    ensures n / d <= bound
  {
    FloorIff(n, d, bound + 1);
    MulDistributes(bound, 1, d);
  }

  /** With i at most lo * hi / q and l at most x * i / (hi - lo), the amount l is worth is at most x. */
  lemma Amount0AtMost(lo: nat, hi: nat, q: nat, x: nat, i: nat, l: nat)
    requires 0 < lo <= hi && i * q <= lo * hi && l * (hi - lo) <= x * i
    ensures l * q * (hi - lo) / hi / lo <= x
  {
    var gap := hi - lo;
    MulAssociates(l, q, gap);
    MulMonotone(l * gap, x * i, q);
    MulAssociates(x, i, q);
    MulMonotone(i * q, lo * hi, x);
    MulAssociates(x, lo, hi);
    FloorAtMost(l * q * gap, hi, x * lo);
    FloorAtMost(l * q * gap / hi, lo, x);
  }

  lemma Amount1AtMost(gap: nat, q: nat, y: nat, l: nat)
    requires q > 0 && l * gap <= y * q
    ensures l * gap / q <= y
  {
    FloorAtMost(l * gap, q, y);
  }

  lemma Liquidity0Bound(lo: Price, hi: Price, amount0: Word, l: Liquidity)
    requires lo <= hi && GetLiquidityForAmount0(lo, hi, amount0).Return?
    requires l <= GetLiquidityForAmount0(lo, hi, amount0).value
    ensures lo < hi && lo * hi / Q96 < W && l * (hi - lo) <= amount0 * (lo * hi / Q96)
  {
    FloorIs(lo, hi, Q96);
    var i := MulDivFloor(lo, hi, Q96).value;
    FloorIs(amount0, i, hi - lo);
    var liquidity := GetLiquidityForAmount0(lo, hi, amount0).value;
    hide MulDivFloor, W;
    FloorTimes(amount0 * i, hi - lo);
    MulMonotone(l, liquidity, hi - lo);
  }

  lemma Liquidity1Bound(lo: Price, hi: Price, amount1: Word, l: Liquidity)
    requires lo <= hi && GetLiquidityForAmount1(lo, hi, amount1).Return?
    requires l <= GetLiquidityForAmount1(lo, hi, amount1).value
    ensures lo < hi && l * (hi - lo) <= amount1 * Q96
  {
    FloorIs(amount1, Q96, hi - lo);
    var liquidity := GetLiquidityForAmount1(lo, hi, amount1).value;
    hide MulDivFloor, W;
    FloorTimes(amount1 * Q96, hi - lo);
    MulMonotone(l, liquidity, hi - lo);
  }

  // ---- the liquidity of amounts, exactly ----

  /** A quotient, if there is one and it fits in 128 bits. */
  function Fitted(n: int, d: int): Result<int>
  {
    if d > 0 && n / d < 0x1_0000_0000_0000_0000_0000_0000_0000_0000 then Return(n / d) else Revert
  }

  /** The product of two prices over 2^96, rounded down: what token 0 is worth per price gap. */
  function Depth(lo: nat, hi: nat): int
  {
    lo * hi / 0x1_0000_0000_0000_0000_0000_0000
  }

  lemma DepthFits(lo: Price, hi: Price)
    ensures MulDivFloor(lo, hi, Q96) == Return(Depth(lo, hi))
  {
    MulMonotone(lo, U160_SIZE, hi);
    MulMonotone(hi, U160_SIZE, U160_SIZE);
    FloorAtMost(lo * hi, Q96, U160_SIZE * 0x1_0000_0000_0000_0000);
    FitsIff(lo, hi, Q96);
    FloorIs(lo, hi, Q96);
    hide MulDivFloor;
  }

  /** Token 0 between two prices is worth x * floor(lo * hi / 2^96) / (hi - lo) of liquidity, and reverts only
      for equal prices or when that does not fit. */
  lemma Liquidity0Is(lo: Price, hi: Price, x: Word)
    requires lo <= hi
    ensures GetLiquidityForAmount0(lo, hi, x) == Fitted(x * Depth(lo, hi), hi - lo)
    ensures GetLiquidityForAmount0(hi, lo, x) == GetLiquidityForAmount0(lo, hi, x)
  {
    DepthFits(lo, hi);
    var i := MulDivFloor(lo, hi, Q96).value;
    FitsIff(x, i, hi - lo);
    FloorIs(x, i, hi - lo);
    hide MulDivFloor, Depth;
  }

  /** Token 1 between two prices is worth y * 2^96 / (hi - lo) of liquidity. */
  lemma Liquidity1Is(lo: Price, hi: Price, y: Word)
    requires lo <= hi
    ensures GetLiquidityForAmount1(lo, hi, y) == Fitted(y * 0x1_0000_0000_0000_0000_0000_0000, hi - lo)
    ensures GetLiquidityForAmount1(hi, lo, y) == GetLiquidityForAmount1(lo, hi, y)
  {
    FitsIff(y, Q96, hi - lo);
    FloorIs(y, Q96, hi - lo);
    hide MulDivFloor;
  }

  /** The liquidity in each price region: what token 0 allows at or below the lower boundary, what token 1
      allows at or above the upper one, and between them the smaller of the two, taken up to the price. */
  lemma LiquidityIs(price: Price, a: Price, b: Price, x: Word, y: Word)
    requires a <= b
    ensures GetLiquidityForAmounts(price, b, a, x, y) == GetLiquidityForAmounts(price, a, b, x, y)
    ensures price <= a ==> GetLiquidityForAmounts(price, a, b, x, y) == Fitted(x * Depth(a, b), b - a)
    ensures a < price < b ==>
      var of0, of1 := Fitted(x * Depth(price, b), b - price), Fitted(y * 0x1_0000_0000_0000_0000_0000_0000, price - a);
      GetLiquidityForAmounts(price, a, b, x, y) ==
      if of0.Return? && of1.Return? then (if of0.value <= of1.value then of0 else of1) else Revert
    ensures a < price && b <= price ==>
      GetLiquidityForAmounts(price, a, b, x, y) == Fitted(y * 0x1_0000_0000_0000_0000_0000_0000, b - a)
  {
    hide GetLiquidityForAmount0, GetLiquidityForAmount1, Depth, Fitted;
    if price <= a {
      Liquidity0Is(a, b, x);
    } else if price < b {
      Liquidity0Is(price, b, x);
      Liquidity1Is(a, price, y);
    } else {
      Liquidity1Is(a, b, y);
    }
  }

  /** x of token 0 covers this liquidity between two prices, up to the rounding of the depth. */
  ghost predicate Covers0(lo: Price, hi: Price, x: Word, l: int)
  {
    l * (hi - lo) <= x * Depth(lo, hi)
  }

  /** y of token 1 covers this liquidity between two prices. */
  ghost predicate Covers1(lo: Price, hi: Price, y: Word, l: int)
  {
    l * (hi - lo) <= y * 0x1_0000_0000_0000_0000_0000_0000
  }

  lemma FittedIsLargest(n: nat, d: int)
    requires Fitted(n, d).Return?
    ensures var l := Fitted(n, d).value; 0 <= l && l * d <= n < (l + 1) * d
    ensures forall k: nat :: k * d <= n <==> k <= Fitted(n, d).value
  {
    FloorIff(n, d, 0);
    FloorIff(n, d, n / d);
    FloorIff(n, d, n / d + 1);
    forall k: nat ensures k * d <= n <==> k <= Fitted(n, d).value {
      FloorIff(n, d, k);
    }
  }

  /** The liquidity is the largest that the amounts cover: the next one is too much for token 0 below the
      range, for token 1 above it, and for one of them inside it. */
  lemma LiquidityIsLargest(price: Price, a: Price, b: Price, x: Word, y: Word, l: nat)
    requires a <= b && GetLiquidityForAmounts(price, a, b, x, y).Return?
    ensures l <= GetLiquidityForAmounts(price, a, b, x, y).value <==>
      if price <= a then Covers0(a, b, x, l)
      else if price < b then Covers0(price, b, x, l) && Covers1(a, price, y, l)
      else Covers1(a, b, y, l)
  {
    LiquidityIs(price, a, b, x, y);
    hide GetLiquidityForAmounts, Depth, Fitted;
    ProductOfDepth(x, a, b);
    ProductOfDepth(x, price, b);
    if price <= a {
      FittedIsLargest(x * Depth(a, b), b - a);
    } else if price < b {
      FittedIsLargest(x * Depth(price, b), b - price);
      FittedIsLargest(y * 0x1_0000_0000_0000_0000_0000_0000, price - a);
    } else {
      FittedIsLargest(y * 0x1_0000_0000_0000_0000_0000_0000, b - a);
    }
  }

  lemma ProductOfDepth(x: nat, lo: Price, hi: Price)
    ensures 0 <= x * Depth(lo, hi)
  {
    MulMonotone(0, hi, lo);
    MulMonotone(0, Depth(lo, hi), x);
  }

  // ---- valuing liquidity ----

  /** Valuing liquidity in token 0 fails only for a lower price of zero. */
  lemma Amount0Value(lo: Price, hi: Price, l: Liquidity)
    requires lo <= hi && hi > 0
    ensures GetAmount0ForLiquidity(lo, hi, l).Return? <==> lo > 0
    ensures lo > 0 ==> GetAmount0ForLiquidity(lo, hi, l).value == l * Q96 * (hi - lo) / hi / lo
  {
    FitsIff(Scaled(l), hi - lo, hi);
    FloorIs(Scaled(l), hi - lo, hi);
    assert Scaled(l) == l * Q96;
    hide MulDivFloor, Q96;
    MulMonotone(hi - lo, hi, Scaled(l));
    FloorAtMost(Scaled(l) * (hi - lo), hi, Scaled(l));
  }

  lemma Amount1Value(lo: Price, hi: Price, l: Liquidity)
    requires lo <= hi
    ensures GetAmount1ForLiquidity(lo, hi, l) == Return(l * (hi - lo) / Q96)
  {
    FitsIff(l, hi - lo, Q96);
    FloorIs(l, hi - lo, Q96);
    Amount1Fits(l, hi - lo);
    hide MulDivFloor;
  }

  lemma Amount1Fits(l: Liquidity, gap: nat)
    requires gap < U160_SIZE
    ensures l * gap / Q96 < W
  {
    MulMonotone(gap, U160_SIZE, l);
    FloorAtMost(l * gap, Q96, l * 0x1_0000_0000_0000_0000);
  }

  lemma Amount0RoundTrip(lo: Price, hi: Price, x: Word, l: Liquidity)
    requires 0 < lo <= hi && GetLiquidityForAmount0(lo, hi, x).Return?
    requires l <= GetLiquidityForAmount0(lo, hi, x).value
    ensures GetAmount0ForLiquidity(lo, hi, l).Return? && GetAmount0ForLiquidity(lo, hi, l).value <= x
  {
    Liquidity0Bound(lo, hi, x, l);
    Amount0Value(lo, hi, l);
    FloorTimes(lo * hi, Q96);
    hide Q96, W, GetLiquidityForAmount0, GetAmount0ForLiquidity;
    Amount0AtMost(lo, hi, Q96, x, lo * hi / Q96, l);
  }

  lemma Amount1RoundTrip(lo: Price, hi: Price, y: Word, l: Liquidity)
    requires lo <= hi && GetLiquidityForAmount1(lo, hi, y).Return?
    requires l <= GetLiquidityForAmount1(lo, hi, y).value
    ensures GetAmount1ForLiquidity(lo, hi, l).Return? && GetAmount1ForLiquidity(lo, hi, l).value <= y
  {
    Liquidity1Bound(lo, hi, y, l);
    Amount1Value(lo, hi, l);
    assert Q96 > 0;
    hide Q96, W, GetLiquidityForAmount1, GetAmount1ForLiquidity;
    Amount1AtMost(hi - lo, Q96, y, l);
  }

  // ---- the round trip ----

  /** Liquidity has a value in every price region unless both the price and the smaller boundary are 0,
      where the valuation divides by zero. */
  lemma AmountsReturnIff(price: Price, a: Price, b: Price, l: Liquidity)
    ensures GetAmountsForLiquidity(price, a, b, l).Return? <==> price > 0 || Lower(a, b) > 0
  {
    var lo, hi := Lower(a, b), Upper(a, b);
    if price <= lo {
      if hi > 0 {
        Amount0Value(lo, hi, l);
      } else {
        FloorIs(Scaled(l), 0, 0);
      }
    } else if price < hi {
      Amount0Value(price, hi, l);
      Amount1Value(lo, price, l);
    } else {
      Amount1Value(lo, hi, l);
    }
    hide GetAmount0ForLiquidity, GetAmount1ForLiquidity;
  }

  /** What liquidity is worth in each price region: token 0 alone at or below the lower boundary, token 1
      alone at or above the upper one, and between them both, split at the price. */
  lemma AmountsAre(price: Price, a: Price, b: Price, l: Liquidity)
    requires a <= b && (price > 0 || a > 0)
    ensures GetAmountsForLiquidity(price, b, a, l) == GetAmountsForLiquidity(price, a, b, l)
    ensures GetAmountsForLiquidity(price, a, b, l).Return?
    ensures var r := GetAmountsForLiquidity(price, a, b, l).value;
      var q := 0x1_0000_0000_0000_0000_0000_0000;
      && (price <= a ==> r.amount0 == l * q * (b - a) / b / a && r.amount1 == 0)
      && (a < price < b ==> r.amount0 == l * q * (b - price) / b / price && r.amount1 == l * (price - a) / q)
      && (a < price && b <= price ==> r.amount0 == 0 && r.amount1 == l * (b - a) / q)
  {
    AmountsReturnIff(price, a, b, l);
    if price <= a {
      Amount0Value(a, b, l);
    } else if price < b {
      Amount0Value(price, b, l);
      Amount1Value(a, price, l);
    } else {
      Amount1Value(a, b, l);
    }
    hide GetAmount0ForLiquidity, GetAmount1ForLiquidity;
  }

  /** Turning amounts into liquidity and back never overspends either token, in all three price regions
      and for either order of the boundaries. */
  lemma RoundTripNeverOverspends(price: Price, a: Price, b: Price, x: Word, y: Word)
    requires price > 0 || Lower(a, b) > 0
    requires GetLiquidityForAmounts(price, a, b, x, y).Return?
    ensures var amounts := GetAmountsForLiquidity(price, a, b, GetLiquidityForAmounts(price, a, b, x, y).value);
      amounts.Return? && amounts.value.amount0 <= x && amounts.value.amount1 <= y
  {
    var lo, hi := Lower(a, b), Upper(a, b);
    var l := GetLiquidityForAmounts(price, a, b, x, y).value;
    hide GetLiquidityForAmount0, GetLiquidityForAmount1, GetAmount0ForLiquidity, GetAmount1ForLiquidity, W;
    if price <= lo {
      Amount0RoundTrip(lo, hi, x, l);
    } else if price < hi {
      Amount0RoundTrip(price, hi, x, l);
      Amount1RoundTrip(lo, price, y, l);
    } else {
      Amount1RoundTrip(lo, hi, y, l);
    }
  }

  /** The excluded case is reachable: at price 0 with a boundary at 0 the amounts become liquidity that
      has no valuation. */
  lemma RoundTripFailsAtZero()
    ensures GetLiquidityForAmounts(0, 0, 1, 1, 1) == Return(0)
    ensures GetAmountsForLiquidity(0, 0, 1, 0) == Revert
  {
    AmountsReturnIff(0, 0, 1, 0);
  }
}
