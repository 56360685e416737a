/** Every tick raises the square-root price by the same factor, near enough: the twenty ratios of the table
    (docs/superpowers/specs/_contract/TickMath.sol) fit together on all 1,774,545 ticks. */
module TickOrder {
  import opened TickMath
  import opened Words

  /** y is x less one part in 20000 to 20001 of y, give or take n. */
  ghost predicate Steps(x: int, y: int, n: int)
  {
    20_000 * (x - y - n) <= y <= 20_001 * (x - y + n)
  }

  /** x / y is sqrt(1.0001) = 1 + 1 / 20000.4999875..., to ten digits of the denominator, give or take n. */
  ghost predicate StepsFine(x: int, y: int, n: int)
  {
    20_000_499_987 * (x - y - 2 * n) <= 1_000_000 * y <= 20_000_499_988 * (x - y + n)
  }

  /** The same without roundings, in a slightly wider margin. */
  ghost predicate StepsNear(x: int, y: int)
  {
    20_000_499_986 * (x - y) <= 1_000_000 * y <= 20_000_499_989 * (x - y)
  }

  // ---- a tick and the next one differ in a zero over ones ----

  lemma {:induction false} SameLowPrice(a: nat, b: nat, n: nat)
    requires n <= 20 && a % Pow2(n) == b % Pow2(n)
    ensures PriceAfter(a, n) == PriceAfter(b, n)
  {
    if n > 0 {
      hide Ratio, Scaled, HasBit;
      LowResidue(a, b, n);
      SameLowPrice(a, b, n - 1);
    }
  }

  lemma LowResidue(a: nat, b: nat, n: nat)
    requires n > 0 && a % Pow2(n) == b % Pow2(n)
    ensures a % Pow2(n - 1) == b % Pow2(n - 1) && HasBit(a, n - 1) == HasBit(b, n - 1)
  {
    TopBit(a, Pow2(n - 1));
    TopBit(b, Pow2(n - 1));
  }

  /** x mod 2p, in terms of x mod p and the bit above. */
  lemma TopBit(x: nat, p: nat)
    requires p > 0
    ensures x % (2 * p) == x / p % 2 * p + x % p
  {
    var q := x / p;
    assert x == q * p + x % p;
    TopBitOf(x, q / 2, q % 2, x % p, p);
  }

  lemma TopBitOf(x: nat, h: nat, b: nat, r: nat, p: nat)
    requires b < 2 && r < p && x == (2 * h + b) * p + r
    ensures x % (2 * p) == b * p + r
  {
    MulDistributes(2 * h, b, p);
    MulAssociates(h, 2, p);
    MulMonotone(b, 1, p);
    DivModOf(x, h, b * p + r, 2 * p);
  }

  /** What the ones below k leave of 2^128. */
  function Ones(k: nat): nat
    requires k <= 20
  {
    if k == 0 then 0x1_0000_0000_0000_0000_0000_0000_0000_0000 else Scaled(Ones(k - 1), Ratio(k - 1))
  }

  lemma {:induction false} OnesBelow(k: nat)
    requires k <= 20
    ensures PriceAfter(Pow2(k) - 1, k) == Ones(k)
  {
    hide *;
    if k > 0 {
      var p := Pow2(k - 1);
      PowerStep(k);
      OnesBelow(k - 1);
      OnesDigits(p);
      SameLowPrice(2 * p - 1, p - 1, k - 1);
      NextBit(2 * p - 1, k - 1, p);
      OnesStep(k);
    } else {
      NoBits();
    }
  }

  lemma NoBits()
    ensures Pow2(0) == 1 && Ones(0) == PriceAfter(0, 0)
  {
  }

  lemma PowerStep(k: nat)
    requires k > 0
    ensures Pow2(k) == 2 * Pow2(k - 1)
  {
  }

  lemma OnesDigits(p: nat)
    requires p > 0
    ensures (2 * p - 1) % p == (p - 1) % p && (2 * p - 1) / p == 1
  {
    DivModOf(2 * p - 1, 1, p - 1, p);
    DivModOf(p - 1, 0, p - 1, p);
  }

  lemma NextBit(x: nat, i: nat, p: nat)
    requires i < 20 && p == Pow2(i)
    ensures PriceAfter(x, i + 1) == if x / p % 2 == 1 then Scaled(PriceAfter(x, i), Ratio(i)) else PriceAfter(x, i)
  {
    hide Ratio, Scaled, Pow2, PriceAfter;
    NextPrice(x, i);
  }

  lemma OnesStep(k: nat)
    requires 0 < k <= 20
    ensures Ones(k) == Scaled(Ones(k - 1), Ratio(k - 1))
  {
    hide Ratio, Scaled;
  }

  lemma {:induction false} ZerosBelow(k: nat)
    requires k <= 20
    ensures PriceAfter(0, k) == 0x1_0000_0000_0000_0000_0000_0000_0000_0000
  {
    if k > 0 {
      hide Ratio, Scaled;
      ZerosBelow(k - 1);
      DivModOf(0, 0, 0, Pow2(k - 1));
    }
  }

  /** Around the carry: below bit k the tick has ones and the next one zeros, and in bit k the other way
      around. */
  lemma AtTheCarry(a: nat, k: nat)
    requires k < 20 && a % Pow2(k + 1) == Pow2(k) - 1
    ensures PriceAfter(a, k + 1) == Ones(k) && PriceAfter(a + 1, k + 1) == Ratio(k)
  {
    hide *;
    var p := Pow2(k);
    PowerStep(k + 1);
    CarryDigits(a, p);
    OnesBelow(k);
    ZerosBelow(k);
    DivModOf(0, 0, 0, p);
    DivModOf(p - 1, 0, p - 1, p);
    SameLowPrice(a, p - 1, k);
    SameLowPrice(a + 1, 0, k);
    NextBit(a, k, p);
    NextBit(a + 1, k, p);
    UnitTimes(Ratio(k));
  }

  lemma UnitTimes(c: nat)
    ensures Scaled(0x1_0000_0000_0000_0000_0000_0000_0000_0000, c) == c
  {
    ScaledOne(c);
  }

  lemma CarryDigits(a: nat, p: nat)
    requires p > 0 && a % (2 * p) == p - 1
    ensures a % p == p - 1 && a / p % 2 == 0 && (a + 1) % p == 0 && (a + 1) / p % 2 == 1
  {
    var q := a / (2 * p);
    assert a == q * (2 * p) + (p - 1);
    MulAssociates(q, 2, p);
    DivModOf(a, q * 2, p - 1, p);
    MulDistributes(q * 2, 1, p);
    DivModOf(a + 1, q * 2 + 1, 0, p);
  }

  /** Above the carry the bits are the same. */
  lemma AboveTheCarry(a: nat, k: nat, i: nat)
    requires k < i && a % Pow2(k + 1) == Pow2(k) - 1
    ensures HasBit(a, i) == HasBit(a + 1, i)
  {
    Pow2Add(k + 1, i - k - 1);
    var p, r := Pow2(k + 1), Pow2(i - k - 1);
    var q := a / p;
    assert a == q * p + (Pow2(k) - 1);
    hide Pow2;
    DivModOf(a + 1, q, Pow2(k), p) by { HalfPower(k); }
    QuotientOfQuotient(a, p, r);
    QuotientOfQuotient(a + 1, p, r);
  }

  lemma HalfPower(k: nat)
    ensures Pow2(k) < Pow2(k + 1)
  {
  }

  lemma QuotientOfQuotient(x: nat, p: nat, r: nat)
    requires p > 0 && r > 0
    ensures p * r > 0 && x / (p * r) == x / p / r
  {
    var q, s := x / p / r, x / p % r;
    MulMonotone(1, p, r);
    assert x / p == q * r + s;
    assert x == x / p * p + x % p;
    MulDistributes(q * r, s, p);
    MulAssociates(q, r, p);
    MulMonotone(s + 1, r, p);
    MulDistributes(s, 1, p);
    DivModOf(x, q, s * p + x % p, r * p);
  }

  // ---- the table fits together ----

  lemma FirstOnes()
    ensures Ones(0) == 0x100000000000000000000000000000000
    ensures Ones(1) == 0xfffcb933bd6fad37aa2d162d1a594001
    ensures Ones(2) == 0xfff62bbb6d458ec3c792106391dc463e
    ensures Ones(3) == 0xffe9114b9cf28d394c3203dbd44eb085
    ensures Ones(4) == 0xffcede6f1d8be90b88f350424e84e5b7
    ensures Ones(5) == 0xff9a80c1ada7480b1daa871d7c4d9b36
    ensures Ones(6) == 0xff31e58d5a53c84fc142023ec1b1dfd7
    ensures Ones(7) == 0xfe612f8183b1ea21b72fb71b03542ae4
    ensures Ones(8) == 0xfcc1c2f380536bc67ee1ff564d1080b2
    ensures Ones(9) == 0xf98ad8c8d7ecc0a3f8a42c9724cffb6a
    ensures Ones(10) == 0xf33c480189b415235ad119427d89a1f6
  {
    NextOnes(0, 0x100000000000000000000000000000000, 0xfffcb933bd6fad37aa2d162d1a594001);
    NextOnes(1, 0xfffcb933bd6fad37aa2d162d1a594001, 0xfff62bbb6d458ec3c792106391dc463e);
    NextOnes(2, 0xfff62bbb6d458ec3c792106391dc463e, 0xffe9114b9cf28d394c3203dbd44eb085);
    NextOnes(3, 0xffe9114b9cf28d394c3203dbd44eb085, 0xffcede6f1d8be90b88f350424e84e5b7);
    NextOnes(4, 0xffcede6f1d8be90b88f350424e84e5b7, 0xff9a80c1ada7480b1daa871d7c4d9b36);
    NextOnes(5, 0xff9a80c1ada7480b1daa871d7c4d9b36, 0xff31e58d5a53c84fc142023ec1b1dfd7);
    NextOnes(6, 0xff31e58d5a53c84fc142023ec1b1dfd7, 0xfe612f8183b1ea21b72fb71b03542ae4);
    NextOnes(7, 0xfe612f8183b1ea21b72fb71b03542ae4, 0xfcc1c2f380536bc67ee1ff564d1080b2);
    NextOnes(8, 0xfcc1c2f380536bc67ee1ff564d1080b2, 0xf98ad8c8d7ecc0a3f8a42c9724cffb6a);
    NextOnes(9, 0xf98ad8c8d7ecc0a3f8a42c9724cffb6a, 0xf33c480189b415235ad119427d89a1f6);
  }

  lemma LastOnes()
    requires Ones(10) == 0xf33c480189b415235ad119427d89a1f6
    ensures Ones(11) == 0xe71889a85903fd03cb7cc40bdf371a9c
    ensures Ones(12) == 0xd09a9f3e93db5812d4820c2fc67a3e3a
    ensures Ones(13) == 0xa9f973345b9e647c4163af91d00b255f
    ensures Ones(14) == 0x70d9db6485f04ddd567e07c7b89f8e7c
    ensures Ones(15) == 0x31beb65d91af63ae717a760be3b374dc
    ensures Ones(16) == 0x9aa7036fd2355429c4030b032e1cf71
    ensures Ones(17) == 0x5d6c2af97aaa8de0e5a6bf23f5e547
    ensures Ones(18) == 0x221755388a6658e120f4a3c503cf
    ensures Ones(19) == 0x48a25e36942a4fc0c1f899f
  {
    NextOnes(10, 0xf33c480189b415235ad119427d89a1f6, 0xe71889a85903fd03cb7cc40bdf371a9c);
    NextOnes(11, 0xe71889a85903fd03cb7cc40bdf371a9c, 0xd09a9f3e93db5812d4820c2fc67a3e3a);
    NextOnes(12, 0xd09a9f3e93db5812d4820c2fc67a3e3a, 0xa9f973345b9e647c4163af91d00b255f);
    NextOnes(13, 0xa9f973345b9e647c4163af91d00b255f, 0x70d9db6485f04ddd567e07c7b89f8e7c);
    NextOnes(14, 0x70d9db6485f04ddd567e07c7b89f8e7c, 0x31beb65d91af63ae717a760be3b374dc);
    NextOnes(15, 0x31beb65d91af63ae717a760be3b374dc, 0x9aa7036fd2355429c4030b032e1cf71);
    NextOnes(16, 0x9aa7036fd2355429c4030b032e1cf71, 0x5d6c2af97aaa8de0e5a6bf23f5e547);
    NextOnes(17, 0x5d6c2af97aaa8de0e5a6bf23f5e547, 0x221755388a6658e120f4a3c503cf);
    NextOnes(18, 0x221755388a6658e120f4a3c503cf, 0x48a25e36942a4fc0c1f899f);
  }

  lemma NextOnes(k: nat, x: nat, y: nat)
    requires k < 20 && Ones(k) == x && y == x * Ratio(k) / 0x1_0000_0000_0000_0000_0000_0000_0000_0000
    ensures Ones(k + 1) == y
  {
    hide Ratio;
  }

  /** For each of the twenty carries, the ones and the bit above them differ by a tick. */
  lemma CarrySteps(k: nat)
    requires k < 20
    ensures StepsFine(Ones(k), Ratio(k), 0)
  {
    hide Ones;
    FirstOnes();
    LastOnes();
  }

  // ---- every further bit keeps the step, up to a rounding ----

  lemma ScaledSteps(x: nat, y: nat, ratio: nat, n: nat)
    requires StepsFine(x, y, n) && ratio < Q128
    ensures StepsFine(Scaled(x, ratio), Scaled(y, ratio), n + 1)
  {
    ScaledFloor(x, ratio);
    ScaledFloor(y, ratio);
    hide Scaled, Q128;
    KeepsStep(x, y, ratio, n, Q128, Scaled(x, ratio), Scaled(y, ratio));
  }

  lemma ScaledFloor(x: nat, ratio: nat)
    ensures Scaled(x, ratio) * Q128 <= x * ratio < (Scaled(x, ratio) + 1) * Q128
  {
    FloorIff(x * ratio, Q128, Scaled(x, ratio));
    FloorIff(x * ratio, Q128, Scaled(x, ratio) + 1);
  }

  lemma KeepsStep(x: nat, y: nat, ratio: nat, n: nat, d: nat, u: nat, v: nat)
    requires StepsFine(x, y, n) && ratio < d
    requires u * d <= x * ratio < (u + 1) * d && v * d <= y * ratio < (v + 1) * d
    ensures StepsFine(u, v, n + 1)
  {
    TimesRatio(x, y, n, ratio);
    MulMonotone(ratio, d, n);
    NextMultiple(u, d);
    NextMultiple(v, d);
    KeepsLower(x * ratio, y * ratio, n * ratio, n, d, u, v);
    KeepsUpper(x * ratio, y * ratio, n * ratio, n, d, u, v);
  }

  lemma NextMultiple(u: int, d: int)
    ensures (u + 1) * d == u * d + d
  {
  }

  lemma KeepsLower(xr: int, yr: int, nr: int, n: int, d: nat, u: int, v: int)
    requires 1_000_000 * yr <= 20_000_499_988 * (xr - yr + nr) && nr <= n * d
    requires xr < u * d + d && v * d <= yr
    ensures 1_000_000 * v <= 20_000_499_988 * (u - v + n + 1)
  {
    LowerTimes(u, v, n + 1, d);
    NextMultiple(n, d);
    CancelFactor(1_000_000 * v, 20_000_499_988 * (u - v + n + 1), d);
  }

  lemma KeepsUpper(xr: int, yr: int, nr: int, n: int, d: nat, u: int, v: int)
    requires 20_000_499_987 * (xr - yr - 2 * nr) <= 1_000_000 * yr && nr <= n * d
    requires u * d <= xr && yr < v * d + d
    ensures 20_000_499_987 * (u - v - 2 * (n + 1)) <= 1_000_000 * v
  {
    UpperTimes(u, v, n + 1, d);
    NextMultiple(n, d);
    CancelFactor(20_000_499_987 * (u - v - 2 * (n + 1)), 1_000_000 * v, d);
  }

  lemma LowerTimes(u: int, v: int, n: int, d: int)
    ensures 1_000_000 * v * d == 1_000_000 * (v * d)
    ensures 20_000_499_988 * (u - v + n) * d == 20_000_499_988 * (u * d - v * d + n * d)
  {
    MulAssociates(1_000_000, v, d);
    MulAssociates(20_000_499_988, u - v + n, d);
    MulDistributes(u, v, d);
    MulDistributes(u - v, n, d);
  }

  lemma UpperTimes(u: int, v: int, n: int, d: int)
    ensures 1_000_000 * v * d == 1_000_000 * (v * d)
    ensures 20_000_499_987 * (u - v - 2 * n) * d == 20_000_499_987 * (u * d - v * d - 2 * (n * d))
  {
    MulAssociates(1_000_000, v, d);
    MulAssociates(20_000_499_987, u - v - 2 * n, d);
    MulDistributes(u, v, d);
    MulAssociates(2, n, d);
    MulDistributes(u - v, 2 * n, d);
  }

  lemma TimesRatio(x: nat, y: nat, n: nat, ratio: nat)
    requires StepsFine(x, y, n)
    ensures 20_000_499_987 * (x * ratio - y * ratio - 2 * (n * ratio)) <= 1_000_000 * (y * ratio)
    ensures 1_000_000 * (y * ratio) <= 20_000_499_988 * (x * ratio - y * ratio + n * ratio)
  {
    LowerTimes(x, y, n, ratio);
    UpperTimes(x, y, n, ratio);
    Scale(20_000_499_987 * (x - y - 2 * n), 1_000_000 * y, ratio);
    Scale(1_000_000 * y, 20_000_499_988 * (x - y + n), ratio);
  }

  lemma Scale(a: int, b: int, c: nat)
    requires a <= b
    ensures a * c <= b * c
  {
    MulSign(b - a, c);
  }

  /** a <= b from a * d < (b + 1) * d. */
  lemma CancelFactor(a: int, b: int, d: nat)
    requires a * d < b * d + d
    ensures a <= b
  {
    MulSign(a - b, d);
  }

  // ---- a tick's step at 2^128, on all twenty bits ----

  /** Ticks below 2^20 - 1 end in a zero over k ones for some k below 20. */
  lemma {:induction false} CarryPlace(a: nat, n: nat) returns (k: nat)
    requires a % Pow2(n) != Pow2(n) - 1
    ensures k < n && a % Pow2(k + 1) == Pow2(k) - 1
    decreases n
  {
    hide *;
    if n == 0 {
      k := 0;
      NoBits();
      DivModOf(a, a, 0, 1);
    } else {
      var p := Pow2(n - 1);
      PowerStep(n);
      if a % p == p - 1 {
        k := n - 1;
        TopBit(a, p);
        assert a / p % 2 * p == (if a / p % 2 == 0 then 0 else p);
      } else {
        k := CarryPlace(a, n - 1);
      }
    }
  }

  lemma {:induction false} BitsKeepStep(a: nat, k: nat, n: nat)
    requires k < n <= 20 && a % Pow2(k + 1) == Pow2(k) - 1
    ensures StepsFine(PriceAfter(a, n), PriceAfter(a + 1, n), n - k - 1)
    decreases n
  {
    hide *;
    if n == k + 1 {
      AtTheCarry(a, k);
      CarrySteps(k);
    } else {
      BitsKeepStep(a, k, n - 1);
      AboveTheCarry(a, k, n - 1);
      NextPrice(a, n - 1);
      NextPrice(a + 1, n - 1);
      var x, y := PriceAfter(a, n - 1), PriceAfter(a + 1, n - 1);
      ScaledSteps(x, y, Ratio(n - 1), n - 1 - k - 1);
      MoreRoom(x, y, n - 1 - k - 1);
    }
  }

  lemma MoreRoom(x: int, y: int, n: int)
    requires StepsFine(x, y, n)
    ensures StepsFine(x, y, n + 1)
  {
  }

  /** The next tick's value before the shift is smaller by one part in 20000 to 20001. */
  lemma {:induction false} TickStep(a: nat)
    requires a < 887_272
    ensures var x, y := PriceAfter(a, 20), PriceAfter(a + 1, 20);
      StepsNear(x, y) && Steps(x, y, 0) && x > y >= PriceAfter(887_272, 20)
    decreases 887_272 - a
  {
    hide *;
    TwentyBits(a);
    var k := CarryPlace(a, 20);
    BitsKeepStep(a, k, 20);
    var x, y := PriceAfter(a, 20), PriceAfter(a + 1, 20);
    if a + 1 < 887_272 {
      TickStep(a + 1);
    }
    LowestPrice();
    Clean(x, y, 20 - k - 1);
  }

  lemma TwentyBits(a: nat)
    requires a < 887_272
    ensures a % Pow2(20) != Pow2(20) - 1
  {
    HighPowers();
    assert Pow2(20) == 2 * Pow2(19);
    hide Pow2;
    DivModOf(a, 0, a, Pow2(20));
  }

  /** The value at the largest tick is above 2^64. */
  lemma LowestPrice()
    ensures PriceAfter(887_272, 20) > 0x1_0000_0000_0000_0000
  {
    hide PriceAfter;
    PriceAtExtreme(887_272);
  }

  /** On numbers this large the roundings disappear in the margin. */
  lemma Clean(x: int, y: int, n: nat)
    requires StepsFine(x, y, n) && n <= 20 && y > 0x1_0000_0000_0000_0000
    ensures StepsNear(x, y) && Steps(x, y, 0) && x > y
  {
  }

  // ---- inversion and the shift ----

  lemma InverseSteps(x: nat, y: nat, w: nat, u: nat, v: nat)
    requires y > 0 && Steps(x, y, 0)
    requires u * x <= w < (u + 1) * x && v * y <= w < (v + 1) * y
    ensures Steps(v, u, 2)
  {
    MulDistributes(u, 1, x);
    MulDistributes(v, 1, y);
    InverseLower(x, y, u, v);
    InverseUpper(x, y, u, v);
  }

  lemma InverseLower(x: nat, y: nat, u: nat, v: nat)
    requires y > 0 && y <= 20_001 * (x - y) && u * x < v * y + y
    ensures u <= 20_001 * (v - u + 2)
  {
    Scale(y, 20_001 * (x - y), u);
    MulAssociates(20_001, x - y, u);
    MulDistributes(x, y, u);
    MulDistributes(v - u, 1, y);
    MulDistributes(v, u, y);
    MulAssociates(20_001, v - u + 1, y);
    CancelFactor(u, 20_001 * (v - u + 1), y);
  }

  lemma InverseUpper(x: nat, y: nat, u: nat, v: nat)
    requires y > 0 && 20_000 * (x - y) <= y && v * y < u * x + x
    ensures 20_000 * (v - u - 2) <= u
  {
    Scale(20_000 * (x - y), y, u + 1);
    MulAssociates(20_000, x - y, u + 1);
    MulDistributes(x, y, u + 1);
    MulDistributes(u, 1, x);
    MulDistributes(u, 1, y);
    MulDistributes(v - u, 1, y);
    MulDistributes(v, u, y);
    MulAssociates(20_000, v - u - 1, y);
    CancelFactor(20_000 * (v - u - 1), u + 1, y);
  }

  /** Division by 2^32, rounding up, keeps a step. */
  lemma RoundedUpSteps(x: nat, y: nat)
    requires Steps(x, y, 2)
    ensures Steps((x + 0xffff_ffff) / 0x1_0000_0000, (y + 0xffff_ffff) / 0x1_0000_0000, 2)
  {
    var u, v := (x + 0xffff_ffff) / 0x1_0000_0000, (y + 0xffff_ffff) / 0x1_0000_0000;
    assert 0x1_0000_0000 * u <= x + 0xffff_ffff < 0x1_0000_0000 * u + 0x1_0000_0000;
    assert 0x1_0000_0000 * v <= y + 0xffff_ffff < 0x1_0000_0000 * v + 0x1_0000_0000;
  }

  // ---- every tick ----

  /** `(price + 2^32 - 1) >> 32` */
  function RoundedUp(x: nat): nat
  {
    (x + 0xffff_ffff) / 0x1_0000_0000
  }

  /** The price at a tick, its last two steps spelled out. */
  lemma PriceIs32(t: int)
    requires -887_272 <= t <= 887_272
    ensures PriceAfter(Abs(t), 20) > 0x1_0000_0000_0000_0000
    ensures t <= 0 ==> SqrtPriceAtTick(t) == Return(RoundedUp(PriceAfter(-t, 20)))
    ensures t >= 0 ==> SqrtPriceAtTick(t) == Return(RoundedUp((W - 1) / PriceAfter(t, 20)))
  {
    var a := Abs(t);
    hide PriceAfter, SqrtPriceAtTick, RoundedUp;
    LowestPrice();
    if a < 887_272 {
      TickStep(a);
    }
    LastSteps(t);
    if t == 0 {
      ZerosBelow(20);
      InverseOfOne();
    }
  }

  lemma LastSteps(t: int)
    requires -887_272 <= t <= 887_272 && PriceAfter(Abs(t), 20) > 1
    ensures t <= 0 ==> SqrtPriceAtTick(t) == Return(RoundedUp(PriceAfter(-t, 20)))
    ensures t > 0 ==> SqrtPriceAtTick(t) == Return(RoundedUp((W - 1) / PriceAfter(t, 20)))
  {
    hide PriceAfter;
    var x := PriceAfter(Abs(t), 20);
    assert x <= Q128;
    if t <= 0 {
      NoOverflow(x);
    } else {
      InverseFits(x);
      NoOverflow((W - 1) / x);
    }
  }

  lemma NoOverflow(x: nat)
    requires x + 0xffff_ffff < W
    ensures (x + 0xffff_ffff) % W / 0x1_0000_0000 == RoundedUp(x)
  {
  }

  lemma InverseFits(x: nat)
    requires x > 1
    ensures (W - 1) / x + 0xffff_ffff < W
  {
    FloorIff(W - 1, x, W / 2);
    MulMonotone(2, x, W / 2);
  }

  /** Inverting 2^128 drops a unit, which the rounding restores. */
  lemma InverseOfOne()
    ensures RoundedUp((W - 1) / 0x1_0000_0000_0000_0000_0000_0000_0000_0000) ==
            RoundedUp(0x1_0000_0000_0000_0000_0000_0000_0000_0000)
  {
  }

  lemma InvertedSteps(x: nat, y: nat)
    requires x > y > 0x1_0000_0000_0000_0000 && Steps(x, y, 0) && x <= Q128
    ensures Steps((W - 1) / y, (W - 1) / x, 2) && (W - 1) / x >= Q128 - 1
  {
    FloorIff(W - 1, x, (W - 1) / x);
    FloorIff(W - 1, x, (W - 1) / x + 1);
    FloorIff(W - 1, y, (W - 1) / y);
    FloorIff(W - 1, y, (W - 1) / y + 1);
    MulMonotone(x, Q128, Q128 - 1);
    FloorIff(W - 1, x, Q128 - 1);
    assert (Q128 - 1) * Q128 <= W - 1;
    hide W;
    InverseSteps(x, y, W - 1, (W - 1) / x, (W - 1) / y);
  }

  /** Each tick raises the price by one part in 20000 to 20001 of it, to within two units. */
  lemma TickRaises(t: int)
    requires -887_272 <= t < 887_272
    ensures SqrtPriceAtTick(t).Return? && SqrtPriceAtTick(t + 1).Return?
    ensures var p, q := SqrtPriceAtTick(t).value, SqrtPriceAtTick(t + 1).value;
      p < q && 20_000 * (q - p - 2) <= p <= 20_001 * (q - p + 2)
  {
    hide PriceAfter, SqrtPriceAtTick, RoundedUp;
    PriceIs32(t);
    PriceIs32(t + 1);
    if t < 0 {
      var x, y := PriceAfter(-t - 1, 20), PriceAfter(-t, 20);
      TickStep(-t - 1);
      RaisesRounded(x, y);
    } else {
      var x, y := PriceAfter(t, 20), PriceAfter(t + 1, 20);
      TickStep(t);
      InvertedSteps(x, y);
      RaisesRounded((W - 1) / y, (W - 1) / x);
    }
  }

  lemma RaisesRounded(x: nat, y: nat)
    requires Steps(x, y, 2) && y > 0x1_0000_0000_0000_0000
    ensures Steps(RoundedUp(x), RoundedUp(y), 2) && RoundedUp(x) > RoundedUp(y)
  {
    RoundedUpSteps(x, y);
  }

  /** A higher tick has a higher price. */
  lemma {:induction false} PricesIncrease(s: int, t: int)
    requires -887_272 <= s < t <= 887_272
    ensures SqrtPriceAtTick(s).Return? && SqrtPriceAtTick(t).Return?
    ensures SqrtPriceAtTick(s).value < SqrtPriceAtTick(t).value
    decreases t - s
  {
    hide SqrtPriceAtTick;
    TickRaises(t - 1);
    if s < t - 1 {
      PricesIncrease(s, t - 1);
    }
  }
}
