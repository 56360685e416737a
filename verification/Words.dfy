/** EVM words: naturals below 2^256 with explicit wrap-around, and the bitwise operations of the
    contract's libraries defined digit by digit on naturals of any width. */
module Words {

  /** 2^256 */
  const W: nat := 0x1_0000000000000000_0000000000000000_0000000000000000_0000000000000000

  type Word = x: nat | x < W

  /** What a call hands back: a value, or a revert. */
  datatype Result<+T> = Revert | Return(value: T)

  // ---- powers of two ----

  function Pow2(n: nat): (p: nat)
    ensures p > 0
  {
    if n == 0 then 1 else 2 * Pow2(n - 1)
  }

  lemma {:induction false} Pow2Add(m: nat, n: nat)
    ensures Pow2(m + n) == Pow2(m) * Pow2(n)
  {
    if m != 0 {
      Pow2Add(m - 1, n);
    }
  }

  lemma Pow2Small()
    ensures Pow2(8) == 0x100 && Pow2(16) == 0x1_0000 && Pow2(32) == 0x1_0000_0000
  {
    assert Pow2(8) == 0x100;
    Pow2Add(8, 8);
    Pow2Add(16, 16);
  }

  lemma Pow2Constants()
    ensures Pow2(8) == 0x100
    ensures Pow2(16) == 0x1_0000
    ensures Pow2(32) == 0x1_0000_0000
    ensures Pow2(64) == 0x1_0000_0000_0000_0000
    ensures Pow2(96) == 0x1_0000_0000_0000_0000_0000_0000
    ensures Pow2(128) == 0x1_0000_0000_0000_0000_0000_0000_0000_0000
    ensures Pow2(256) == W
  {
    hide Pow2;
    Pow2Small();
    Pow2Add(32, 32);
    Pow2Add(32, 64);
    Pow2Add(64, 64);
    Pow2Add(128, 128);
  }

  lemma {:induction false} Pow2Monotone(m: nat, n: nat)
    requires m <= n
    ensures Pow2(m) <= Pow2(n)
  {
    if m < n {
      Pow2Monotone(m, n - 1);
    }
  }

  // ---- EVM instructions ----

  function Add(x: Word, y: Word): Word { (x + y) % W }

  function Sub(x: Word, y: Word): Word { (x - y) % W }

  function Mul(x: Word, y: Word): Word { (x * y) % W }

  function Div(x: Word, y: Word): Word
  {
    if y == 0 then 0 else DivAtMost(x, y); x / y
  }

  function MulMod(x: Word, y: Word, m: Word): Word
  {
    if m == 0 then 0 else (x * y) % m
  }

  function Flag(b: bool): Word { if b then 1 else 0 }

  lemma DivAtMost(x: nat, y: nat)
    requires y > 0
    ensures x / y <= x
  {
    MulMonotone(1, y, x / y);
    assert x == y * (x / y) + x % y;
  }

  // ---- bitwise operations ----

  function BitAnd(x: nat, y: nat): nat
  {
    if x == 0 || y == 0 then 0 else 2 * BitAnd(x / 2, y / 2) + (x % 2) * (y % 2)
  }

  function BitOr(x: nat, y: nat): nat
    decreases x + y
  {
    if x == 0 then y else if y == 0 then x
    else 2 * BitOr(x / 2, y / 2) + (if x % 2 + y % 2 == 0 then 0 else 1)
  }

  function BitXor(x: nat, y: nat): nat
    decreases x + y
  {
    if x == 0 then y else if y == 0 then x
    else 2 * BitXor(x / 2, y / 2) + (x + y) % 2
  }

  /** `and` with a mask of k ones keeps the low k bits. */
  lemma {:induction false} BitAndMask(x: nat, k: nat)
    ensures BitAnd(x, Pow2(k) - 1) == x % Pow2(k)
  {
    if x != 0 && k != 0 {
      var m := Pow2(k - 1);
      BitAndMask(x / 2, k - 1);
      ModDouble(x, m);
      assert (2 * m - 1) / 2 == m - 1 && (2 * m - 1) % 2 == 1;
    }
  }

  lemma ModDouble(x: nat, m: nat)
    requires m > 0
    ensures x % (2 * m) == 2 * (x / 2 % m) + x % 2
  {
    var h := x / 2;
    DivModOf(x, h / m, 2 * (h % m) + x % 2, 2 * m) by {
      assert h == h / m * m + h % m;
      assert h / m * (2 * m) == 2 * (h / m * m);
    }
  }

  lemma {:induction false} BitOrCommutes(x: nat, y: nat)
    ensures BitOr(x, y) == BitOr(y, x)
    decreases x + y
  {
    if x != 0 && y != 0 {
      BitOrCommutes(x / 2, y / 2);
    }
  }

  /** `or` of words that share no bit position is their sum. */
  lemma {:induction false} BitOrDisjoint(x: nat, y: nat, k: nat)
    requires x % Pow2(k) == 0 && y < Pow2(k)
    ensures BitOr(x, y) == BitOr(y, x) == x + y
    decreases k
  {
    BitOrCommutes(x, y);
    if x != 0 && y != 0 {
      ModDouble(x, Pow2(k - 1));
      BitOrDisjoint(x / 2, y / 2, k - 1);
    }
  }

  lemma {:induction false} BitAndComplement(x: nat, n: nat)
    requires x < Pow2(n)
    ensures BitAnd(Pow2(n) - 1 - x, x) == 0
  {
    if x != 0 {
      BitAndComplement(x / 2, n - 1);
      assert (Pow2(n) - 1 - x) / 2 == Pow2(n - 1) - 1 - x / 2;
    }
  }

  /** `(-d) & d` on n-bit words is the largest power of two dividing d. */
  lemma {:induction false} IsolateLowestBit(d: nat, n: nat) returns (k: nat)
    requires 0 < d < Pow2(n)
    ensures BitAnd(Pow2(n) - d, d) == Pow2(k)
    ensures k < n && d % Pow2(k) == 0 && d / Pow2(k) % 2 == 1
  {
    if d % 2 == 1 {
      k := 0;
      BitAndComplement(d / 2, n - 1);
      assert (Pow2(n) - d) / 2 == Pow2(n - 1) - 1 - d / 2;
    } else {
      k := IsolateLowestBit(d / 2, n - 1);
      assert (Pow2(n) - d) / 2 == Pow2(n - 1) - d / 2;
      HalveDivision(d, Pow2(k));
      k := k + 1;
    }
  }

  lemma HalveDivision(d: nat, t: nat)
    requires t > 0 && d % 2 == 0 && d / 2 % t == 0
    ensures d % (2 * t) == 0 && d / (2 * t) == d / 2 / t
  {
    var q := d / 2 / t;
    assert d / 2 == q * t;
    assert d == q * (2 * t);
    DivModOf(d, q, 0, 2 * t);
  }

  lemma BitXorTwo(x: nat)
    ensures BitXor(x, 2) == if x / 2 % 2 == 0 then x + 2 else x - 2
  {
    assert BitXor(x / 2 / 2, 0) == x / 2 / 2;
    assert BitXor(x / 2, 1) == if x / 2 == 0 then 1 else 2 * BitXor(x / 2 / 2, 0) + (x / 2 + 1) % 2;
  }

  // ---- multiplication and division ----

  lemma MulMonotone(a: nat, b: nat, c: nat)
    requires a <= b
    ensures a * c <= b * c && c * a <= c * b
  {
    assert (b - a) * c >= 0;
  }

  lemma MulAssociates(a: int, b: int, c: int)
    ensures a * b * c == a * (b * c) == a * c * b
  {
  }

  lemma MulDistributes(a: int, b: int, c: int)
    ensures (a + b) * c == a * c + b * c
    ensures (a - b) * c == a * c - b * c
  {
  }

  /** Quotient and remainder are unique. */
  lemma DivModOf(x: int, q: int, r: int, m: int)
    requires m > 0 && 0 <= r < m && x == q * m + r
    ensures x / m == q && x % m == r
  {
    SameQuotient(q, x / m, r, x % m, m);
  }

  lemma SameQuotient(q: int, q': int, r: int, r': int, m: int)
    requires 0 <= r < m && 0 <= r' < m && q * m + r == q' * m + r'
    ensures q == q' && r == r'
  {
    MulSign(q - q', m);
    assert (q - q') * m == r' - r;
  }

  lemma MulSign(e: int, m: nat)
    ensures e >= 1 ==> e * m >= m
    ensures e <= -1 ==> e * m <= 0 - m
  {
    if e >= 1 {
      MulMonotone(1, e, m);
    } else if e <= -1 {
      MulMonotone(1, -e, m);
    }
  }

  lemma SameResidue(x: int, y: int, k: int, m: nat)
    requires m > 0 && x == y + k * m
    ensures x % m == y % m
  {
    MulDistributes(y / m, k, m);
    DivModOf(x, y / m + k, y % m, m);
  }

  /** floor(x / m) is the largest q with q * m <= x. */
  lemma FloorIff(x: nat, m: nat, q: nat)
    requires m > 0
    ensures q <= x / m <==> q * m <= x
  {
    assert x == x / m * m + x % m;
    MulSign(x / m - q, m);
  }

  // ---- right shifts ----

  /** `x >> n` */
  function ShiftRight(x: nat, n: nat): nat
  {
    if n == 0 then x else ShiftRight(x / 2, n - 1)
  }

  lemma {:induction false} ShiftRightIs(x: nat, n: nat)
    ensures ShiftRight(x, n) == x / Pow2(n)
  {
    if n > 0 {
      ShiftRightIs(x / 2, n - 1);
      HalfQuotient(x, Pow2(n - 1));
    }
  }

  lemma HalfQuotient(x: nat, p: nat)
    requires p > 0
    ensures x / 2 / p == x / (2 * p)
  {
    var h := x / 2;
    MulAssociates(h / p, p, 2);
    DivModOf(x, h / p, 2 * (h % p) + x % 2, 2 * p);
  }

  lemma {:induction false} ShiftRightTwice(x: nat, m: nat, n: nat)
    ensures ShiftRight(ShiftRight(x, m), n) == ShiftRight(x, m + n)
  {
    if m > 0 {
      ShiftRightTwice(x / 2, m - 1, n);
    }
  }

  lemma ShiftRightBounds(x: nat, n: nat)
    ensures ShiftRight(x, n) * Pow2(n) <= x < (ShiftRight(x, n) + 1) * Pow2(n)
  {
    ShiftRightIs(x, n);
    FloorIff(x, Pow2(n), ShiftRight(x, n));
    FloorIff(x, Pow2(n), ShiftRight(x, n) + 1);
  }

  // ---- single bits ----

  predicate HasBit(x: nat, i: nat)
  {
    x / Pow2(i) % 2 == 1
  }

  lemma {:induction false} AndWithBit(x: nat, i: nat)
    ensures BitAnd(x, Pow2(i)) == if HasBit(x, i) then Pow2(i) else 0
  {
    if i > 0 {
      AndWithBit(x / 2, i - 1);
      HalfQuotient(x, Pow2(i - 1));
    } else {
      AndWithZero(x / 2);
    }
  }

  lemma {:induction false} AndWithZero(x: nat)
    ensures BitAnd(x, 0) == 0
  {
    if x > 0 {
      AndWithZero(x / 2);
    }
  }
}
