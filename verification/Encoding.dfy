/** Bytes, 64-bit lanes and numbers: the little- and big-endian encodings of the miner and of the
    contract's ABI. */
module Encoding {
  import opened Words

  type Bytes = seq<bv8>

  // ---- lanes and bytes: byte k of a lane holds bits 8k to 8k + 7 (section 3.1.2 and appendix B) ----

  function FromLe(b: Bytes): bv64
    requires |b| == 8
  {
    (b[0] as bv64) | ((b[1] as bv64) << 8) | ((b[2] as bv64) << 16) | ((b[3] as bv64) << 24)
    | ((b[4] as bv64) << 32) | ((b[5] as bv64) << 40) | ((b[6] as bv64) << 48) | ((b[7] as bv64) << 56)
  }

  function ToLe(a: bv64): (b: Bytes)
    ensures |b| == 8
  {
    [(a & 0xff) as bv8, ((a >> 8) & 0xff) as bv8, ((a >> 16) & 0xff) as bv8, ((a >> 24) & 0xff) as bv8,
     ((a >> 32) & 0xff) as bv8, ((a >> 40) & 0xff) as bv8, ((a >> 48) & 0xff) as bv8, ((a >> 56) & 0xff) as bv8]
  }

  function Reverse8(b: Bytes): (r: Bytes)
    requires |b| == 8
    ensures |r| == 8
  {
    [b[7], b[6], b[5], b[4], b[3], b[2], b[1], b[0]]
  }

  function FromBe(b: Bytes): bv64
    requires |b| == 8
  {
    FromLe(Reverse8(b))
  }

  lemma LeRoundTrip(b: Bytes)
    requires |b| == 8
    ensures ToLe(FromLe(b)) == b
  {
  }

  lemma LeRoundTripLane(a: bv64)
    ensures FromLe(ToLe(a)) == a
  {
  }

  // ---- big-endian numbers ----

  function Digit(d: bv8): (k: nat)
    ensures k < 256
  {
    d as nat
  }

  function ByteOf(k: nat): bv8
    requires k < 256
  {
    k as bv8
  }

  lemma DigitOfByte(k: nat)
    requires k < 256
    ensures Digit(k as bv8) == k
  {
  }

  lemma ByteValue(k: nat)
    requires k < 256
    ensures Digit(ByteOf(k)) == k
  {
    hide Digit;
    DigitOfByte(k);
  }

  lemma SameDigit(d: bv8, e: bv8)
    requires Digit(d) == Digit(e)
    ensures d == e
  {
  }

  /** The big-endian value of a byte string. */
  function BeNat(b: Bytes): nat
  {
    if b == [] then 0 else 256 * BeNat(b[..|b| - 1]) + Digit(b[|b| - 1])
  }

  /** The `len` low bytes of n, most significant first. */
  function ToBe(n: nat, len: nat): (b: Bytes)
    ensures |b| == len
  {
    if len == 0 then [] else ToBe(n / 256, len - 1) + [ByteOf(n % 256)]
  }

  /** Solidity's `abi.encode` of one static value: 32 bytes. */
  function AbiWord(n: nat): (b: Bytes)
    ensures |b| == 32
  {
    ToBe(n, 32)
  }

  lemma {:induction false} BeRoundTrip(n: nat, len: nat)
    requires n < Pow2(8 * len)
    ensures BeNat(ToBe(n, len)) == n
  {
    if len == 0 {
      assert Pow2(8 * len) == 1;
    } else {
      hide Pow2, Digit, ByteOf;
      BytePower(len);
      BeRoundTrip(n / 256, len - 1);
      assert ToBe(n, len)[..len - 1] == ToBe(n / 256, len - 1);
      ByteValue(n % 256);
    }
  }

  lemma AbiRoundTrip(n: Word)
    ensures BeNat(AbiWord(n)) == n
  {
    Pow2Constants();
    hide Pow2, ToBe, BeNat;
    BeRoundTrip(n, 32);
  }

  lemma {:induction false} BeBound(b: Bytes)
    ensures BeNat(b) < Pow2(8 * |b|)
  {
    hide Pow2, Digit, ByteOf;
    if b != [] {
      BeBound(b[..|b| - 1]);
      BytePower(|b|);
    }
  }

  lemma {:induction false} BeSplit(a: Bytes, b: Bytes)
    ensures BeNat(a + b) == BeNat(a) * Pow2(8 * |b|) + BeNat(b)
  {
    assert Pow2(0) == 1;
    hide Pow2, Digit, ByteOf;
    if b == [] {
      assert a + b == a;
    } else {
      var c := b[..|b| - 1];
      BeSplit(a, c);
      assert (a + b)[..|a + b| - 1] == a + c;
      BytePower(|b|);
      ShiftInByte(BeNat(a), Pow2(8 * |c|), BeNat(c), Digit(b[|b| - 1]));
    }
  }

  lemma BytePower(len: nat)
    requires len > 0
    ensures Pow2(8 * len) == 256 * Pow2(8 * (len - 1))
  {
    assert Pow2(8) == 256 by { Pow2Small(); }
    hide *;
    Pow2Add(8, 8 * (len - 1));
  }

  lemma ShiftInByte(x: nat, m: nat, y: nat, d: nat)
    ensures 256 * (x * m + y) + d == x * (256 * m) + (256 * y + d)
  {
  }

  lemma CompareDigits(x: nat, y: nat, u: nat, v: nat, m: nat)
    requires u < m && v < m
    ensures x * m + u < y * m + v <==> x < y || (x == y && u < v)
  {
    MulSign(x - y, m);
    MulDistributes(x, y, m);
  }

  /** Strings of equal length compare as numbers by their first parts, then by the rest. */
  lemma BeCompare(a1: Bytes, a2: Bytes, b1: Bytes, b2: Bytes)
    requires |a1| == |b1| && |a2| == |b2|
    ensures BeNat(a1 + a2) < BeNat(b1 + b2)
       <==> BeNat(a1) < BeNat(b1) || (BeNat(a1) == BeNat(b1) && BeNat(a2) < BeNat(b2))
  {
    hide *;
    BeSplit(a1, a2);
    BeSplit(b1, b2);
    BeBound(a2);
    BeBound(b2);
    CompareDigits(BeNat(a1), BeNat(b1), BeNat(a2), BeNat(b2), Pow2(8 * |a2|));
  }

  /** The big-endian bytes of a 64-bit word. */
  function BeBytes(w: bv64): (b: Bytes)
    ensures |b| == 8
  {
    Reverse8(ToLe(w))
  }

  /** The value of a 64-bit word: its big-endian bytes read as a number. */
  function Value(w: bv64): nat
  {
    BeNat(BeBytes(w))
  }

  lemma ValueInjective(v: bv64, w: bv64)
    requires Value(v) == Value(w)
    ensures v == w
  {
    hide FromLe, ToLe, BeNat;
    LeRoundTripLane(v);
    LeRoundTripLane(w);
    SameBytes(Reverse8(ToLe(v)), Reverse8(ToLe(w)));
    assert Reverse8(Reverse8(ToLe(v))) == ToLe(v) && Reverse8(Reverse8(ToLe(w))) == ToLe(w);
  }

  /** A big-endian number of known length has one spelling. */
  lemma {:induction false} SameBytes(a: Bytes, b: Bytes)
    requires |a| == |b| && BeNat(a) == BeNat(b)
    ensures a == b
  {
    if a != [] {
      hide Digit, ByteOf;
      var i := |a| - 1;
      SameQuotient(BeNat(a[..i]), BeNat(b[..i]), Digit(a[i]), Digit(b[i]), 256);
      SameBytes(a[..i], b[..i]);
      SameDigit(a[i], b[i]);
      assert a == a[..i] + [a[i]] && b == b[..i] + [b[i]];
    }
  }

  function Zeros(n: nat): (z: Bytes)
    ensures |z| == n
  {
    seq(n, i => 0)
  }

  lemma {:induction false} LeadingZeros(n: nat, len: nat, extra: nat)
    requires n < Pow2(8 * len)
    ensures ToBe(n, extra + len) == Zeros(extra) + ToBe(n, len)
  {
    if len == 0 {
      assert Pow2(0) == 1;
      ZeroBytes(extra);
    } else {
      hide Pow2;
      BytePower(len);
      LeadingZeros(n / 256, len - 1, extra);
    }
  }

  lemma {:induction false} ZeroBytes(len: nat)
    ensures ToBe(0, len) == Zeros(len)
  {
    if len > 0 {
      ZeroBytes(len - 1);
    }
  }

  /** A byte string is the big-endian spelling of its value. */
  lemma BeSpelling(b: Bytes)
    ensures ToBe(BeNat(b), |b|) == b
  {
    BeBound(b);
    hide *;
    BeRoundTrip(BeNat(b), |b|);
    SameBytes(ToBe(BeNat(b), |b|), b);
  }
}
