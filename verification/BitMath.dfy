/** Bit positions of 256-bit words (docs/superpowers/specs/_contract/BitMath.sol). The most significant
    bit is taken of a natural below 2^256; the least significant bit, which rests on multiplying by a
    de Bruijn constant, of a 256-bit vector. */
module BitMath {
  import opened Encoding
  import opened Words

  // ---- the most significant bit ----

  /** Byte i of a 32-byte table, from the most significant end. */
  function TableByte(i: bv8, table: bv256): bv8
  {
    if i >= 32 then 0 else ((table >> (8 * (31 - (i as bv16)))) & 0xff) as bv8
  }

  /** The lookup for the last eight bits. */
  function TopBitOfByte(v: bv8): bv8
  {
    var index := if v >= 128 then 0 else ((0x8421084210842108cc6318c6db6d54be as bv128) >> v) & 0x1f;
    TableByte(index as bv8, 0x0706060506020500060203020504000106050205030304010505030400000000)
  }

  lemma TopBitLookup(v: bv8)
    requires v != 0
    ensures TopBitOfByte(v) <= 7 && v >> TopBitOfByte(v) == 1
  {
  }

  /** One stage of the search: the value left after shifting by r is below 2^(2w); shift by w more if
      it is not below 2^w. */
  lemma Stage(x: nat, r: nat, w: nat, p: nat, high: bool)
    requires p == Pow2(w)
    requires 0 < ShiftRight(x, r) < Pow2(2 * w)
    requires high == (p - 1 < ShiftRight(x, r))
    ensures 0 < ShiftRight(x, if high then r + w else r) < p
  {
    var v := ShiftRight(x, r);
    ShiftRightTwice(x, r, w);
    ShiftRightIs(v, w);
    Pow2Add(w, w);
    hide ShiftRight, Pow2;
    FloorIff(v, Pow2(w), 1);
    FloorIff(v, Pow2(w), Pow2(w));
  }

  lemma RoomForStage(r: nat, w: nat)
    requires w == 64 || w == 32 || w == 16 || w == 8
    requires r < 256 && r % (2 * w) == 0
    ensures r % w == 0 && (r + w) % w == 0 && r + w < 256
  {
    var q := r / (2 * w);
    MulAssociates(q, 2, w);
    MulDistributes(2 * q, 1, w);
    DivModOf(r, 2 * q, 0, w);
    DivModOf(r + w, 2 * q + 1, 0, w);
    if w == 64 {
      assert r <= 128;
    } else if w == 32 {
      assert r <= 192;
    } else if w == 16 {
      assert r <= 224;
    } else {
      assert r <= 240;
    }
  }

  lemma OrIn(r: nat, w: nat)
    requires w == 64 || w == 32 || w == 16 || w == 8
    requires r % (2 * w) == 0
    ensures BitOr(r, w) == r + w && BitOr(r, 0) == r
  {
    var k := if w == 64 then 7 else if w == 32 then 6 else if w == 16 then 5 else 4;
    assert Pow2(7) == 128 && Pow2(6) == 64 && Pow2(5) == 32 && Pow2(4) == 16;
    hide Pow2, BitOr;
    BitOrDisjoint(r, w, k);
    BitOrDisjoint(r, 0, k);
  }

  /** All of x above bit r + w is gone, and something is left. */
  ghost predicate Narrowed(x: nat, r: nat, w: nat)
    requires w > 0
  {
    r < 256 && r % w == 0 && 0 < ShiftRight(x, r) < Pow2(w)
  }

  method Refine(x: Word, r: nat, w: nat, mask: nat) returns (s: nat)
    requires w == 64 || w == 32 || w == 16 || w == 8
    requires mask + 1 == Pow2(w) && Narrowed(x, r, 2 * w)
    ensures Narrowed(x, s, w)
  {
    hide *;
    NarrowedParts(x, r, 2 * w);
    RoomForStage(r, w);
    OrIn(r, w);
    var high := mask < ShiftRight(x, r);
    Stage(x, r, w, mask + 1, high);
    s := BitOr(r, if high then w else 0);
    NarrowedFrom(x, s, w);
  }

  lemma NarrowedParts(x: nat, r: nat, w: nat)
    requires w > 0 && Narrowed(x, r, w)
    ensures r < 256 && r % w == 0 && 0 < ShiftRight(x, r) < Pow2(w)
  {
  }

  lemma NarrowedFrom(x: nat, r: nat, w: nat)
    requires w > 0 && r < 256 && r % w == 0 && 0 < ShiftRight(x, r) < Pow2(w)
    ensures Narrowed(x, r, w)
  {
  }

  function TopBitBelow256(v: nat): nat
    requires v < 256
  {
    Digit(TopBitOfByte(ByteOf(v)))
  }

  lemma ByteRanges(b: bv8)
    ensures b == 1 ==> Digit(b) == 1
    ensures b >> 1 == 1 ==> 2 <= Digit(b) < 4
    ensures b >> 2 == 1 ==> 4 <= Digit(b) < 8
    ensures b >> 3 == 1 ==> 8 <= Digit(b) < 16
    ensures b >> 4 == 1 ==> 16 <= Digit(b) < 32
    ensures b >> 5 == 1 ==> 32 <= Digit(b) < 64
    ensures b >> 6 == 1 ==> 64 <= Digit(b) < 128
    ensures b >> 7 == 1 ==> 128 <= Digit(b)
  {
  }

  lemma ShiftedToOne(b: bv8, t: bv8)
    requires t <= 7 && b >> t == 1
    ensures Digit(t) <= 7 && Pow2(Digit(t)) <= Digit(b) < 2 * Pow2(Digit(t))
  {
    ByteRanges(b);
    assert Pow2(0) == 1 && Pow2(1) == 2 && Pow2(2) == 4 && Pow2(3) == 8;
    assert Pow2(4) == 16 && Pow2(5) == 32 && Pow2(6) == 64 && Pow2(7) == 128;
    hide Pow2;
    assert t == 0 || t == 1 || t == 2 || t == 3 || t == 4 || t == 5 || t == 6 || t == 7;
  }

  lemma TopBitBelow256Is(v: nat)
    requires 0 < v < 256
    ensures var t := TopBitBelow256(v); t <= 7 && Pow2(t) <= v < 2 * Pow2(t)
  {
    var b := ByteOf(v);
    assert Digit(0) == 0;
    hide TopBitOfByte, Pow2, Digit, ByteOf;
    ByteValue(v);
    TopBitLookup(b);
    ShiftedToOne(b, TopBitOfByte(b));
  }

  lemma ScaledRange(x: nat, v: nat, p: nat, q: nat)
    requires v * p <= x < (v + 1) * p && q <= v < 2 * q
    ensures p * q <= x < 2 * (p * q)
  {
    MulMonotone(q, v, p);
    MulMonotone(v + 1, 2 * q, p);
    MulAssociates(2, q, p);
  }

  lemma TopBitFound(x: nat, s: nat, t: nat)
    requires Pow2(t) <= ShiftRight(x, s) < 2 * Pow2(t)
    ensures Pow2(s + t) <= x < Pow2(s + t + 1)
  {
    assert Pow2(s + t + 1) == 2 * Pow2(s + t);
    hide Pow2, ShiftRight;
    ShiftRightBounds(x, s);
    Pow2Add(s, t);
    ScaledRange(x, ShiftRight(x, s), Pow2(s), Pow2(t));
  }

  lemma FirstStage(x: Word)
    requires x > 0
    ensures Narrowed(x, if 0xffff_ffff_ffff_ffff_ffff_ffff_ffff_ffff < x then 128 else 0, 128)
  {
    Pow2Constants();
    hide ShiftRight, Pow2;
    assert ShiftRight(x, 0) == x by { ShiftByNothing(x); }
    Stage(x, 0, 128, Pow2(128), Pow2(128) - 1 < x);
  }

  lemma ShiftByNothing(x: nat)
    ensures ShiftRight(x, 0) == x
  {
  }

  lemma OrLast(s: nat, t: nat)
    requires s % 8 == 0 && t <= 7
    ensures BitOr(s, t) == s + t
  {
    assert Pow2(3) == 8;
    hide Pow2, BitOr;
    BitOrDisjoint(s, t, 3);
  }

  lemma LastStage(x: nat, s: nat)
    requires s < 256 && s % 8 == 0 && 0 < ShiftRight(x, s) < 256
    ensures var r := BitOr(s, TopBitBelow256(ShiftRight(x, s)));
      r < 256 && Pow2(r) <= x < Pow2(r + 1)
  {
    hide *;
    var t := TopBitBelow256(ShiftRight(x, s));
    TopBitBelow256Is(ShiftRight(x, s));
    OrLast(s, t);
    TopBitFound(x, s, t);
  }

  lemma Unnarrowed(x: nat, s: nat)
    requires Narrowed(x, s, 8)
    ensures s < 256 && s % 8 == 0 && 0 < ShiftRight(x, s) < 256
  {
    Pow2Small();
  }

  lemma Masks()
    ensures Pow2(8) == 0x100 && Pow2(16) == 0x1_0000 && Pow2(32) == 0x1_0000_0000
    ensures Pow2(64) == 0x1_0000_0000_0000_0000
  {
    Pow2Constants();
  }

  /** The largest r with 2^r <= x. */
  method MostSignificantBit(x: Word) returns (r: Result<nat>)
    ensures r.Revert? <==> x == 0
    ensures r.Return? ==> r.value < 256 && Pow2(r.value) <= x < Pow2(r.value + 1)
  {
    hide *;
    if x == 0 {
      return Revert;
    }
    FirstStage(x);
    Masks();
    var s := if 0xffff_ffff_ffff_ffff_ffff_ffff_ffff_ffff < x then 128 else 0;
    s := Refine(x, s, 64, 0xffff_ffff_ffff_ffff);
    s := Refine(x, s, 32, 0xffff_ffff);
    s := Refine(x, s, 16, 0xffff);
    s := Refine(x, s, 8, 0xff);
    Unnarrowed(x, s);
    LastStage(x, s);
    r := Return(BitOr(s, TopBitBelow256(ShiftRight(x, s))));
  }

  // ---- the least significant bit ----

  function Bit(k: bv8): bv256
  {
    (1 as bv256) << k
  }

  /** A single bit is set. */
  predicate OneBit(p: bv256)
  {
    p != 0 && p & (p - 1) == 0
  }

  /** x has the bit p, and none below it. */
  predicate Marks(x: bv256, p: bv256)
  {
    x & p != 0 && x & (p - 1) == 0
  }

  function Isolated(x: bv256): bv256
  {
    x & (0 - x)
  }

  lemma LowestBitIsolated(x: bv256, p: bv256)
    requires x != 0 && p == Isolated(x)
    ensures OneBit(p) && Marks(x, p)
  {
  }

  predicate Fits128(p: bv256) { p <= 0xffffffffffffffffffffffffffffffff }

  function Raised128(p: bv256): bv256 { p << 128 }

  predicate Fits64(p: bv256) { p <= 0xffffffffffffffff }

  function Raised64(p: bv256): bv256 { p << 64 }

  predicate Fits32(p: bv256) { p <= 0xffffffff }

  function Raised32(p: bv256): bv256 { p << 32 }

  lemma BitIndex32(p: bv256) returns (k: bv8)
    requires OneBit(p) && Fits32(p)
    ensures p == Bit(k) && k < 32
  {
    k := (if p & 0xaaaaaaaa != 0 then 1 else 0) | (if p & 0xcccccccc != 0 then 2 else 0)
         | (if p & 0xf0f0f0f0 != 0 then 4 else 0) | (if p & 0xff00ff00 != 0 then 8 else 0)
         | (if p & 0xffff0000 != 0 then 16 else 0);
  }

  lemma Split64(p: bv256) returns (q: bv256, high: bool)
    requires OneBit(p) && Fits64(p)
    ensures OneBit(q) && Fits32(q) && p == if high then Raised32(q) else q
  {
    high := p & 0xffffffff == 0;
    q := if high then p >> 32 else p;
  }

  lemma Raise32(k: bv8)
    requires k < 32
    ensures Raised32(Bit(k)) == Bit(k | 32) && k | 32 < 64
  {
  }

  lemma BitIndex64(p: bv256) returns (k: bv8)
    requires OneBit(p) && Fits64(p)
    ensures p == Bit(k) && k < 64
  {
    hide *;
    var q, high := Split64(p);
    k := BitIndex32(q);
    if high {
      Raise32(k);
      k := k | 32;
    }
  }

  lemma Split128(p: bv256) returns (q: bv256, high: bool)
    requires OneBit(p) && Fits128(p)
    ensures OneBit(q) && Fits64(q) && p == if high then Raised64(q) else q
  {
    high := p & 0xffffffffffffffff == 0;
    q := if high then p >> 64 else p;
  }

  lemma Raise64(k: bv8)
    requires k < 64
    ensures Raised64(Bit(k)) == Bit(k | 64) && k | 64 < 128
  {
  }

  lemma BitIndex128(p: bv256) returns (k: bv8)
    requires OneBit(p) && Fits128(p)
    ensures p == Bit(k) && k < 128
  {
    hide *;
    var q, high := Split128(p);
    k := BitIndex64(q);
    if high {
      Raise64(k);
      k := k | 64;
    }
  }

  lemma Split256(p: bv256) returns (q: bv256, high: bool)
    requires OneBit(p)
    ensures OneBit(q) && Fits128(q) && p == if high then Raised128(q) else q
  {
    high := p & 0xffffffffffffffffffffffffffffffff == 0;
    q := if high then p >> 128 else p;
  }

  lemma Raise128(k: bv8)
    requires k < 128
    ensures Raised128(Bit(k)) == Bit(k | 128)
  {
  }

  lemma BitIndex256(p: bv256) returns (k: bv8)
    requires OneBit(p)
    ensures p == Bit(k)
  {
    hide *;
    var q, high := Split256(p);
    k := BitIndex128(q);
    if high {
      Raise128(k);
      k := k | 128;
    }
  }

  function DeBruijn(p: bv256): bv256
  {
    p * 0xb6db6db6ddddddddd34d34d349249249210842108c6318c639ce739cffffffff
  }

  lemma DeBruijnShifted(k: bv8)
    ensures DeBruijn((1 as bv256) << k) == (0xb6db6db6ddddddddd34d34d349249249210842108c6318c639ce739cffffffff as bv256) << k
  {
  }

  lemma DeBruijnShifts(k: bv8)
    ensures DeBruijn(Bit(k)) == (0xb6db6db6ddddddddd34d34d349249249210842108c6318c639ce739cffffffff as bv256) << k
  {
    hide DeBruijn;
    DeBruijnShifted(k);
  }

  /** The upper three bits of the index: the top six bits of the product pick a nibble. */
  function UpperIndex(product: bv256): bv256
  {
    ((0x8040405543005266443200005020610674053026020000107506200176117077 as bv256) << ((product >> 250) << 2)) >> 252 << 5
  }

  lemma UpperIndexOfShift(k: bv8)
    ensures UpperIndex((0xb6db6db6ddddddddd34d34d349249249210842108c6318c639ce739cffffffff as bv256) << k)
            == (k & 0xe0) as bv256
  {
  }

  lemma UpperIndexOf(k: bv8)
    ensures UpperIndex(DeBruijn(Bit(k))) == (k & 0xe0) as bv256
  {
    hide *;
    DeBruijnShifts(k);
    UpperIndexOfShift(k);
  }

  /** EVM `div` of the constant: a larger divisor leaves nothing of its 32 bits. */
  function Quotient(y: bv256): bv256
    requires y != 0
  {
    if y > 0xffff_ffff then 0 else ((0xd76453e0 as bv32) / (y as bv32)) as bv256
  }

  lemma Quotients()
    ensures Quotient(0x1) == 0xd76453e0 && Quotient(0x2) == 0x6bb229f0
    ensures Quotient(0x4) == 0x35d914f8 && Quotient(0x8) == 0x1aec8a7c
    ensures Quotient(0x10) == 0xd76453e && Quotient(0x20) == 0x6bb229f
    ensures Quotient(0x40) == 0x35d914f && Quotient(0x80) == 0x1aec8a7
    ensures Quotient(0x100) == 0xd76453 && Quotient(0x200) == 0x6bb229
    ensures Quotient(0x400) == 0x35d914 && Quotient(0x800) == 0x1aec8a
    ensures Quotient(0x1000) == 0xd7645 && Quotient(0x2000) == 0x6bb22
    ensures Quotient(0x4000) == 0x35d91 && Quotient(0x8000) == 0x1aec8
    ensures Quotient(0x10000) == 0xd764 && Quotient(0x20000) == 0x6bb2
    ensures Quotient(0x40000) == 0x35d9 && Quotient(0x80000) == 0x1aec
    ensures Quotient(0x100000) == 0xd76 && Quotient(0x200000) == 0x6bb
    ensures Quotient(0x400000) == 0x35d && Quotient(0x800000) == 0x1ae
    ensures Quotient(0x1000000) == 0xd7 && Quotient(0x2000000) == 0x6b
    ensures Quotient(0x4000000) == 0x35 && Quotient(0x8000000) == 0x1a
    ensures Quotient(0x10000000) == 0xd && Quotient(0x20000000) == 0x6
    ensures Quotient(0x40000000) == 0x3 && Quotient(0x80000000) == 0x1
  {
  }

  lemma QuotientIsShift(t: bv8)
    requires t < 32
    ensures Bit(t) != 0 && Quotient(Bit(t)) == 0xd76453e0 >> t
  {
    hide Quotient;
    Quotients();
  }

  /** The lower five bits of the index. */
  function LowerIndex(quotient: bv256): bv8
  {
    TableByte((quotient & 0x1f) as bv8, 0x001f0d1e100c1d070f090b19131c1706010e11080a1a141802121b1503160405)
  }

  lemma LowerIndexOf(t: bv8)
    requires t < 32
    ensures LowerIndex(0xd76453e0 >> t) == t
  {
  }

  /** EVM `shr` by at most 255. */
  function Lowered(p: bv256, r: bv256): bv256
    requires r < 256
  {
    p >> r
  }

  lemma LoweredBit(k: bv8)
    ensures (k & 0xe0) as bv256 < 256 && Lowered(Bit(k), (k & 0xe0) as bv256) == Bit(k & 0x1f) && k & 0x1f < 32
  {
  }

  function Joined(upper: bv256, lower: bv8): bv8
  {
    ((upper & 0xff) as bv8) | lower
  }

  lemma JoinedIndex(k: bv8)
    ensures Joined((k & 0xe0) as bv256, k & 0x1f) == k
  {
  }

  /** Bit r of x is set and every bit below it is clear: 2^r divides x and 2^(r+1) does not. */
  predicate LowestBit(x: bv256, r: bv8)
  {
    Marks(x, Bit(r))
  }

  lemma LowestBitIndex(x: bv256) returns (k: bv8)
    requires x != 0
    ensures Isolated(x) == Bit(k) && LowestBit(x, k)
  {
    hide Isolated, Bit, OneBit, Marks;
    LowestBitIsolated(x, Isolated(x));
    k := BitIndex256(Isolated(x));
  }

  /** The largest r with 2^r dividing x. */
  method LeastSignificantBit(x: bv256) returns (r: Result<bv8>)
    ensures r.Revert? <==> x == 0
    ensures r.Return? ==> LowestBit(x, r.value)
  {
    hide *;
    if x == 0 {
      return Revert;
    }
    ghost var k := LowestBitIndex(x);
    UpperIndexOf(k);
    LoweredBit(k);
    QuotientIsShift(k & 0x1f);
    LowerIndexOf(k & 0x1f);
    JoinedIndex(k);
    var p := Isolated(x);
    var upper := UpperIndex(DeBruijn(p));
    r := Return(Joined(upper, LowerIndex(Quotient(Lowered(p, upper)))));
  }
}
