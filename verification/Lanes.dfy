/** Keccak on 64-bit lanes: the lane operations of FIPS 202 and of the mining kernel, the round
    constants, and what the step mappings do to each bit of the state. */
module Lanes {
  import opened Keccak

  /** Bit z of a lane. Coordinates along z wrap modulo 64, as `bv6` arithmetic does. */
  predicate Bit(a: bv64, z: bv6) { (a >> z) & 1 == 1 }

  function Rotated(a: bv64, n: bv6): bv64
  {
    (a << n) | (a >> (64 - (n as bv7)))
  }

  function ExclusiveOr(a: bv64, b: bv64): bv64 { a ^ b }

  function AndWithNot(a: bv64, b: bv64): bv64 { !a & b }

  /** The lane operations of the standard. */
  const FIPS: Ops<bv64> := Ops(ExclusiveOr, AndWithNot, Rotated)

  /** CUDA `__funnelshift_l`: the high word of hi:lo shifted left by the low five bits of `shift`. */
  function FunnelShiftL(lo: bv32, hi: bv32, shift: bv32): bv32
  {
    var wide: bv64 := (((hi as bv64) << 32) | (lo as bv64)) << (shift & 31);
    (wide >> 32) as bv32
  }

  /** 64-bit rotation from two 32-bit funnel shifts. */
  function Rol64(x: bv64, n: bv32): bv64
  {
    var lo := (x & 0xffff_ffff) as bv32;
    var hi := (x >> 32) as bv32;
    var newHi := if n >= 32 then FunnelShiftL(hi, lo, n - 32) else FunnelShiftL(lo, hi, n);
    var newLo := if n >= 32 then FunnelShiftL(lo, hi, n - 32) else FunnelShiftL(hi, lo, n);
    ((newHi as bv64) << 32) | (newLo as bv64)
  }

  function RolBy(a: bv64, n: bv6): bv64 { Rol64(a, n as bv32) }

  /** The lane operations of the kernel. */
  const KERNEL: Ops<bv64> := Ops(ExclusiveOr, AndWithNot, RolBy)

  // ---- the kernel's rotations, each with its compile-time constant ----

  ghost predicate Rotates(a: bv64, n: bv6, z: bv6)
  {
    RolBy(a, n) == Rotated(a, n) && Bit(Rotated(a, n), z) == Bit(a, z - n)
  }

  lemma Rotate1(a: bv64, z: bv6)
    ensures Rotates(a, 1, z)
  {
  }

  lemma Rotate2(a: bv64, z: bv6)
    ensures Rotates(a, 2, z)
  {
  }

  lemma Rotate3(a: bv64, z: bv6)
    ensures Rotates(a, 3, z)
  {
  }

  lemma Rotate6(a: bv64, z: bv6)
    ensures Rotates(a, 6, z)
  {
  }

  lemma Rotate8(a: bv64, z: bv6)
    ensures Rotates(a, 8, z)
  {
  }

  lemma Rotate10(a: bv64, z: bv6)
    ensures Rotates(a, 10, z)
  {
  }

  lemma Rotate14(a: bv64, z: bv6)
    ensures Rotates(a, 14, z)
  {
  }

  lemma Rotate15(a: bv64, z: bv6)
    ensures Rotates(a, 15, z)
  {
  }

  lemma Rotate18(a: bv64, z: bv6)
    ensures Rotates(a, 18, z)
  {
  }

  lemma Rotate20(a: bv64, z: bv6)
    ensures Rotates(a, 20, z)
  {
  }

  lemma Rotate21(a: bv64, z: bv6)
    ensures Rotates(a, 21, z)
  {
  }

  lemma Rotate25(a: bv64, z: bv6)
    ensures Rotates(a, 25, z)
  {
  }

  lemma Rotate27(a: bv64, z: bv6)
    ensures Rotates(a, 27, z)
  {
  }

  lemma Rotate28(a: bv64, z: bv6)
    ensures Rotates(a, 28, z)
  {
  }

  lemma Rotate36(a: bv64, z: bv6)
    ensures Rotates(a, 36, z)
  {
  }

  lemma Rotate39(a: bv64, z: bv6)
    ensures Rotates(a, 39, z)
  {
  }

  lemma Rotate41(a: bv64, z: bv6)
    ensures Rotates(a, 41, z)
  {
  }

  lemma Rotate43(a: bv64, z: bv6)
    ensures Rotates(a, 43, z)
  {
  }

  lemma Rotate44(a: bv64, z: bv6)
    ensures Rotates(a, 44, z)
  {
  }

  lemma Rotate45(a: bv64, z: bv6)
    ensures Rotates(a, 45, z)
  {
  }

  lemma Rotate55(a: bv64, z: bv6)
    ensures Rotates(a, 55, z)
  {
  }

  lemma Rotate56(a: bv64, z: bv6)
    ensures Rotates(a, 56, z)
  {
  }

  lemma Rotate61(a: bv64, z: bv6)
    ensures Rotates(a, 61, z)
  {
  }

  lemma Rotate62(a: bv64, z: bv6)
    ensures Rotates(a, 62, z)
  {
  }

  /** `ROL64` rotates, for every offset of the permutation: bit z comes from bit z - n. */
  lemma OffsetRotates(a: bv64, lane: nat, z: bv6)
    requires 0 < lane < 25
    ensures Rotates(a, Offset(lane), z)
  {
    hide Rotates;
    match lane
    case 1 => Rotate1(a, z);
    case 2 => Rotate62(a, z);
    case 3 => Rotate28(a, z);
    case 4 => Rotate27(a, z);
    case 5 => Rotate36(a, z);
    case 6 => Rotate44(a, z);
    case 7 => Rotate6(a, z);
    case 8 => Rotate55(a, z);
    case 9 => Rotate20(a, z);
    case 10 => Rotate3(a, z);
    case 11 => Rotate10(a, z);
    case 12 => Rotate43(a, z);
    case 13 => Rotate25(a, z);
    case 14 => Rotate39(a, z);
    case 15 => Rotate41(a, z);
    case 16 => Rotate45(a, z);
    case 17 => Rotate15(a, z);
    case 18 => Rotate21(a, z);
    case 19 => Rotate8(a, z);
    case 20 => Rotate18(a, z);
    case 21 => Rotate2(a, z);
    case 22 => Rotate61(a, z);
    case 23 => Rotate56(a, z);
    case 24 => Rotate14(a, z);
  }

  lemma SameRounds(a: seq<bv64>, constants: seq<bv64>)
    requires |a| == 25
    ensures Rounds(KERNEL, a, constants) == Rounds(FIPS, a, constants)
  {
    hide RolBy, Rotated, Bit;
    forall x: bv64, lane: nat | 0 < lane < 25
      ensures KERNEL.Rot(x, Offset(lane)) == FIPS.Rot(x, Offset(lane))
    {
      OffsetRotates(x, lane, 0);
    }
    AgreeingOps(KERNEL, FIPS, a, constants);
  }

  // ---- the round constants, section 3.2.5 ----

  /** One step of the 8-bit feedback register of Algorithm 5: R[j] is bit j. */
  function LfsrStep(r: bv8): bv8
  {
    (r << 1) ^ (if r & 0x80 == 0x80 then 0x71 else 0)
  }

  function Lfsr(t: nat): bv8
  {
    if t == 0 then 1 else LfsrStep(Lfsr(t - 1))
  }

  /** The constant of a round has bit 2^j - 1 equal to rc(j + 7 * round), for j from 0 to 6. */
  function RoundConstant(round: nat): bv64
  {
    ConstantFrom(Lfsr(7 * round))
  }

  /** Seven output bits of the register, spread over a lane. */
  function ConstantFrom(r: bv8): bv64
  {
    var r1 := LfsrStep(r);
    var r2 := LfsrStep(r1);
    var r3 := LfsrStep(r2);
    var r4 := LfsrStep(r3);
    var r5 := LfsrStep(r4);
    var r6 := LfsrStep(r5);
    ((r & 1) as bv64)
    | (((r1 & 1) as bv64) << 1)
    | (((r2 & 1) as bv64) << 3)
    | (((r3 & 1) as bv64) << 7)
    | (((r4 & 1) as bv64) << 15)
    | (((r5 & 1) as bv64) << 31)
    | (((r6 & 1) as bv64) << 63)
  }

  /** The kernel's table. */
  const RC: seq<bv64> := [
    0x0000000000000001, 0x0000000000008082, 0x800000000000808A, 0x8000000080008000,
    0x000000000000808B, 0x0000000080000001, 0x8000000080008081, 0x8000000000008009,
    0x000000000000008A, 0x0000000000000088, 0x0000000080008009, 0x000000008000000A,
    0x000000008000808B, 0x800000000000008B, 0x8000000000008089, 0x8000000000008003,
    0x8000000000008002, 0x8000000000000080, 0x000000000000800A, 0x800000008000000A,
    0x8000000080008081, 0x8000000000008080, 0x0000000080000001, 0x8000000080008008
  ]

  lemma SevenSteps(t: nat)
    ensures Lfsr(t + 7) ==
            LfsrStep(LfsrStep(LfsrStep(LfsrStep(LfsrStep(LfsrStep(LfsrStep(Lfsr(t))))))))
  {
    hide LfsrStep;
    assert Lfsr(t + 2) == LfsrStep(LfsrStep(Lfsr(t)));
    assert Lfsr(t + 4) == LfsrStep(LfsrStep(Lfsr(t + 2)));
    assert Lfsr(t + 6) == LfsrStep(LfsrStep(Lfsr(t + 4)));
  }

  ghost predicate RegisterAt(round: nat, r: bv8)
  {
    Lfsr(7 * round) == r
  }

  lemma NextRegister(round: nat, r: bv8, constant: bv64, next: bv8)
    requires RegisterAt(round, r)
    requires next == LfsrStep(LfsrStep(LfsrStep(LfsrStep(LfsrStep(LfsrStep(LfsrStep(r)))))))
    requires constant == ConstantFrom(r)
    ensures RegisterAt(round + 1, next) && RoundConstant(round) == constant
  {
    hide LfsrStep, Lfsr, ConstantFrom;
    SevenSteps(7 * round);
  }

  lemma ConstantsFrom0()
    ensures RegisterAt(4, 0xdf)
    ensures RoundConstant(0) == 0x0000000000000001 && RoundConstant(1) == 0x0000000000008082
    ensures RoundConstant(2) == 0x800000000000808A && RoundConstant(3) == 0x8000000080008000
  {
    assert RegisterAt(0, 0x01);
    hide RegisterAt, RoundConstant, Lfsr;
    NextRegister(0, 0x01, 0x0000000000000001, 0x80);
    NextRegister(1, 0x80, 0x0000000000008082, 0xd8);
    NextRegister(2, 0xd8, 0x800000000000808A, 0x1a);
    NextRegister(3, 0x1a, 0x8000000080008000, 0xdf);
  }

  lemma ConstantsFrom4()
    requires RegisterAt(4, 0xdf)
    ensures RegisterAt(8, 0xca)
    ensures RoundConstant(4) == 0x000000000000808B && RoundConstant(5) == 0x0000000080000001
    ensures RoundConstant(6) == 0x8000000080008081 && RoundConstant(7) == 0x8000000000008009
  {
    hide RegisterAt, RoundConstant, Lfsr;
    NextRegister(4, 0xdf, 0x000000000000808B, 0x09);
    NextRegister(5, 0x09, 0x0000000080000001, 0x35);
    NextRegister(6, 0x35, 0x8000000080008081, 0x4f);
    NextRegister(7, 0x4f, 0x8000000000008009, 0xca);
  }

  lemma ConstantsFrom8()
    requires RegisterAt(8, 0xca)
    ensures RegisterAt(12, 0xd5)
    ensures RoundConstant(8) == 0x000000000000008A && RoundConstant(9) == 0x0000000000000088
    ensures RoundConstant(10) == 0x0000000080008009 && RoundConstant(11) == 0x000000008000000A
  {
    hide RegisterAt, RoundConstant, Lfsr;
    NextRegister(8, 0xca, 0x000000000000008A, 0x70);
    NextRegister(9, 0x70, 0x0000000000000088, 0x41);
    NextRegister(10, 0x41, 0x0000000080008009, 0xec);
    NextRegister(11, 0xec, 0x000000008000000A, 0xd5);
  }

  lemma ConstantsFrom12()
    requires RegisterAt(12, 0xd5)
    ensures RegisterAt(16, 0xaa)
    ensures RoundConstant(12) == 0x000000008000808B && RoundConstant(13) == 0x800000000000008B
    ensures RoundConstant(14) == 0x8000000000008089 && RoundConstant(15) == 0x8000000000008003
  {
    hide RegisterAt, RoundConstant, Lfsr;
    NextRegister(12, 0xd5, 0x000000008000808B, 0xcd);
    NextRegister(13, 0xcd, 0x800000000000008B, 0x63);
    NextRegister(14, 0x63, 0x8000000000008089, 0xab);
    NextRegister(15, 0xab, 0x8000000000008003, 0xaa);
  }

  lemma ConstantsFrom16()
    requires RegisterAt(16, 0xaa)
    ensures RegisterAt(20, 0x37)
    ensures RoundConstant(16) == 0x8000000000008002 && RoundConstant(17) == 0x8000000000000080
    ensures RoundConstant(18) == 0x000000000000800A && RoundConstant(19) == 0x800000008000000A
  {
    hide RegisterAt, RoundConstant, Lfsr;
    NextRegister(16, 0xaa, 0x8000000000008002, 0x2a);
    NextRegister(17, 0x2a, 0x8000000000000080, 0xf2);
    NextRegister(18, 0xf2, 0x000000000000800A, 0xe8);
    NextRegister(19, 0xe8, 0x800000008000000A, 0x37);
  }

  lemma ConstantsFrom20()
    requires RegisterAt(20, 0x37)
    ensures RegisterAt(24, 0x8e)
    ensures RoundConstant(20) == 0x8000000080008081 && RoundConstant(21) == 0x8000000000008080
    ensures RoundConstant(22) == 0x0000000080000001 && RoundConstant(23) == 0x8000000080008008
  {
    hide RegisterAt, RoundConstant, Lfsr;
    NextRegister(20, 0x37, 0x8000000080008081, 0x3e);
    NextRegister(21, 0x3e, 0x8000000000008080, 0x0b);
    NextRegister(22, 0x0b, 0x0000000080000001, 0x44);
    NextRegister(23, 0x44, 0x8000000080008008, 0x8e);
  }

  /** The 24 round constants of the standard. */
  function RoundConstants(): (constants: seq<bv64>)
    ensures |constants| == 24
  {
    seq(24, (round: nat) => RoundConstant(round))
  }

  lemma ListOf24<T>(s: seq<T>, f: nat -> T)
    requires |s| == 24 && forall i :: 0 <= i < 24 ==> s[i] == f(i)
    ensures s ==
      [f(0), f(1), f(2), f(3), f(4), f(5), f(6), f(7),
       f(8), f(9), f(10), f(11), f(12), f(13), f(14), f(15),
       f(16), f(17), f(18), f(19), f(20), f(21), f(22), f(23)]
  {
  }

  /** The kernel's table holds the constants of the standard, in order. */
  lemma ConstantsFollowRegister()
    ensures RC == RoundConstants()
  {
    hide RegisterAt, RoundConstant, Lfsr;
    ConstantsFrom0();
    ConstantsFrom4();
    ConstantsFrom8();
    ConstantsFrom12();
    ConstantsFrom16();
    ConstantsFrom20();
    ListOf24(RoundConstants(), RoundConstant);
  }

  /** Keccak-f[1600] (section 3.4). */
  function KeccakF(a: seq<bv64>): (b: seq<bv64>)
    requires |a| == 25
    ensures |b| == 25
  {
    Rounds(FIPS, a, RoundConstants())
  }

  // ---- the step mappings bit by bit, as the standard writes them ----

  lemma XorBit(a: bv64, b: bv64, z: bv6)
    ensures Bit(FIPS.Xor(a, b), z) == (Bit(a, z) != Bit(b, z))
  {
    hide Bit;
    ExclusiveOrBit(a, b, z);
  }

  lemma ExclusiveOrBit(a: bv64, b: bv64, z: bv6)
    ensures Bit(a ^ b, z) == (Bit(a, z) != Bit(b, z))
  {
  }

  lemma AndNotBit(a: bv64, b: bv64, z: bv6)
    ensures Bit(FIPS.AndNot(a, b), z) == (!Bit(a, z) && Bit(b, z))
  {
    hide Bit;
    AndWithNotBit(a, b, z);
  }

  lemma AndWithNotBit(a: bv64, b: bv64, z: bv6)
    ensures Bit(!a & b, z) == (!Bit(a, z) && Bit(b, z))
  {
  }

  /** The parity C[x, z] of a column. */
  ghost predicate ColumnBit(a: seq<bv64>, x: nat, z: bv6)
    requires |a| == 25 && x < 5
  {
    (((Bit(a[x], z) != Bit(a[x + 5], z)) != Bit(a[x + 10], z)) != Bit(a[x + 15], z)) != Bit(a[x + 20], z)
  }

  lemma ColumnParityBit(a: seq<bv64>, x: nat, z: bv6)
    requires |a| == 25 && x < 5
    ensures Bit(ColumnParity(FIPS, a, x), z) == ColumnBit(a, x, z)
  {
    hide Bit, Ops.Xor;
    var p1 := FIPS.Xor(a[x], a[x + 5]);
    var p2 := FIPS.Xor(p1, a[x + 10]);
    var p3 := FIPS.Xor(p2, a[x + 15]);
    XorBit(a[x], a[x + 5], z);
    XorBit(p1, a[x + 10], z);
    XorBit(p2, a[x + 15], z);
    XorBit(p3, a[x + 20], z);
  }

  /** Theta: A'[x, y, z] = A[x, y, z] + C[x - 1, z] + C[x + 1, z - 1]. */
  lemma ThetaBits(a: seq<bv64>, x: nat, y: nat, z: bv6)
    requires |a| == 25 && x < 5 && y < 5
    ensures Bit(Theta(FIPS, a)[5 * y + x], z) ==
            ((Bit(a[5 * y + x], z) != ColumnBit(a, (x + 4) % 5, z)) != ColumnBit(a, (x + 1) % 5, z - 1))
  {
    hide Bit, Ops.Xor, Ops.Rot, ColumnParity, ColumnBit;
    Coordinates(x, y);
    var left, right := ColumnParity(FIPS, a, (x + 4) % 5), ColumnParity(FIPS, a, (x + 1) % 5);
    ColumnParityBit(a, (x + 4) % 5, z);
    ColumnParityBit(a, (x + 1) % 5, z - 1);
    RotBit(right, 1, z);
    XorBit(left, FIPS.Rot(right, 1), z);
    XorBit(a[5 * y + x], FIPS.Xor(left, FIPS.Rot(right, 1)), z);
  }

  lemma RotBit(a: bv64, lane: nat, z: bv6)
    requires 0 < lane < 25
    ensures Bit(FIPS.Rot(a, Offset(lane)), z) == Bit(a, z - Offset(lane))
  {
    hide Bit, Rotated, RolBy, Offset;
    OffsetRotates(a, lane, z);
  }

  /** Rho: A'[x, y, z] = A[x, y, z - offset]. */
  lemma RhoBits(a: seq<bv64>, lane: nat, z: bv6)
    requires |a| == 25 && lane < 25
    ensures Bit(Rho(FIPS, a)[lane], z) == Bit(a[lane], z - Offset(lane))
  {
    if lane > 0 {
      hide Bit, Ops.Rot, Offset;
      RotBit(a[lane], lane, z);
    }
  }

  /** Pi: A'[x, y, z] = A[x + 3y, x, z]. */
  lemma PiBits(a: seq<bv64>, x: nat, y: nat, z: bv6)
    requires |a| == 25 && x < 5 && y < 5
    ensures Bit(Pi(a)[5 * y + x], z) == Bit(a[5 * x + (x + 3 * y) % 5], z)
  {
    hide Bit, Pi;
    PiAt(a, x, y);
  }

  /** Chi: A'[x, y, z] = A[x, y, z] + (A[x + 1, y, z] + 1) * A[x + 2, y, z]. */
  lemma ChiBits(a: seq<bv64>, x: nat, y: nat, z: bv6)
    requires |a| == 25 && x < 5 && y < 5
    ensures Bit(Chi(FIPS, a)[5 * y + x], z) ==
            (Bit(a[5 * y + x], z) != (!Bit(a[5 * y + (x + 1) % 5], z) && Bit(a[5 * y + (x + 2) % 5], z)))
  {
    hide Bit, Ops.Xor, Ops.AndNot;
    Coordinates(x, y);
    var b, c := a[5 * y + (x + 1) % 5], a[5 * y + (x + 2) % 5];
    AndNotBit(b, c, z);
    XorBit(a[5 * y + x], FIPS.AndNot(b, c), z);
  }

  /** Iota: only lane (0, 0) changes, by the bits of the round constant. */
  lemma IotaBits(a: seq<bv64>, constant: bv64, lane: nat, z: bv6)
    requires |a| == 25 && lane < 25
    ensures Bit(Iota(FIPS, a, constant)[lane], z) ==
            if lane == 0 then Bit(a[0], z) != Bit(constant, z) else Bit(a[lane], z)
  {
    hide Bit, Ops.Xor;
    XorBit(a[0], constant, z);
  }
}
