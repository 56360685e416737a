/** The Keccak-f[1600] permutation of FIPS 202.

    A state is 25 lanes; lane (x, y) is at index 5 * y + x (section 3.1). The step mappings are
    written over any type of lane with the three lane operations they use. */
module Keccak {

  datatype Ops<!T> = Ops(
    xor: (T, T) -> T,
    andNot: (T, T) -> T,  // (not a) and b
    rot: (T, bv6) -> T    // rotation towards higher z
  ) {
    function Xor(a: T, b: T): T { xor(a, b) }

    function AndNot(a: T, b: T): T { andNot(a, b) }

    function Rot(a: T, n: bv6): T { rot(a, n) }
  }

  // ---- the step mappings, sections 3.2.1 to 3.2.5 ----

  function Xor5<T>(ops: Ops<T>, a: T, b: T, c: T, d: T, e: T): T
  {
    ops.Xor(ops.Xor(ops.Xor(ops.Xor(a, b), c), d), e)
  }

  function ColumnParity<T>(ops: Ops<T>, a: seq<T>, x: nat): T
    requires |a| == 25 && x < 5
  {
    Xor5(ops, a[x], a[x + 5], a[x + 10], a[x + 15], a[x + 20])
  }

  function ColumnEffect<T>(ops: Ops<T>, a: seq<T>, x: nat): T
    requires |a| == 25 && x < 5
  {
    ops.Xor(ColumnParity(ops, a, (x + 4) % 5), ops.Rot(ColumnParity(ops, a, (x + 1) % 5), 1))
  }

  function Theta<T>(ops: Ops<T>, a: seq<T>): (b: seq<T>)
    requires |a| == 25
    ensures |b| == 25
  {
    seq(25, i requires 0 <= i < 25 => ops.Xor(a[i], ColumnEffect(ops, a, i % 5)))
  }

  /** The rotation offset of the lane at an index: Table 2 of FIPS 202 modulo 64. */
  function Offset(lane: nat): bv6
  {
    match lane
    case 0 => 0 case 1 => 1 case 2 => 62 case 3 => 28 case 4 => 27
    case 5 => 36 case 6 => 44 case 7 => 6 case 8 => 55 case 9 => 20
    case 10 => 3 case 11 => 10 case 12 => 43 case 13 => 25 case 14 => 39
    case 15 => 41 case 16 => 45 case 17 => 15 case 18 => 21 case 19 => 8
    case 20 => 18 case 21 => 2 case 22 => 61 case 23 => 56 case 24 => 14
    case _ => 0
  }

  function RhoLane<T>(ops: Ops<T>, a: seq<T>, lane: nat): T
    requires |a| == 25 && lane < 25
  {
    if lane == 0 then a[0] else ops.Rot(a[lane], Offset(lane))
  }

  function Rho<T>(ops: Ops<T>, a: seq<T>): (b: seq<T>)
    requires |a| == 25
    ensures |b| == 25
  {
    seq(25, i requires 0 <= i < 25 => RhoLane(ops, a, i))
  }

  /** Lane (x, y) is taken from lane (x + 3y, x). */
  function PiSource(x: nat, y: nat): (lane: nat)
    requires x < 5 && y < 5
    ensures lane < 25
  {
    5 * x + (x + 3 * y) % 5
  }

  function Pi<T>(a: seq<T>): (b: seq<T>)
    requires |a| == 25
    ensures |b| == 25
  {
    [a[PiSource(0, 0)], a[PiSource(1, 0)], a[PiSource(2, 0)], a[PiSource(3, 0)], a[PiSource(4, 0)],
     a[PiSource(0, 1)], a[PiSource(1, 1)], a[PiSource(2, 1)], a[PiSource(3, 1)], a[PiSource(4, 1)],
     a[PiSource(0, 2)], a[PiSource(1, 2)], a[PiSource(2, 2)], a[PiSource(3, 2)], a[PiSource(4, 2)],
     a[PiSource(0, 3)], a[PiSource(1, 3)], a[PiSource(2, 3)], a[PiSource(3, 3)], a[PiSource(4, 3)],
     a[PiSource(0, 4)], a[PiSource(1, 4)], a[PiSource(2, 4)], a[PiSource(3, 4)], a[PiSource(4, 4)]]
  }

  lemma PiAt<T>(a: seq<T>, x: nat, y: nat)
    requires |a| == 25 && x < 5 && y < 5
    ensures Pi(a)[5 * y + x] == a[PiSource(x, y)]
  {
    hide PiSource;
    assert y == 0 || y == 1 || y == 2 || y == 3 || y == 4;
    assert x == 0 || x == 1 || x == 2 || x == 3 || x == 4;
  }

  function ChiLane<T>(ops: Ops<T>, a: seq<T>, x: nat, y: nat): T
    requires |a| == 25 && x < 5 && y < 5
  {
    ops.Xor(a[5 * y + x], ops.AndNot(a[5 * y + (x + 1) % 5], a[5 * y + (x + 2) % 5]))
  }

  function Chi<T>(ops: Ops<T>, a: seq<T>): (b: seq<T>)
    requires |a| == 25
    ensures |b| == 25
  {
    seq(25, i requires 0 <= i < 25 => ChiLane(ops, a, i % 5, i / 5))
  }

  lemma Coordinates(x: nat, y: nat)
    requires x < 5 && y < 5
    ensures (5 * y + x) % 5 == x && (5 * y + x) / 5 == y
  {
  }

  function Iota<T>(ops: Ops<T>, a: seq<T>, constant: T): (b: seq<T>)
    requires |a| == 25
    ensures |b| == 25
  {
    a[0 := ops.Xor(a[0], constant)]
  }

  /** The round function of section 3.3. */
  function Rnd<T>(ops: Ops<T>, a: seq<T>, constant: T): (b: seq<T>)
    requires |a| == 25
    ensures |b| == 25
  {
    Iota(ops, Chi(ops, Pi(Rho(ops, Theta(ops, a)))), constant)
  }

  /** One round for each constant, in order; the 24 constants make Keccak-f[1600] (section 3.4). */
  function Rounds<T>(ops: Ops<T>, a: seq<T>, constants: seq<T>): (b: seq<T>)
    requires |a| == 25
    ensures |b| == 25
  {
    if constants == [] then a
    else
      var last := |constants| - 1;
      Rnd(ops, Rounds(ops, a, constants[..last]), constants[last])
  }

  // ---- the rotation offsets, section 3.2.2 ----

  /** Where the walk stands: the lane, and the counter t + 1 and the offset
      1 + 2 + ... + (t + 1) = (t + 1)(t + 2) / 2, both modulo 64. */
  datatype Walk = Walk(x: nat, y: nat, count: bv6, offset: bv6)

  /** The walk (x, y) := (y, 2x + 3y) from (1, 0). */
  function RhoWalk(t: nat): Walk
  {
    if t == 0 then Walk(1, 0, 1, 1)
    else
      var w := RhoWalk(t - 1);
      Walk(w.y, (2 * w.x + 3 * w.y) % 5, w.count + 1, w.offset + (w.count + 1))
  }

  lemma WalkOn(t: nat, w: Walk)
    requires RhoWalk(t) == w
    ensures RhoWalk(t + 1) == Walk(w.y, (2 * w.x + 3 * w.y) % 5, w.count + 1, w.offset + (w.count + 1))
  {
  }

  ghost predicate Visits(t: nat, w: Walk)
  {
    RhoWalk(t) == w && w.x < 5 && w.y < 5 && w.offset == Offset(5 * w.y + w.x)
  }

  lemma WalkFirstHalf()
    ensures Visits(0, Walk(1, 0, 1, 1)) && Visits(1, Walk(0, 2, 2, 3))
    ensures Visits(2, Walk(2, 1, 3, 6)) && Visits(3, Walk(1, 2, 4, 10))
    ensures Visits(4, Walk(2, 3, 5, 15)) && Visits(5, Walk(3, 3, 6, 21))
    ensures Visits(6, Walk(3, 0, 7, 28)) && Visits(7, Walk(0, 1, 8, 36))
    ensures Visits(8, Walk(1, 3, 9, 45)) && Visits(9, Walk(3, 1, 10, 55))
    ensures Visits(10, Walk(1, 4, 11, 2)) && Visits(11, Walk(4, 4, 12, 14))
  {
    assert RhoWalk(0) == Walk(1, 0, 1, 1);
    hide RhoWalk;
    WalkOn(0, Walk(1, 0, 1, 1));
    WalkOn(1, Walk(0, 2, 2, 3));
    WalkOn(2, Walk(2, 1, 3, 6));
    WalkOn(3, Walk(1, 2, 4, 10));
    WalkOn(4, Walk(2, 3, 5, 15));
    WalkOn(5, Walk(3, 3, 6, 21));
    WalkOn(6, Walk(3, 0, 7, 28));
    WalkOn(7, Walk(0, 1, 8, 36));
    WalkOn(8, Walk(1, 3, 9, 45));
    WalkOn(9, Walk(3, 1, 10, 55));
    WalkOn(10, Walk(1, 4, 11, 2));
  }

  /** The walk visits every lane but (0, 0) in 24 steps, and finds the tabled offsets. */
  lemma WalkGivesOffsets()
    ensures Visits(0, Walk(1, 0, 1, 1)) && Visits(1, Walk(0, 2, 2, 3))
    ensures Visits(2, Walk(2, 1, 3, 6)) && Visits(3, Walk(1, 2, 4, 10))
    ensures Visits(4, Walk(2, 3, 5, 15)) && Visits(5, Walk(3, 3, 6, 21))
    ensures Visits(6, Walk(3, 0, 7, 28)) && Visits(7, Walk(0, 1, 8, 36))
    ensures Visits(8, Walk(1, 3, 9, 45)) && Visits(9, Walk(3, 1, 10, 55))
    ensures Visits(10, Walk(1, 4, 11, 2)) && Visits(11, Walk(4, 4, 12, 14))
    ensures Visits(12, Walk(4, 0, 13, 27)) && Visits(13, Walk(0, 3, 14, 41))
    ensures Visits(14, Walk(3, 4, 15, 56)) && Visits(15, Walk(4, 3, 16, 8))
    ensures Visits(16, Walk(3, 2, 17, 25)) && Visits(17, Walk(2, 2, 18, 43))
    ensures Visits(18, Walk(2, 0, 19, 62)) && Visits(19, Walk(0, 4, 20, 18))
    ensures Visits(20, Walk(4, 2, 21, 39)) && Visits(21, Walk(2, 4, 22, 61))
    ensures Visits(22, Walk(4, 1, 23, 20)) && Visits(23, Walk(1, 1, 24, 44))
  {
    hide Visits;
    WalkFirstHalf();
    WalkSecondHalf();
  }

  lemma WalkSecondHalf()
    ensures Visits(12, Walk(4, 0, 13, 27)) && Visits(13, Walk(0, 3, 14, 41))
    ensures Visits(14, Walk(3, 4, 15, 56)) && Visits(15, Walk(4, 3, 16, 8))
    ensures Visits(16, Walk(3, 2, 17, 25)) && Visits(17, Walk(2, 2, 18, 43))
    ensures Visits(18, Walk(2, 0, 19, 62)) && Visits(19, Walk(0, 4, 20, 18))
    ensures Visits(20, Walk(4, 2, 21, 39)) && Visits(21, Walk(2, 4, 22, 61))
    ensures Visits(22, Walk(4, 1, 23, 20)) && Visits(23, Walk(1, 1, 24, 44))
  {
    WalkFirstHalf();
    hide RhoWalk;
    WalkOn(11, Walk(4, 4, 12, 14));
    WalkOn(12, Walk(4, 0, 13, 27));
    WalkOn(13, Walk(0, 3, 14, 41));
    WalkOn(14, Walk(3, 4, 15, 56));
    WalkOn(15, Walk(4, 3, 16, 8));
    WalkOn(16, Walk(3, 2, 17, 25));
    WalkOn(17, Walk(2, 2, 18, 43));
    WalkOn(18, Walk(2, 0, 19, 62));
    WalkOn(19, Walk(0, 4, 20, 18));
    WalkOn(20, Walk(4, 2, 21, 39));
    WalkOn(21, Walk(2, 4, 22, 61));
    WalkOn(22, Walk(4, 1, 23, 20));
  }

  // ---- operations that agree give the same permutation ----

  ghost predicate Agree<T(!new)>(o: Ops<T>, p: Ops<T>)
  {
    && (forall a, b :: o.Xor(a, b) == p.Xor(a, b))
    && (forall a, b :: o.AndNot(a, b) == p.AndNot(a, b))
    && (forall a, lane: nat :: 0 < lane < 25 ==> o.Rot(a, Offset(lane)) == p.Rot(a, Offset(lane)))
  }

  lemma {:induction false} AgreeingOps<T(!new)>(o: Ops<T>, p: Ops<T>, a: seq<T>, constants: seq<T>)
    requires |a| == 25 && Agree(o, p)
    ensures Rounds(o, a, constants) == Rounds(p, a, constants)
  {
    if constants != [] {
      var last := |constants| - 1;
      AgreeingOps(o, p, a, constants[..last]);
      AgreeingRound(o, p, Rounds(p, a, constants[..last]), constants[last]);
    }
  }

  lemma AgreeingRound<T(!new)>(o: Ops<T>, p: Ops<T>, a: seq<T>, constant: T)
    requires |a| == 25 && Agree(o, p)
    ensures Rnd(o, a, constant) == Rnd(p, a, constant)
  {
    hide Theta, Rho, Pi, Chi, Ops.Xor, Ops.AndNot, Ops.Rot;
    AgreeingTheta(o, p, a);
    AgreeingRho(o, p, Theta(p, a));
    AgreeingChi(o, p, Pi(Rho(p, Theta(p, a))));
  }

  lemma AgreeingRho<T(!new)>(o: Ops<T>, p: Ops<T>, a: seq<T>)
    requires |a| == 25 && Agree(o, p)
    ensures Rho(o, a) == Rho(p, a)
  {
    hide Ops.Xor, Ops.AndNot, Ops.Rot, Offset;
  }

  lemma AgreeingChi<T(!new)>(o: Ops<T>, p: Ops<T>, a: seq<T>)
    requires |a| == 25 && Agree(o, p)
    ensures Chi(o, a) == Chi(p, a)
  {
    hide Ops.Xor, Ops.AndNot, Ops.Rot, Offset;
  }

  lemma AgreeingTheta<T(!new)>(o: Ops<T>, p: Ops<T>, a: seq<T>)
    requires |a| == 25 && Agree(o, p)
    ensures Theta(o, a) == Theta(p, a)
  {
    assert Offset(1) == 1;
    hide Ops.Xor, Ops.AndNot, Ops.Rot, Offset;
  }
}
