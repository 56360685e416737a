/** The unrolled in-place permutation of the mining kernel (keccak_grinder.cu, keccak_device.cuh). */
module KeccakKernel {
  import opened Keccak

  /** st[x], st[x + 5], ..., st[x + 20] ^= t. */
  method XorColumn<T>(ops: Ops<T>, st: array<T>, x: nat, t: T)
    requires st.Length == 25 && x < 5
    modifies st
    ensures st[..] == XorLanes(ops, old(st[..]), x, t)
  {
    hide Ops.Xor;
    st[x] := ops.Xor(st[x], t);
    st[x + 5] := ops.Xor(st[x + 5], t);
    st[x + 10] := ops.Xor(st[x + 10], t);
    st[x + 15] := ops.Xor(st[x + 15], t);
    st[x + 20] := ops.Xor(st[x + 20], t);
  }

  ghost function XorLanes<T>(ops: Ops<T>, a: seq<T>, x: nat, t: T): (b: seq<T>)
    requires |a| == 25 && x < 5
    ensures |b| == 25
  {
    seq(25, i requires 0 <= i < 25 => if i % 5 == x then ops.Xor(a[i], t) else a[i])
  }

  method ThetaInPlace<T>(ops: Ops<T>, st: array<T>)
    requires st.Length == 25
    modifies st
    ensures st[..] == Theta(ops, old(st[..]))
  {
    hide Ops.Xor, Ops.Rot, XorLanes, Theta;
    ghost var a := st[..];
    var bc0 := Xor5(ops, st[0], st[5], st[10], st[15], st[20]);
    var bc1 := Xor5(ops, st[1], st[6], st[11], st[16], st[21]);
    var bc2 := Xor5(ops, st[2], st[7], st[12], st[17], st[22]);
    var bc3 := Xor5(ops, st[3], st[8], st[13], st[18], st[23]);
    var bc4 := Xor5(ops, st[4], st[9], st[14], st[19], st[24]);
    XorColumn(ops, st, 0, ops.Xor(bc4, ops.Rot(bc1, 1)));
    XorColumn(ops, st, 1, ops.Xor(bc0, ops.Rot(bc2, 1)));
    XorColumn(ops, st, 2, ops.Xor(bc1, ops.Rot(bc3, 1)));
    XorColumn(ops, st, 3, ops.Xor(bc2, ops.Rot(bc4, 1)));
    XorColumn(ops, st, 4, ops.Xor(bc3, ops.Rot(bc0, 1)));
    ThetaByColumns(ops, a);
  }

  lemma ThetaByColumns<T>(ops: Ops<T>, a: seq<T>)
    requires |a| == 25
    ensures var b0 := XorLanes(ops, a, 0, ColumnEffect(ops, a, 0));
            var b1 := XorLanes(ops, b0, 1, ColumnEffect(ops, a, 1));
            var b2 := XorLanes(ops, b1, 2, ColumnEffect(ops, a, 2));
            var b3 := XorLanes(ops, b2, 3, ColumnEffect(ops, a, 3));
            XorLanes(ops, b3, 4, ColumnEffect(ops, a, 4)) == Theta(ops, a)
  {
    hide Ops.Xor, ColumnEffect;
  }

  // ---- rho and pi ----

  /** tmp = st[dst]; st[dst] = ROL64(t, n). */
  method MoveLane<T>(ops: Ops<T>, st: array<T>, dst: nat, t: T, n: bv6) returns (tmp: T)
    requires st.Length == 25 && dst < 25
    modifies st
    ensures (st[..], tmp) == Move(ops, (old(st[..]), t), dst, n)
  {
    tmp := st[dst];
    st[dst] := ops.Rot(t, n);
  }

  ghost function Move<T>(ops: Ops<T>, s: (seq<T>, T), dst: nat, n: bv6): (r: (seq<T>, T))
    requires |s.0| == 25 && dst < 25
    ensures |r.0| == 25
  {
    (s.0[dst := ops.Rot(s.1, n)], s.0[dst])
  }

  /** One chain of 24 moves performs rho and pi together. */
  method RhoPiInPlace<T>(ops: Ops<T>, st: array<T>)
    requires st.Length == 25
    modifies st
    ensures st[..] == Pi(Rho(ops, old(st[..])))
  {
    hide Ops.Rot, Pi, Rho, Move;
    ghost var a := st[..];
    var t := st[1];
    t := MoveLane(ops, st, 10, t, 1);
    t := MoveLane(ops, st, 7, t, 3);
    t := MoveLane(ops, st, 11, t, 6);
    t := MoveLane(ops, st, 17, t, 10);
    t := MoveLane(ops, st, 18, t, 15);
    t := MoveLane(ops, st, 3, t, 21);
    t := MoveLane(ops, st, 5, t, 28);
    t := MoveLane(ops, st, 16, t, 36);
    t := MoveLane(ops, st, 8, t, 45);
    t := MoveLane(ops, st, 21, t, 55);
    t := MoveLane(ops, st, 24, t, 2);
    t := MoveLane(ops, st, 4, t, 14);
    t := MoveLane(ops, st, 15, t, 27);
    t := MoveLane(ops, st, 23, t, 41);
    t := MoveLane(ops, st, 19, t, 56);
    t := MoveLane(ops, st, 13, t, 8);
    t := MoveLane(ops, st, 12, t, 25);
    t := MoveLane(ops, st, 2, t, 43);
    t := MoveLane(ops, st, 20, t, 62);
    t := MoveLane(ops, st, 14, t, 18);
    t := MoveLane(ops, st, 22, t, 39);
    t := MoveLane(ops, st, 9, t, 61);
    t := MoveLane(ops, st, 6, t, 20);
    t := MoveLane(ops, st, 1, t, 44);
    RhoPiChain(ops, a);
  }

  ghost function RhoPiMoves<T>(ops: Ops<T>, a: seq<T>): (b: seq<T>)
    requires |a| == 25
    ensures |b| == 25
  {
    var s := (a, a[1]);
    var s := Move(ops, s, 10, 1);
    var s := Move(ops, s, 7, 3);
    var s := Move(ops, s, 11, 6);
    var s := Move(ops, s, 17, 10);
    var s := Move(ops, s, 18, 15);
    var s := Move(ops, s, 3, 21);
    var s := Move(ops, s, 5, 28);
    var s := Move(ops, s, 16, 36);
    var s := Move(ops, s, 8, 45);
    var s := Move(ops, s, 21, 55);
    var s := Move(ops, s, 24, 2);
    var s := Move(ops, s, 4, 14);
    var s := Move(ops, s, 15, 27);
    var s := Move(ops, s, 23, 41);
    var s := Move(ops, s, 19, 56);
    var s := Move(ops, s, 13, 8);
    var s := Move(ops, s, 12, 25);
    var s := Move(ops, s, 2, 43);
    var s := Move(ops, s, 20, 62);
    var s := Move(ops, s, 14, 18);
    var s := Move(ops, s, 22, 39);
    var s := Move(ops, s, 9, 61);
    var s := Move(ops, s, 6, 20);
    var s := Move(ops, s, 1, 44);
    s.0
  }

  lemma RhoPiChain<T>(ops: Ops<T>, a: seq<T>)
    requires |a| == 25
    ensures RhoPiMoves(ops, a) == Pi(Rho(ops, a))
  {
    hide Ops.Rot, Offset, RhoPiMoves, Pi, Rho;
    ChainMoves(ops, a);
    RhoPiLanes(ops, a);
  }

  /** The lanes after the chain, row by row. */
  lemma ChainMoves<T>(ops: Ops<T>, a: seq<T>)
    requires |a| == 25
    ensures RhoPiMoves(ops, a) == RhoPiTable(ops, a)
  {
    hide Ops.Rot;
  }

  ghost function RhoPiTable<T>(ops: Ops<T>, a: seq<T>): (b: seq<T>)
    requires |a| == 25
    ensures |b| == 25
  {
      [a[0], ops.Rot(a[6], 44), ops.Rot(a[12], 43), ops.Rot(a[18], 21), ops.Rot(a[24], 14),
       ops.Rot(a[3], 28), ops.Rot(a[9], 20), ops.Rot(a[10], 3), ops.Rot(a[16], 45), ops.Rot(a[22], 61),
       ops.Rot(a[1], 1), ops.Rot(a[7], 6), ops.Rot(a[13], 25), ops.Rot(a[19], 8), ops.Rot(a[20], 18),
       ops.Rot(a[4], 27), ops.Rot(a[5], 36), ops.Rot(a[11], 10), ops.Rot(a[17], 15), ops.Rot(a[23], 56),
       ops.Rot(a[2], 62), ops.Rot(a[8], 55), ops.Rot(a[14], 39), ops.Rot(a[15], 41), ops.Rot(a[21], 2)]
  }

  lemma RhoPiLanes<T>(ops: Ops<T>, a: seq<T>)
    requires |a| == 25
    ensures RhoPiTable(ops, a) == Pi(Rho(ops, a))
  {
    hide Ops.Rot, Pi, Rho;
    var b := Rho(ops, a);
    RhoTable(ops, a, b);
    PiTable(b);
  }

  lemma RhoTable<T>(ops: Ops<T>, a: seq<T>, b: seq<T>)
    requires |a| == 25 && b == Rho(ops, a)
    ensures |b| == 25 && b[0] == a[0]
    ensures b[1] == ops.Rot(a[1], 1) && b[2] == ops.Rot(a[2], 62) && b[3] == ops.Rot(a[3], 28)
    ensures b[4] == ops.Rot(a[4], 27) && b[5] == ops.Rot(a[5], 36) && b[6] == ops.Rot(a[6], 44)
    ensures b[7] == ops.Rot(a[7], 6) && b[8] == ops.Rot(a[8], 55) && b[9] == ops.Rot(a[9], 20)
    ensures b[10] == ops.Rot(a[10], 3) && b[11] == ops.Rot(a[11], 10) && b[12] == ops.Rot(a[12], 43)
    ensures b[13] == ops.Rot(a[13], 25) && b[14] == ops.Rot(a[14], 39) && b[15] == ops.Rot(a[15], 41)
    ensures b[16] == ops.Rot(a[16], 45) && b[17] == ops.Rot(a[17], 15) && b[18] == ops.Rot(a[18], 21)
    ensures b[19] == ops.Rot(a[19], 8) && b[20] == ops.Rot(a[20], 18) && b[21] == ops.Rot(a[21], 2)
    ensures b[22] == ops.Rot(a[22], 61) && b[23] == ops.Rot(a[23], 56) && b[24] == ops.Rot(a[24], 14)
  {
    hide Ops.Rot;
  }

  lemma PiTable<T>(a: seq<T>)
    requires |a| == 25
    ensures Pi(a) ==
      [a[0], a[6], a[12], a[18], a[24],
       a[3], a[9], a[10], a[16], a[22],
       a[1], a[7], a[13], a[19], a[20],
       a[4], a[5], a[11], a[17], a[23],
       a[2], a[8], a[14], a[15], a[21]]
  {
    hide PiSource;
    PiSourceIs(0, 0, 0); PiSourceIs(1, 0, 0); PiSourceIs(2, 0, 0); PiSourceIs(3, 0, 0); PiSourceIs(4, 0, 0);
    PiSourceIs(0, 1, 0); PiSourceIs(1, 1, 0); PiSourceIs(2, 1, 1); PiSourceIs(3, 1, 1); PiSourceIs(4, 1, 1);
    PiSourceIs(0, 2, 1); PiSourceIs(1, 2, 1); PiSourceIs(2, 2, 1); PiSourceIs(3, 2, 1); PiSourceIs(4, 2, 2);
    PiSourceIs(0, 3, 1); PiSourceIs(1, 3, 2); PiSourceIs(2, 3, 2); PiSourceIs(3, 3, 2); PiSourceIs(4, 3, 2);
    PiSourceIs(0, 4, 2); PiSourceIs(1, 4, 2); PiSourceIs(2, 4, 2); PiSourceIs(3, 4, 3); PiSourceIs(4, 4, 3);
  }

  lemma PiSourceIs(x: nat, y: nat, k: nat)
    requires x < 5 && y < 5 && 5 * k <= x + 3 * y < 5 * k + 5
    ensures PiSource(x, y) == 5 * x + (x + 3 * y - 5 * k)
  {
  }

  // ---- chi ----

  /** One row: st[i] = bc[i] ^ (~bc[i + 1] & bc[i + 2]). */
  method ChiRow<T>(ops: Ops<T>, st: array<T>, row: nat)
    requires st.Length == 25 && row < 5
    modifies st
    ensures st[..] == RowReplaced(old(st[..]), Chi(ops, old(st[..])), row)
  {
    hide Ops.Xor, Ops.AndNot, Chi;
    ghost var a := st[..];
    var base := 5 * row;
    var bc0, bc1, bc2, bc3, bc4 := st[base], st[base + 1], st[base + 2], st[base + 3], st[base + 4];
    st[base] := ops.Xor(bc0, ops.AndNot(bc1, bc2));
    st[base + 1] := ops.Xor(bc1, ops.AndNot(bc2, bc3));
    st[base + 2] := ops.Xor(bc2, ops.AndNot(bc3, bc4));
    st[base + 3] := ops.Xor(bc3, ops.AndNot(bc4, bc0));
    st[base + 4] := ops.Xor(bc4, ops.AndNot(bc0, bc1));
    ChiOfRow(ops, a, row);
  }

  ghost function RowReplaced<T>(a: seq<T>, b: seq<T>, row: nat): (c: seq<T>)
    requires |a| == |b| == 25 && row < 5
    ensures |c| == 25
  {
    a[..5 * row] + b[5 * row..5 * row + 5] + a[5 * row + 5..]
  }

  lemma ChiOfRow<T>(ops: Ops<T>, a: seq<T>, row: nat)
    requires |a| == 25 && row < 5
    ensures var base := 5 * row;
            Chi(ops, a)[base..base + 5] ==
            [ops.Xor(a[base], ops.AndNot(a[base + 1], a[base + 2])),
             ops.Xor(a[base + 1], ops.AndNot(a[base + 2], a[base + 3])),
             ops.Xor(a[base + 2], ops.AndNot(a[base + 3], a[base + 4])),
             ops.Xor(a[base + 3], ops.AndNot(a[base + 4], a[base])),
             ops.Xor(a[base + 4], ops.AndNot(a[base], a[base + 1]))]
  {
    hide Ops.Xor, Ops.AndNot, Chi;
    ChiAt(ops, a, 0, row);
    ChiAt(ops, a, 1, row);
    ChiAt(ops, a, 2, row);
    ChiAt(ops, a, 3, row);
    ChiAt(ops, a, 4, row);
  }

  lemma ChiAt<T>(ops: Ops<T>, a: seq<T>, x: nat, y: nat)
    requires |a| == 25 && x < 5 && y < 5
    ensures Chi(ops, a)[5 * y + x] == ChiLane(ops, a, x, y)
  {
    hide ChiLane;
    Coordinates(x, y);
  }

  method ChiInPlace<T>(ops: Ops<T>, st: array<T>)
    requires st.Length == 25
    modifies st
    ensures st[..] == Chi(ops, old(st[..]))
  {
    hide Chi, RowReplaced;
    ghost var a := st[..];
    RowDone(ops, a, a, 0);
    ChiRow(ops, st, 0);
    RowDone(ops, a, st[..], 1);
    ChiRow(ops, st, 1);
    RowDone(ops, a, st[..], 2);
    ChiRow(ops, st, 2);
    RowDone(ops, a, st[..], 3);
    ChiRow(ops, st, 3);
    RowDone(ops, a, st[..], 4);
    ChiRow(ops, st, 4);
  }

  /** Rewriting one more row: rows are independent. */
  lemma RowDone<T>(ops: Ops<T>, a: seq<T>, b: seq<T>, row: nat)
    requires |a| == 25 && row < 5 && b == Chi(ops, a)[..5 * row] + a[5 * row..]
    ensures RowReplaced(b, Chi(ops, b), row) == Chi(ops, a)[..5 * row + 5] + a[5 * row + 5..]
  {
    hide Chi;
    ChiOfRow(ops, a, row);
    ChiOfRow(ops, b, row);
    var c := Chi(ops, a);
    assert c[..5 * row] + c[5 * row..5 * row + 5] == c[..5 * row + 5];
  }

  // ---- 24 rounds ----

  method KeccakF1600InPlace<T>(ops: Ops<T>, st: array<T>, constants: seq<T>)
    requires st.Length == 25 && |constants| == 24
    modifies st
    ensures st[..] == Rounds(ops, old(st[..]), constants)
  {
    hide Theta, Rho, Pi, Chi, Iota;
    ghost var a := st[..];
    for r := 0 to 24
      invariant st[..] == Rounds(ops, a, constants[..r])
    {
      ghost var before := st[..];
      ThetaInPlace(ops, st);
      RhoPiInPlace(ops, st);
      ChiInPlace(ops, st);
      IotaInPlace(ops, st, constants[r]);
      assert st[..] == Rnd(ops, before, constants[r]);
      assert constants[..r + 1][..r] == constants[..r];
    }
    assert constants[..24] == constants;
  }

  method IotaInPlace<T>(ops: Ops<T>, st: array<T>, constant: T)
    requires st.Length == 25
    modifies st
    ensures st[..] == Iota(ops, old(st[..]), constant)
  {
    st[0] := ops.Xor(st[0], constant);
  }
}
