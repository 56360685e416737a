/** Keccak-256 bit by bit: one round as an equation between the bits of two states, the permutation as a
    chain of 24 of them, and the digest of a message, block after block, read off the last state. */
module KeccakBits {
  import opened Encoding
  import opened Keccak
  import opened Lanes
  import opened Sponge

  /** Bit (x, y, z) of a state. */
  ghost predicate StateBit(a: State, x: nat, y: nat, z: bv6)
    requires x < 5 && y < 5
  {
    Bit(a[5 * y + x], z)
  }

  /** The parity of column (x, z). */
  ghost predicate Column(a: State, x: nat, z: bv6)
    requires x < 5
  {
    ((((StateBit(a, x, 0, z) != StateBit(a, x, 1, z)) != StateBit(a, x, 2, z)) != StateBit(a, x, 3, z))
     != StateBit(a, x, 4, z))
  }

  /** A bit with the parities of the columns beside it (section 3.2.1). */
  ghost predicate Diffused(a: State, x: nat, y: nat, z: bv6)
    requires x < 5 && y < 5
  {
    (StateBit(a, x, y, z) != Column(a, (x + 4) % 5, z)) != Column(a, (x + 1) % 5, z - 1)
  }

  /** The bit that arrives at (x, y, z): it comes from lane (x + 3y, x), from as far down that lane as the
      lane's offset (sections 3.2.2 and 3.2.3). */
  ghost predicate Moved(a: State, x: nat, y: nat, z: bv6)
    requires x < 5 && y < 5
  {
    var from := (x + 3 * y) % 5;
    Diffused(a, from, x, z - Offset(5 * x + from))
  }

  /** Bit (x, y, z) after a round, in bits of the state before it (section 3.3): a bit, added to the product
      of the complement of the next bit of its row and the one after, and to the constant in lane (0, 0). */
  ghost predicate AfterRound(a: State, constant: bv64, x: nat, y: nat, z: bv6)
    requires x < 5 && y < 5
  {
    var mixed := Moved(a, x, y, z) != (!Moved(a, (x + 1) % 5, y, z) && Moved(a, (x + 2) % 5, y, z));
    mixed != (x == 0 && y == 0 && Bit(constant, z))
  }

  lemma ColumnIs(a: State, x: nat, z: bv6)
    requires x < 5
    ensures Column(a, x, z) == ColumnBit(a, x, z)
  {
    hide Bit;
  }

  lemma ThetaGives(a: State, x: nat, y: nat, z: bv6)
    requires x < 5 && y < 5
    ensures Bit(Theta(FIPS, a)[5 * y + x], z) == Diffused(a, x, y, z)
  {
    hide Bit, Theta, Column, ColumnBit;
    ThetaBits(a, x, y, z);
    ColumnIs(a, (x + 4) % 5, z);
    ColumnIs(a, (x + 1) % 5, z - 1);
  }

  lemma RhoPiGives(a: State, x: nat, y: nat, z: bv6)
    requires x < 5 && y < 5
    ensures Bit(Pi(Rho(FIPS, Theta(FIPS, a)))[5 * y + x], z) == Moved(a, x, y, z)
  {
    hide Bit, Theta, Rho, Pi, Offset, Diffused;
    var from := (x + 3 * y) % 5;
    var t := Theta(FIPS, a);
    PiBits(Rho(FIPS, t), x, y, z);
    RhoBits(t, 5 * x + from, z);
    ThetaGives(a, from, x, z - Offset(5 * x + from));
  }

  /** One round of Keccak-f[1600], bit by bit, on every state. */
  lemma RoundBits(a: State, constant: bv64, x: nat, y: nat, z: bv6)
    requires x < 5 && y < 5
    ensures Bit(Rnd(FIPS, a, constant)[5 * y + x], z) == AfterRound(a, constant, x, y, z)
  {
    hide Bit, Theta, Rho, Pi, Chi, Iota, Moved;
    var b := Pi(Rho(FIPS, Theta(FIPS, a)));
    IotaBits(Chi(FIPS, b), constant, 5 * y + x, z);
    ChiBits(b, x, y, z);
    RhoPiGives(a, x, y, z);
    RhoPiGives(a, (x + 1) % 5, y, z);
    RhoPiGives(a, (x + 2) % 5, y, z);
  }

  ghost predicate RoundRelates(a: State, b: State, constant: bv64)
  {
    forall x: nat, y: nat, z: bv6 :: x < 5 && y < 5 ==> StateBit(b, x, y, z) == AfterRound(a, constant, x, y, z)
  }

  /** 25 states, each the round of the one before: under constants 0 to 23, in order. */
  ghost predicate Chain(states: seq<State>)
  {
    |states| == 25 && forall r :: 0 <= r < 24 ==> RoundRelates(states[r], states[r + 1], RoundConstant(r))
  }

  lemma RoundRelatesRnd(a: State, constant: bv64)
    ensures RoundRelates(a, Rnd(FIPS, a, constant), constant)
  {
    hide Bit, Rnd, AfterRound;
    forall x: nat, y: nat, z: bv6 | x < 5 && y < 5
      ensures StateBit(Rnd(FIPS, a, constant), x, y, z) == AfterRound(a, constant, x, y, z)
    {
      RoundBits(a, constant, x, y, z);
    }
  }

  function StateAfter(a: State, r: nat): State
    requires r <= 24
  {
    Rounds(FIPS, a, RoundConstants()[..r])
  }

  lemma ConstantAt(r: nat)
    requires r < 24
    ensures RoundConstants()[r] == RoundConstant(r)
  {
    hide RoundConstant;
  }

  lemma OneMoreRound<T>(ops: Ops<T>, a: seq<T>, constants: seq<T>, r: nat)
    requires |a| == 25 && r < |constants|
    ensures Rounds(ops, a, constants[..r + 1]) == Rnd(ops, Rounds(ops, a, constants[..r]), constants[r])
  {
    hide Rnd;
    assert constants[..r + 1][..r] == constants[..r];
  }

  lemma NextState(a: State, r: nat)
    requires r < 24
    ensures RoundRelates(StateAfter(a, r), StateAfter(a, r + 1), RoundConstant(r))
  {
    hide RoundRelates, Rnd, RoundConstant, RoundConstants, Rounds;
    ConstantAt(r);
    OneMoreRound(FIPS, a, RoundConstants(), r);
    RoundRelatesRnd(StateAfter(a, r), RoundConstant(r));
  }

  lemma FirstAndLast(a: State)
    ensures StateAfter(a, 0) == a && StateAfter(a, 24) == KeccakF(a)
  {
    hide RoundConstants, Rnd;
    assert RoundConstants()[..0] == [] && RoundConstants()[..24] == RoundConstants();
  }

  /** Keccak-f[1600] of a state is the last of 25 states, from that state on, each the round of the one
      before under the next constant. */
  lemma KeccakFIsChain(a: State) returns (states: seq<State>)
    ensures Chain(states) && states[0] == a && states[24] == KeccakF(a)
  {
    hide RoundRelates, RoundConstant, RoundConstants, Rounds, StateAfter, KeccakF;
    states := StatesOf(a);
    FirstAndLast(a);
    forall r | 0 <= r < 24 ensures RoundRelates(states[r], states[r + 1], RoundConstant(r)) {
      NextState(a, r);
    }
  }

  lemma StatesOf(a: State) returns (states: seq<State>)
    ensures |states| == 25 && forall r :: 0 <= r <= 24 ==> states[r] == StateAfter(a, r)
  {
    hide StateAfter;
    states := [];
    for r := 0 to 25
      invariant |states| == r && forall k :: 0 <= k < r ==> states[k] == StateAfter(a, k)
    {
      states := states + [StateAfter(a, r)];
    }
  }

  // ---- the round constants (section 3.2.5) ----

  /** Bit i of the feedback register. */
  ghost predicate RegisterBit(r: bv8, i: bv8)
  {
    (r >> (i & 7)) & 1 == 1
  }

  /** A step of Algorithm 5: the register moves up, and the bit that leaves it is added to bits 0, 4, 5
      and 6. */
  lemma RegisterSteps(r: bv8, i: bv8)
    requires i < 8
    ensures RegisterBit(LfsrStep(r), i) ==
            ((i > 0 && RegisterBit(r, i - 1)) != ((i == 0 || i == 4 || i == 5 || i == 6) && RegisterBit(r, 7)))
  {
  }

  /** The register starts at 1 and takes one step at a time. */
  lemma RegisterRuns(t: nat)
    ensures Lfsr(0) == 1 && Lfsr(t + 1) == LfsrStep(Lfsr(t))
  {
    hide LfsrStep;
  }

  /** rc(t): what the register puts out after t steps from 1. */
  ghost predicate Output(t: nat)
  {
    RegisterBit(Lfsr(t), 0)
  }

  lemma SpreadBits(r: bv8, z: bv6)
    ensures Bit(ConstantFrom(r), z) ==
            match z
            case 0 => RegisterBit(r, 0)
            case 1 => RegisterBit(LfsrStep(r), 0)
            case 3 => RegisterBit(LfsrStep(LfsrStep(r)), 0)
            case 7 => RegisterBit(LfsrStep(LfsrStep(LfsrStep(r))), 0)
            case 15 => RegisterBit(LfsrStep(LfsrStep(LfsrStep(LfsrStep(r)))), 0)
            case 31 => RegisterBit(LfsrStep(LfsrStep(LfsrStep(LfsrStep(LfsrStep(r))))), 0)
            case 63 => RegisterBit(LfsrStep(LfsrStep(LfsrStep(LfsrStep(LfsrStep(LfsrStep(r)))))), 0)
            case _ => false
  {
  }

  lemma SixSteps(t: nat)
    ensures Lfsr(t + 1) == LfsrStep(Lfsr(t)) && Lfsr(t + 2) == LfsrStep(LfsrStep(Lfsr(t)))
    ensures Lfsr(t + 3) == LfsrStep(LfsrStep(LfsrStep(Lfsr(t))))
    ensures Lfsr(t + 4) == LfsrStep(LfsrStep(LfsrStep(LfsrStep(Lfsr(t)))))
    ensures Lfsr(t + 5) == LfsrStep(LfsrStep(LfsrStep(LfsrStep(LfsrStep(Lfsr(t))))))
    ensures Lfsr(t + 6) == LfsrStep(LfsrStep(LfsrStep(LfsrStep(LfsrStep(LfsrStep(Lfsr(t)))))))
  {
    hide LfsrStep;
    assert Lfsr(t + 2) == LfsrStep(Lfsr(t + 1));
    assert Lfsr(t + 4) == LfsrStep(Lfsr(t + 3));
    assert Lfsr(t + 5) == LfsrStep(Lfsr(t + 4));
  }

  /** Bit 2^j - 1 of a round's constant is rc(j + 7 * round), and every other bit is clear. */
  lemma ConstantBits(round: nat, z: bv6)
    ensures Bit(RoundConstant(round), z) ==
            match z
            case 0 => Output(7 * round)
            case 1 => Output(7 * round + 1)
            case 3 => Output(7 * round + 2)
            case 7 => Output(7 * round + 3)
            case 15 => Output(7 * round + 4)
            case 31 => Output(7 * round + 5)
            case 63 => Output(7 * round + 6)
            case _ => false
  {
    hide Bit, LfsrStep, Lfsr, ConstantFrom, RegisterBit;
    SpreadBits(Lfsr(7 * round), z);
    SixSteps(7 * round);
  }

  // ---- bytes, padding and digest ----

  /** Bit j of a byte. */
  ghost predicate ByteBit(d: bv8, j: bv6)
  {
    (d >> (j & 7)) & 1 == 1
  }

  /** The place in a lane of bit j of its byte k: 8k + j. */
  function Place(k: nat, j: bv6): bv6
  {
    match k
    case 0 => j
    case 1 => 8 + j
    case 2 => 16 + j
    case 3 => 24 + j
    case 4 => 32 + j
    case 5 => 40 + j
    case 6 => 48 + j
    case _ => 56 + j
  }

  lemma LaneOfBytes(b: Bytes, k: nat, j: bv6)
    requires |b| == 8 && k < 8 && j < 8
    ensures Bit(FromLe(b), Place(k, j)) == ByteBit(b[k], j)
  {
  }

  lemma BytesOfLane(a: bv64, k: nat, j: bv6)
    requires k < 8 && j < 8
    ensures ByteBit(ToLe(a)[k], j) == Bit(a, Place(k, j))
  {
    var b := ToLe(a);
    hide ToLe, FromLe, Bit, ByteBit, Place;
    LeRoundTripLane(a);
    LaneOfBytes(b, k, j);
  }

  /** Bit j of byte i of the padded message: the message, a one bit right after it, zeros, and a one bit at
      the very end of `length` bytes (pad10*1, section 5.1). */
  ghost predicate PaddedBit(m: Bytes, length: nat, i: nat, j: bv6)
  {
    if i < |m| then ByteBit(m[i], j) else (i == |m| && j == 0) || (i + 1 == length && j == 7)
  }

  lemma PadBytes()
    ensures forall j: bv6 :: j < 8 ==>
      && ByteBit(0x00, j) == false
      && ByteBit(0x01, j) == (j == 0)
      && ByteBit(0x80, j) == (j == 7)
      && ByteBit(0x81, j) == (j == 0 || j == 7)
  {
  }

  /** The padded message is the fewest whole blocks that hold the message and the padding. */
  lemma PaddingBits(m: Bytes, i: nat, j: bv6)
    requires i < |Padded(m)| && j < 8
    ensures |Padded(m)| % 136 == 0 && |m| < |Padded(m)| <= |m| + 136
    ensures ByteBit(Padded(m)[i], j) == PaddedBit(m, |Padded(m)|, i, j)
  {
    PadBytes();
    hide ByteBit;
  }

  /** Some chain of rounds leads from one state to the other. */
  ghost predicate Permutes(a: State, b: State)
  {
    exists states: seq<State> :: Chain(states) && states[0] == a && states[24] == b
  }

  /** A state with the bits of a block of the padded message added to its first 17 lanes. */
  ghost predicate BlockAdded(a: State, b: State, m: Bytes, length: nat, block: nat)
  {
    forall lane: nat, k: nat, j: bv6 :: lane < 25 && k < 8 && j < 8 ==>
      Bit(b[lane], Place(k, j)) ==
      (Bit(a[lane], Place(k, j)) != (lane < 17 && PaddedBit(m, length, 136 * block + 8 * lane + k, j)))
  }

  /** A state without a bit set. */
  ghost predicate Blank(s: State)
  {
    forall lane: nat, k: nat, j: bv6 :: lane < 25 && k < 8 && j < 8 ==> !Bit(s[lane], Place(k, j))
  }

  /** One block of the sponge: add its bits, and permute. */
  ghost predicate Absorbs(a: State, b: State, m: Bytes, length: nat, block: nat)
  {
    exists mid: State :: BlockAdded(a, mid, m, length, block) && Permutes(mid, b)
  }

  /** The states of the sponge (section 4): from the blank one, one more for each block of the message, which
      is padded to the next multiple of 136 bytes. */
  ghost predicate SpongeStates(states: seq<State>, m: Bytes)
  {
    && |states| == |m| / 136 + 2 && Blank(states[0])
    && forall block :: 0 <= block < |m| / 136 + 1 ==>
         Absorbs(states[block], states[block + 1], m, 136 * (|m| / 136 + 1), block)
  }

  /** The digest is the first 256 bits of a state. */
  ghost predicate Read(s: State, digest: Bytes)
  {
    |digest| == 32 &&
    forall lane: nat, k: nat, j: bv6 :: lane < 4 && k < 8 && j < 8 ==>
      ByteBit(digest[8 * lane + k], j) == Bit(s[lane], Place(k, j))
  }

  lemma PaddedLength(m: Bytes)
    ensures |Padded(m)| == 136 * (|m| / 136 + 1)
  {
  }

  /** A lane of a block has the padded message's bits. */
  lemma BlockBit(m: Bytes, block: nat, p: Block, lane: nat, k: nat, j: bv6)
    requires block < |m| / 136 + 1 && lane < 25 && k < 8 && j < 8
    requires 136 * block + 136 <= |Padded(m)| && p == Padded(m)[136 * block..136 * block + 136]
    ensures Bit(BlockLanes(p)[lane], Place(k, j)) ==
            (lane < 17 && PaddedBit(m, |Padded(m)|, 136 * block + 8 * lane + k, j))
  {
    hide Padded, Bit, ByteBit, Place, PaddedBit, FromLe;
    if lane < 17 {
      LaneOfBytes(p[8 * lane..8 * lane + 8], k, j);
      assert p[8 * lane..8 * lane + 8][k] == Padded(m)[136 * block + 8 * lane + k];
      PaddingBits(m, 136 * block + 8 * lane + k, j);
    } else {
      NoBit(Place(k, j));
    }
  }

  lemma SumBit(a: State, b: State, lane: nat, z: bv6)
    requires lane < 25
    ensures Bit(XorStates(a, b)[lane], z) == (Bit(a[lane], z) != Bit(b[lane], z))
  {
    hide Bit, Ops.Xor;
    XorBit(a[lane], b[lane], z);
  }

  lemma AddsBlock(a: State, m: Bytes, block: nat, p: Block)
    requires block < |m| / 136 + 1
    requires 136 * block + 136 <= |Padded(m)| && p == Padded(m)[136 * block..136 * block + 136]
    ensures BlockAdded(a, XorStates(a, BlockLanes(p)), m, |Padded(m)|, block)
  {
    hide Padded, Bit, Place, PaddedBit, XorStates, BlockLanes;
    var b := XorStates(a, BlockLanes(p));
    forall lane: nat, k: nat, j: bv6 | lane < 25 && k < 8 && j < 8
      ensures Bit(b[lane], Place(k, j)) ==
        (Bit(a[lane], Place(k, j)) != (lane < 17 && PaddedBit(m, |Padded(m)|, 136 * block + 8 * lane + k, j)))
    {
      SumBit(a, BlockLanes(p), lane, Place(k, j));
      BlockBit(m, block, p, lane, k, j);
    }
  }

  lemma NoBit(z: bv6)
    ensures !Bit(0, z)
  {
  }

  lemma SqueezeReads(s: State)
    ensures Read(s, Squeeze(s))
  {
    hide Bit, ByteBit, Place, ToLe;
    forall lane: nat, k: nat, j: bv6 | lane < 4 && k < 8 && j < 8
      ensures ByteBit(Squeeze(s)[8 * lane + k], j) == Bit(s[lane], Place(k, j))
    {
      BytesOfLane(s[lane], k, j);
    }
  }

  /** The states of a run over blocks, one after the other. */
  lemma {:induction false} AbsorbStates<S>(step: (S, Block) -> S, state: S, p: Bytes, blocks: nat) returns (states: seq<S>)
    requires |p| == RATE * blocks
    ensures |states| == blocks + 1 && states[0] == state
    ensures states[blocks] == Absorb(step, state, p, blocks)
    ensures forall i :: 0 <= i < blocks ==> states[i + 1] == step(states[i], p[136 * i..136 * i + 136])
    decreases blocks
  {
    if blocks == 0 {
      states := [state];
    } else {
      var rest := p[RATE..];
      var more := AbsorbStates(step, step(state, p[..RATE]), rest, blocks - 1);
      states := [state] + more;
      forall i | 0 <= i < blocks ensures states[i + 1] == step(states[i], p[136 * i..136 * i + 136]) {
        if i > 0 {
          assert rest[136 * (i - 1)..136 * (i - 1) + 136] == p[136 * i..136 * i + 136];
        }
      }
    }
  }

  lemma AbsorbsBlock(a: State, b: State, m: Bytes, block: nat, p: Block)
    requires block < |m| / 136 + 1
    requires 136 * block + 136 <= |Padded(m)| && p == Padded(m)[136 * block..136 * block + 136]
    requires b == AbsorbBlock(a, p)
    ensures Absorbs(a, b, m, |Padded(m)|, block)
  {
    hide BlockAdded, Chain, KeccakF, XorStates, BlockLanes, Padded;
    AddsBlock(a, m, block, p);
    var mid := XorStates(a, BlockLanes(p));
    var states := KeccakFIsChain(mid);
    assert Permutes(mid, b);
  }

  lemma StartsBlank()
    ensures Blank(ZeroState())
  {
    hide Bit, Place;
    forall lane: nat, k: nat, j: bv6 | lane < 25 && k < 8 && j < 8 ensures !Bit(ZeroState()[lane], Place(k, j)) {
      NoBit(Place(k, j));
    }
  }

  /** Keccak-256 of every message: its padded bits, block after block, 24 rounds for each, and the first 256
      bits of the last state. */
  lemma DigestBits(m: Bytes) returns (states: seq<State>)
    ensures SpongeStates(states, m) && Read(states[|m| / 136 + 1], Keccak256(m))
  {
    hide *;
    PaddedLength(m);
    RateIs();
    var blocks := |m| / 136 + 1;
    states := AbsorbStates(AbsorbBlock, ZeroState(), Padded(m), blocks);
    StartsBlank();
    forall block | 0 <= block < blocks ensures Absorbs(states[block], states[block + 1], m, 136 * blocks, block) {
      AbsorbsBlock(states[block], states[block + 1], m, block, Padded(m)[136 * block..136 * block + 136]);
    }
    SqueezeReads(states[blocks]);
    IsSponge(states, m);
    DigestIs(m);
  }

  lemma RateIs()
    ensures RATE == 136
  {
  }

  lemma IsSponge(states: seq<State>, m: Bytes)
    requires |states| == |m| / 136 + 2 && Blank(states[0])
    requires forall block :: 0 <= block < |m| / 136 + 1 ==>
      Absorbs(states[block], states[block + 1], m, 136 * (|m| / 136 + 1), block)
    ensures SpongeStates(states, m)
  {
    hide Absorbs, Blank;
  }

  lemma DigestIs(m: Bytes)
    requires |Padded(m)| == 136 * (|m| / 136 + 1)
    ensures Keccak256(m) == Squeeze(Absorb(AbsorbBlock, ZeroState(), Padded(m), |m| / 136 + 1))
  {
    hide Absorb, AbsorbBlock, ZeroState, Padded, Squeeze;
  }

  // ---- the bits define the digest ----

  lemma SameByte(d: bv8, e: bv8)
    requires forall j: bv6 :: j < 8 ==> ByteBit(d, j) == ByteBit(e, j)
    ensures d == e
  {
    assert ByteBit(d, 0) == ByteBit(e, 0) && ByteBit(d, 1) == ByteBit(e, 1);
    assert ByteBit(d, 2) == ByteBit(e, 2) && ByteBit(d, 3) == ByteBit(e, 3);
    assert ByteBit(d, 4) == ByteBit(e, 4) && ByteBit(d, 5) == ByteBit(e, 5);
    assert ByteBit(d, 6) == ByteBit(e, 6) && ByteBit(d, 7) == ByteBit(e, 7);
  }

  lemma SameLane(a: bv64, b: bv64)
    requires forall k: nat, j: bv6 :: k < 8 && j < 8 ==> Bit(a, Place(k, j)) == Bit(b, Place(k, j))
    ensures a == b
  {
    hide Bit, ByteBit, Place, ToLe, FromLe;
    forall k: nat | k < 8 ensures ToLe(a)[k] == ToLe(b)[k] {
      forall j: bv6 | j < 8 ensures ByteBit(ToLe(a)[k], j) == ByteBit(ToLe(b)[k], j) {
        BytesOfLane(a, k, j);
        BytesOfLane(b, k, j);
      }
      SameByte(ToLe(a)[k], ToLe(b)[k]);
    }
    assert ToLe(a) == ToLe(b);
    LeRoundTripLane(a);
    LeRoundTripLane(b);
  }

  lemma SameState(a: State, b: State)
    requires forall lane: nat, k: nat, j: bv6 :: lane < 25 && k < 8 && j < 8 ==>
      Bit(a[lane], Place(k, j)) == Bit(b[lane], Place(k, j))
    ensures a == b
  {
    hide Bit, Place;
    forall lane: nat | lane < 25 ensures a[lane] == b[lane] {
      SameLane(a[lane], b[lane]);
    }
  }

  lemma OneSuccessor(a: State, b: State, c: State, constant: bv64)
    requires RoundRelates(a, b, constant) && RoundRelates(a, c, constant)
    ensures b == c
  {
    hide Bit, Place, AfterRound;
    forall lane: nat, k: nat, j: bv6 | lane < 25 && k < 8 && j < 8
      ensures Bit(b[lane], Place(k, j)) == Bit(c[lane], Place(k, j))
    {
      assert lane == 5 * (lane / 5) + lane % 5;
      assert StateBit(b, lane % 5, lane / 5, Place(k, j)) == StateBit(c, lane % 5, lane / 5, Place(k, j));
    }
    SameState(b, c);
  }

  lemma {:induction false} OneChain(s: seq<State>, t: seq<State>, r: nat)
    requires Chain(s) && Chain(t) && s[0] == t[0] && r < 25
    ensures s[r] == t[r]
  {
    if r > 0 {
      hide RoundRelates, RoundConstant;
      OneChain(s, t, r - 1);
      OneSuccessor(s[r - 1], s[r], t[r], RoundConstant(r - 1));
    }
  }

  lemma OneBlank(s: State, t: State)
    requires Blank(s) && Blank(t)
    ensures s == t
  {
    hide Bit, Place;
    SameState(s, t);
  }

  lemma OneSum(a: State, b: State, c: State, m: Bytes, length: nat, block: nat)
    requires BlockAdded(a, b, m, length, block) && BlockAdded(a, c, m, length, block)
    ensures b == c
  {
    hide Bit, Place, PaddedBit;
    SameState(b, c);
  }

  lemma OneAbsorption(a: State, b: State, c: State, m: Bytes, length: nat, block: nat)
    requires Absorbs(a, b, m, length, block) && Absorbs(a, c, m, length, block)
    ensures b == c
  {
    hide BlockAdded, Permutes;
    var mid: State :| BlockAdded(a, mid, m, length, block) && Permutes(mid, b);
    var other: State :| BlockAdded(a, other, m, length, block) && Permutes(other, c);
    OneSum(a, mid, other, m, length, block);
    OnePermutation(mid, b, c);
  }

  lemma OnePermutation(a: State, b: State, c: State)
    requires Permutes(a, b) && Permutes(a, c)
    ensures b == c
  {
    hide RoundRelates, RoundConstant;
    var s: seq<State> :| Chain(s) && s[0] == a && s[24] == b;
    var t: seq<State> :| Chain(t) && t[0] == a && t[24] == c;
    OneChain(s, t, 24);
  }

  lemma {:induction false} OneSponge(s: seq<State>, t: seq<State>, m: Bytes, i: nat)
    requires SpongeStates(s, m) && SpongeStates(t, m) && i < |s|
    ensures s[i] == t[i]
  {
    hide Absorbs, Blank;
    if i == 0 {
      OneBlank(s[0], t[0]);
    } else {
      OneSponge(s, t, m, i - 1);
      OneAbsorption(s[i - 1], s[i], t[i], m, 136 * (|m| / 136 + 1), i - 1);
    }
  }

  lemma OneDigest(s: State, d: Bytes, e: Bytes)
    requires Read(s, d) && Read(s, e)
    ensures d == e
  {
    hide Bit, Place, ByteBit;
    forall i | 0 <= i < 32 ensures d[i] == e[i] {
      var lane, k := i / 8, i % 8;
      assert i == 8 * lane + k;
      forall j: bv6 | j < 8 ensures ByteBit(d[i], j) == ByteBit(e[i], j) {
        assert ByteBit(d[8 * lane + k], j) == Bit(s[lane], Place(k, j));
        assert ByteBit(e[8 * lane + k], j) == Bit(s[lane], Place(k, j));
      }
      SameByte(d[i], e[i]);
    }
  }

  /** The converse: any states and 32 bytes with these bits are those of the sponge and the digest, so the
      bits alone say what Keccak-256 is, on every message. */
  lemma BitsDefineDigest(m: Bytes, states: seq<State>, digest: Bytes)
    requires SpongeStates(states, m) && Read(states[|m| / 136 + 1], digest)
    ensures digest == Keccak256(m)
  {
    hide Absorbs, Blank, Read, Keccak256;
    var own := DigestBits(m);
    OneSponge(states, own, m, |m| / 136 + 1);
    OneDigest(own[|m| / 136 + 1], digest, Keccak256(m));
  }
}
