/** Keccak-256 on byte strings: FIPS 202's sponge with rate 1088, capacity 512 and the padding
    pad10*1 of section 5.1 straight after the message (no domain suffix). */
module Sponge {
  import opened Encoding
  import opened Keccak
  import opened Lanes

  const RATE: nat := 136

  /** pad10*1: a one bit, zeros, and a one bit, up to a whole number of blocks. */
  function Padded(m: Bytes): (p: Bytes)
    ensures |p| % RATE == 0 && |p| >= RATE && |p| <= |m| + RATE
  {
    var q := RATE - |m| % RATE;
    if q == 1 then m + [0x81] else m + [0x01] + seq(q - 2, i => 0x00) + [0x80]
  }

  type State = s: seq<bv64> | |s| == 25 witness seq(25, i => 0)

  type Block = b: Bytes | |b| == RATE witness seq(RATE, i => 0)

  /** The 17 lanes of a block, and zero in the 8 lanes of the capacity. */
  function BlockLanes(block: Block): State
  {
    seq(25, i requires 0 <= i < 25 => if i < 17 then FromLe(block[8 * i..8 * i + 8]) else 0)
  }

  function XorStates(a: State, b: State): State
  {
    seq(25, i requires 0 <= i < 25 => FIPS.Xor(a[i], b[i]))
  }

  function AbsorbBlock(state: State, block: Block): State
  {
    KeccakF(XorStates(state, BlockLanes(block)))
  }

  function ZeroState(): State
  {
    seq(25, i => 0)
  }

  /** One step for each block of the padded message, in order (section 4, step 6). */
  function Absorb<S>(step: (S, Block) -> S, state: S, p: Bytes, blocks: nat): S
    requires |p| == RATE * blocks
  {
    if blocks == 0 then state
    else Absorb(step, step(state, p[..RATE]), p[RATE..], blocks - 1)
  }

  function Squeeze(s: State): (digest: Bytes)
    ensures |digest| == 32
  {
    ToLe(s[0]) + ToLe(s[1]) + ToLe(s[2]) + ToLe(s[3])
  }

  /** The first 32 bytes of the state after absorbing the padded message. */
  function Keccak256(m: Bytes): (digest: Bytes)
    ensures |digest| == 32
  {
    Squeeze(Absorb(AbsorbBlock, ZeroState(), Padded(m), |Padded(m)| / RATE))
  }

  lemma XorZero(a: bv64)
    ensures FIPS.Xor(0, a) == a
  {
  }

  lemma XorZeroState(a: State)
    ensures XorStates(ZeroState(), a) == a
  {
    hide Ops.Xor;
    forall i | 0 <= i < 25 ensures FIPS.Xor(0, a[i]) == a[i] {
      XorZero(a[i]);
    }
  }

  /** A message that pads to one block is hashed by one permutation. */
  lemma OneBlock(m: Bytes)
    requires |Padded(m)| == RATE
    ensures Keccak256(m) == Squeeze(KeccakF(BlockLanes(Padded(m))))
  {
    var p := Padded(m);
    assert p[..RATE] == p;
    hide KeccakF, XorStates, BlockLanes, Padded, Squeeze, ZeroState;
    assert Absorb(AbsorbBlock, ZeroState(), p, 1) == AbsorbBlock(ZeroState(), p);
    XorZeroState(BlockLanes(p));
  }
}
