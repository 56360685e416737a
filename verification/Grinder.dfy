/** One thread of the mining kernel (kernel/keccak_grinder.cu) and the lane encoding the host hands
    it (src/gpu/kernel_ffi.rs): a nonce is a hit exactly when the contract accepts its work. */
module Grinder {
  import opened Challenge
  import opened Encoding
  import opened Keccak
  import opened KeccakKernel
  import opened Lanes
  import opened Sponge
  import opened Words

  // ---- byte swapping ----

  /** The byte of y:x that the low three bits of a selector nibble name. */
  function ByteSelected(x: bv32, y: bv32, nibble: bv32): bv32
  {
    var wide: bv64 := ((y as bv64) << 32) | (x as bv64);
    ((wide >> ((nibble & 7) << 3)) & 0xff) as bv32
  }

  /** CUDA `__byte_perm`: four bytes picked from y:x by the four nibbles of a selector. */
  function BytePerm(x: bv32, y: bv32, selector: bv32): bv32
  {
    ByteSelected(x, y, selector)
    | (ByteSelected(x, y, selector >> 4) << 8)
    | (ByteSelected(x, y, selector >> 8) << 16)
    | (ByteSelected(x, y, selector >> 12) << 24)
  }

  function Bswap64(x: bv64): bv64
  {
    var lo := BytePerm((x & 0xffff_ffff) as bv32, 0, 0x0123);
    var hi := BytePerm((x >> 32) as bv32, 0, 0x0123);
    ((lo as bv64) << 32) | (hi as bv64)
  }

  lemma BswapReverses(x: bv64)
    ensures ToLe(Bswap64(x)) == Reverse8(ToLe(x))
  {
  }

  // ---- what the host writes to the device ----

  /** The raw challenge as four little-endian lanes. */
  function ChallengeLanes(challenge: Bytes): (lanes: seq<bv64>)
    requires |challenge| == 32
    ensures |lanes| == 4
  {
    [FromLe(challenge[0..8]), FromLe(challenge[8..16]), FromLe(challenge[16..24]), FromLe(challenge[24..32])]
  }

  /** A 256-bit target as four big-endian limbs, most significant first. */
  function TargetLanes(target: nat): (lanes: seq<bv64>)
    ensures |lanes| == 4
  {
    var b := AbiWord(target);
    [FromBe(b[0..8]), FromBe(b[8..16]), FromBe(b[16..24]), FromBe(b[24..32])]
  }

  /** A number below 2^64 as a machine word. */
  function U64(n: nat): bv64
  {
    FromBe(ToBe(n, 8))
  }

  function LaneBytes(lanes: seq<bv64>): (b: Bytes)
    requires |lanes| == 4
    ensures |b| == 32
  {
    ToLe(lanes[0]) + ToLe(lanes[1]) + ToLe(lanes[2]) + ToLe(lanes[3])
  }

  function LimbBytes(limbs: seq<bv64>): (b: Bytes)
    requires |limbs| == 4
    ensures |b| == 32
  {
    BeBytes(limbs[0]) + BeBytes(limbs[1]) + BeBytes(limbs[2]) + BeBytes(limbs[3])
  }

  /** The number four limbs spell, most significant first. */
  function LimbValue(limbs: seq<bv64>): nat
    requires |limbs| == 4
  {
    BeNat(LimbBytes(limbs))
  }

  lemma ChallengeArrives(challenge: Bytes)
    requires |challenge| == 32
    ensures LaneBytes(ChallengeLanes(challenge)) == challenge
  {
    hide FromLe, ToLe;
    LeRoundTrip(challenge[0..8]);
    LeRoundTrip(challenge[8..16]);
    LeRoundTrip(challenge[16..24]);
    LeRoundTrip(challenge[24..32]);
  }

  lemma TargetArrives(target: Word)
    ensures LimbValue(TargetLanes(target)) == target
  {
    var b := AbiWord(target);
    BeLimb(b[0..8]);
    BeLimb(b[8..16]);
    BeLimb(b[16..24]);
    BeLimb(b[24..32]);
    hide FromBe, BeBytes, AbiWord, BeNat, Pow2;
    assert LimbBytes(TargetLanes(target)) == b;
    AbiRoundTrip(target);
  }

  lemma BeLimb(b: Bytes)
    requires |b| == 8
    ensures BeBytes(FromBe(b)) == b
  {
    hide FromLe, ToLe;
    LeRoundTrip(Reverse8(b));
  }

  // ---- the block the thread builds directly in lanes ----

  /** The single padded block of a 64-byte message. */
  lemma PaddedMessage(c: Bytes, tail: Bytes)
    requires |c| == 32 && |tail| == 8
    ensures Padded(c + (Zeros(24) + tail)) == c + Zeros(24) + tail + [0x01] + Zeros(70) + [0x80]
  {
  }

  function LoadedLane<T>(lanes: seq<T>, nonceLane: T, zero: T, first: T, last: T, i: nat): T
    requires |lanes| == 4
  {
    if i < 4 then lanes[i]
    else if i == 7 then nonceLane
    else if i == 8 then first
    else if i == 16 then last
    else zero
  }

  function InitialLane(lanes: seq<bv64>, nonceLane: bv64, i: nat): bv64
    requires |lanes| == 4
  {
    LoadedLane(lanes, nonceLane, 0, 0x0000000000000001, 0x8000000000000000, i)
  }

  /** Challenge in lanes 0 to 3, nonce in lane 7, padding bits in lanes 8 and 16. */
  function InitialState(lanes: seq<bv64>, nonceLane: bv64): State
    requires |lanes| == 4
  {
    seq(25, i requires 0 <= i < 25 => InitialLane(lanes, nonceLane, i))
  }

  lemma EdgeLanes()
    ensures FromLe(Zeros(8)) == 0
    ensures FromLe([0x01] + Zeros(7)) == 0x0000000000000001
    ensures FromLe(Zeros(7) + [0x80]) == 0x8000000000000000
  {
  }

  function Message(c: Bytes, tail: Bytes): (p: Bytes)
    requires |c| == 32 && |tail| == 8
    ensures |p| == RATE
  {
    c + Zeros(24) + tail + [0x01] + Zeros(70) + [0x80]
  }

  lemma ChallengePart(lanes: seq<bv64>, tail: Bytes, i: nat)
    requires |lanes| == 4 && |tail| == 8 && i < 4
    ensures Message(LaneBytes(lanes), tail)[8 * i..8 * i + 8] == ToLe(lanes[i])
  {
    hide ToLe;
    var c := LaneBytes(lanes);
    assert c[8 * i..8 * i + 8] == ToLe(lanes[i]);
    assert Message(c, tail)[8 * i..8 * i + 8] == c[8 * i..8 * i + 8];
  }

  lemma MessageParts(c: Bytes, tail: Bytes, i: nat)
    requires |c| == 32 && |tail| == 8 && 4 <= i < 17
    ensures Message(c, tail)[8 * i..8 * i + 8] ==
            if i == 7 then tail
            else if i == 8 then [0x01] + Zeros(7)
            else if i == 16 then Zeros(7) + [0x80]
            else Zeros(8)
  {
  }

  lemma MessageLane(lanes: seq<bv64>, tail: Bytes, i: nat)
    requires |lanes| == 4 && |tail| == 8 && i < 17
    ensures FromLe(Message(LaneBytes(lanes), tail)[8 * i..8 * i + 8]) == InitialLane(lanes, FromLe(tail), i)
  {
    hide FromLe, ToLe, LaneBytes, Message, Zeros;
    if i < 4 {
      ChallengePart(lanes, tail, i);
      LeRoundTripLane(lanes[i]);
    } else {
      MessageParts(LaneBytes(lanes), tail, i);
      EdgeLanes();
    }
  }

  function NonceBytes(nonce: nat): (tail: Bytes)
    ensures |tail| == 8
  {
    ToBe(nonce, 8)
  }

  lemma NonceMessage(c: Bytes, nonce: nat)
    requires |c| == 32 && nonce < Pow2(64)
    ensures Padded(c + AbiWord(nonce)) == Message(c, NonceBytes(nonce))
  {
    hide Padded, Pow2, ToBe, Zeros;
    LeadingZeros(nonce, 8, 24);
    PaddedMessage(c, NonceBytes(nonce));
  }

  lemma SwappedNonce(nonce: nat)
    ensures Bswap64(U64(nonce)) == FromLe(NonceBytes(nonce))
  {
    var b := NonceBytes(nonce);
    var w := U64(nonce);
    hide Bswap64, FromLe, ToLe, Reverse8, ToBe;
    BswapReverses(w);
    BeLimb(b);
    LeRoundTripLane(Bswap64(w));
  }

  lemma FirstBlock(lanes: seq<bv64>, tail: Bytes)
    requires |lanes| == 4 && |tail| == 8
    ensures BlockLanes(Message(LaneBytes(lanes), tail)) == InitialState(lanes, FromLe(tail))
  {
    hide FromLe, Message, LaneBytes, InitialLane;
    forall i | 0 <= i < 17
      ensures FromLe(Message(LaneBytes(lanes), tail)[8 * i..8 * i + 8]) == InitialLane(lanes, FromLe(tail), i)
    {
      MessageLane(lanes, tail, i);
    }
    forall i | 17 <= i < 25 ensures InitialLane(lanes, FromLe(tail), i) == 0 {
      CapacityLane(lanes, FromLe(tail), i);
    }
  }

  lemma CapacityLane(lanes: seq<bv64>, nonceLane: bv64, i: nat)
    requires |lanes| == 4 && 17 <= i
    ensures InitialLane(lanes, nonceLane, i) == 0
  {
  }

  /** What the permutation of the thread's block says about the hash of the message. */
  lemma AbsorbsMessage(lanes: seq<bv64>, nonce: nat)
    requires |lanes| == 4 && nonce < Pow2(64)
    ensures Keccak256(LaneBytes(lanes) + AbiWord(nonce)) ==
            Squeeze(KeccakF(InitialState(lanes, Bswap64(U64(nonce)))))
  {
    hide *;
    var c, tail, m := LaneBytes(lanes), NonceBytes(nonce), LaneBytes(lanes) + AbiWord(nonce);
    NonceMessage(c, nonce);
    assert Padded(m) == Message(c, tail);
    OneBlock(m);
    SwappedNonce(nonce);
    FirstBlock(lanes, tail);
  }

  // ---- comparing limbs ----

  /** The kernel's four-limb comparison. */
  predicate LexicallyLess(h: seq<bv64>, d: seq<bv64>)
    requires |h| == |d| == 4
  {
    || Value(h[0]) < Value(d[0])
    || (h[0] == d[0] && Value(h[1]) < Value(d[1]))
    || (h[0] == d[0] && h[1] == d[1] && Value(h[2]) < Value(d[2]))
    || (h[0] == d[0] && h[1] == d[1] && h[2] == d[2] && Value(h[3]) < Value(d[3]))
  }

  function LimbTail(limbs: seq<bv64>, i: nat): Bytes
    requires |limbs| == 4 && i <= 4
    decreases 4 - i
  {
    if i == 4 then [] else BeBytes(limbs[i]) + LimbTail(limbs, i + 1)
  }

  lemma FirstLimb(h: seq<bv64>, d: seq<bv64>, i: nat)
    requires |h| == |d| == 4 && i < 4
    ensures |LimbTail(h, i)| == |LimbTail(d, i)|
    ensures BeNat(LimbTail(h, i)) < BeNat(LimbTail(d, i))
       <==> Value(h[i]) < Value(d[i]) || (h[i] == d[i] && BeNat(LimbTail(h, i + 1)) < BeNat(LimbTail(d, i + 1)))
    decreases 4 - i
  {
    if i < 3 {
      FirstLimb(h, d, i + 1);
    }
    hide BeNat, BeBytes;
    BeCompare(BeBytes(h[i]), LimbTail(h, i + 1), BeBytes(d[i]), LimbTail(d, i + 1));
    if Value(h[i]) == Value(d[i]) {
      ValueInjective(h[i], d[i]);
    }
  }

  lemma LimbsCompare(h: seq<bv64>, d: seq<bv64>)
    requires |h| == |d| == 4
    ensures LexicallyLess(h, d) <==> LimbValue(h) < LimbValue(d)
  {
    hide BeBytes, LimbTail, LimbValue, Value, BeNat;
    AllLimbs(h);
    AllLimbs(d);
    FirstLimb(h, d, 0);
    FirstLimb(h, d, 1);
    FirstLimb(h, d, 2);
    FirstLimb(h, d, 3);
  }

  lemma AllLimbs(limbs: seq<bv64>)
    requires |limbs| == 4
    ensures BeNat(LimbTail(limbs, 0)) == LimbValue(limbs) && BeNat(LimbTail(limbs, 4)) == 0
  {
    hide BeBytes;
    assert LimbTail(limbs, 3) == BeBytes(limbs[3]) + [];
    assert LimbTail(limbs, 2) == BeBytes(limbs[2]) + LimbTail(limbs, 3);
    assert LimbTail(limbs, 0) == LimbBytes(limbs);
  }

  // ---- the thread ----

  lemma SwappedBytes(x: bv64)
    ensures BeBytes(Bswap64(x)) == ToLe(x)
  {
    hide Bswap64, ToLe;
    BswapReverses(x);
    assert Reverse8(Reverse8(ToLe(x))) == ToLe(x);
  }

  /** The first four lanes, byte-swapped, spell the digest. */
  lemma DigestLimbs(lanes: seq<bv64>, nonce: nat, s: State, h: seq<bv64>)
    requires |lanes| == |h| == 4 && nonce < Pow2(64)
    requires s == KeccakF(InitialState(lanes, Bswap64(U64(nonce))))
    requires forall i :: 0 <= i < 4 ==> h[i] == Bswap64(s[i])
    ensures LimbValue(h) == Work(LaneBytes(lanes), nonce)
  {
    hide Bswap64, ToLe, BeBytes, KeccakF, InitialState, LaneBytes, AbiWord, BeNat, Keccak256, Pow2, U64;
    SwappedBytes(s[0]);
    SwappedBytes(s[1]);
    SwappedBytes(s[2]);
    SwappedBytes(s[3]);
    assert LimbBytes(h) == Squeeze(s);
    AbsorbsMessage(lanes, nonce);
  }

  /** The body of `mine` between the early return and the compare-and-swap. */
  method TryNonce(challenge: array<bv64>, nonce: nat, target: array<bv64>) returns (less: bool)
    requires challenge.Length == target.Length == 4
    requires nonce < Pow2(64)
    ensures less <==> Work(LaneBytes(challenge[..]), nonce) < LimbValue(target[..])
  {
    hide *;
    ghost var lanes := challenge[..];
    var st := new bv64[25](i => 0);
    LoadState(st, challenge, Bswap64(U64(nonce)), 0, 0x0000000000000001, 0x8000000000000000);
    Loaded(lanes, Bswap64(U64(nonce)), st[..]);
    KernelPermutes(st[..]);
    KeccakF1600InPlace(KERNEL, st, RC);
    var h := [Bswap64(st[0]), Bswap64(st[1]), Bswap64(st[2]), Bswap64(st[3])];
    less := LexicallyLess(h, target[..]);
    LimbsCompare(h, target[..]);
    DigestLimbs(lanes, nonce, st[..], h);
  }

  lemma Loaded(lanes: seq<bv64>, nonceLane: bv64, st: seq<bv64>)
    requires |lanes| == 4 && |st| == 25
    requires forall i :: 0 <= i < 25 ==> st[i] == LoadedLane(lanes, nonceLane, 0, 0x0000000000000001, 0x8000000000000000, i)
    ensures st == InitialState(lanes, nonceLane)
  {
    forall i | 0 <= i < 25
      ensures LoadedLane(lanes, nonceLane, 0, 0x0000000000000001, 0x8000000000000000, i) == InitialLane(lanes, nonceLane, i)
    {
    }
    hide LoadedLane, InitialLane;
  }

  method LoadState<T>(st: array<T>, challenge: array<T>, nonceLane: T, zero: T, first: T, last: T)
    requires challenge.Length == 4 && st.Length == 25 && st != challenge
    modifies st
    ensures forall i :: 0 <= i < 25 ==> st[i] == LoadedLane(challenge[..], nonceLane, zero, first, last, i)
  {
    for i := 0 to 25
      invariant forall k :: 0 <= k < i ==> st[k] == zero
    {
      st[i] := zero;
    }
    st[0] := challenge[0];
    st[1] := challenge[1];
    st[2] := challenge[2];
    st[3] := challenge[3];
    st[7] := nonceLane;
    st[8] := first;
    st[16] := last;
  }

  /** The kernel's rounds on its own table are Keccak-f[1600]. */
  lemma KernelPermutes(a: State)
    ensures |RC| == 24 && Rounds(KERNEL, a, RC) == KeccakF(a)
  {
    SameRounds(a, RC);
    ConstantsFollowRegister();
    hide Rounds, RoundConstants;
  }
}
