/** The two hashes of src/chain/challenge.rs: the per-miner challenge and the hash of an attempt. */
module Challenge {
  import opened Encoding
  import opened Sponge
  import opened Words

  type Address = b: Bytes | |b| == 20 witness Zeros(20)

  /** Solidity's keccak256(abi.encode(chainid, contract, miner, epoch)). */
  function ChallengeOf(chainId: nat, contract: nat, miner: nat, epoch: nat): (c: Bytes)
    ensures |c| == 32
  {
    Keccak256(AbiWord(chainId) + AbiWord(contract) + AbiWord(miner) + AbiWord(epoch))
  }

  /** The hash of an attempt as the contract reads it, a 256-bit number:
      uint256(keccak256(abi.encode(challenge, nonce))). */
  function Work(challenge: Bytes, nonce: nat): nat
  {
    BeNat(Keccak256(challenge + AbiWord(nonce)))
  }

  method CopyInto<T>(buf: array<T>, at: nat, src: seq<T>)
    requires at + |src| <= buf.Length
    modifies buf
    ensures buf[..] == old(buf[..at]) + src + old(buf[at + |src|..])
  {
    for i := 0 to |src|
      invariant buf[..] == old(buf[..at]) + src[..i] + old(buf[at + i..])
    {
      buf[at + i] := src[i];
    }
  }

  /** A number of at most `len` bytes, right-aligned in a 32-byte slot. */
  lemma RightAligned(n: nat, len: nat)
    requires len <= 32 && n < Pow2(8 * len)
    ensures AbiWord(n) == Zeros(32 - len) + ToBe(n, len)
  {
    hide Zeros, ToBe, Pow2;
    LeadingZeros(n, len, 32 - len);
  }

  lemma AddressSlot(a: Address)
    ensures AbiWord(BeNat(a)) == Zeros(12) + a
  {
    hide AbiWord, Zeros, ToBe, Pow2, BeNat;
    BeBound(a);
    RightAligned(BeNat(a), 20);
    BeSpelling(a);
  }

  /** Copying over a zeroed tail, `gap` bytes after what is already written. */
  lemma CopyExtends(before: Bytes, after: Bytes, written: Bytes, n: nat, gap: nat, src: Bytes)
    requires before == written + Zeros(n) && gap + |src| <= n
    requires after == before[..|written| + gap] + src + before[|written| + gap + |src|..]
    ensures after == written + Zeros(gap) + src + Zeros(n - gap - |src|)
  {
    var at := |written| + gap;
    assert before[..at] == written + Zeros(gap);
    assert before[at + |src|..] == Zeros(n - gap - |src|);
  }

  /** What the four copies leave in the buffer. */
  lemma FieldsInPlace(chainId: nat, contract: Address, miner: Address, epoch: nat,
      b0: Bytes, b1: Bytes, b2: Bytes, b3: Bytes, b4: Bytes)
    requires chainId < Pow2(64) && epoch < Pow2(64)
    requires b0 == Zeros(128) && |b1| == |b2| == |b3| == 128
    requires b1 == b0[..24] + ToBe(chainId, 8) + b0[32..]
    requires b2 == b1[..44] + contract + b1[64..]
    requires b3 == b2[..76] + miner + b2[96..]
    requires b4 == b3[..120] + ToBe(epoch, 8) + b3[128..]
    ensures b4 == AbiWord(chainId) + AbiWord(BeNat(contract)) + AbiWord(BeNat(miner)) + AbiWord(epoch)
  {
    hide *;
    assert b0 == [] + Zeros(128);
    CopyExtends(b0, b1, [], 128, 24, ToBe(chainId, 8));
    RightAligned(chainId, 8);
    var w1 := AbiWord(chainId);
    assert b1 == w1 + Zeros(96);
    AddressSlot(contract);
    var w2 := w1 + AbiWord(BeNat(contract));
    FieldPlaced(b1, b2, w1, 96, contract);
    AddressSlot(miner);
    FieldPlaced(b2, b3, w2, 64, miner);
    var w3 := w2 + AbiWord(BeNat(miner));
    CopyExtends(b3, b4, w3, 32, 24, ToBe(epoch, 8));
    RightAligned(epoch, 8);
    assert w3 + Zeros(24) + ToBe(epoch, 8) == w3 + AbiWord(epoch);
    assert Zeros(0) == [];
  }

  lemma FieldPlaced(before: Bytes, after: Bytes, written: Bytes, n: nat, a: Address)
    requires before == written + Zeros(n) && 32 <= n
    requires after == before[..|written| + 12] + a + before[|written| + 32..]
    ensures after == (written + AbiWord(BeNat(a))) + Zeros(n - 32)
  {
    hide *;
    CopyExtends(before, after, written, n, 12, a);
    AddressSlot(a);
    assert written + Zeros(12) + a == written + (Zeros(12) + a);
  }

  method ComputeChallenge(chainId: nat, contract: Address, miner: Address, epoch: nat) returns (c: Bytes)
    requires chainId < Pow2(64) && epoch < Pow2(64)
    ensures c == ChallengeOf(chainId, BeNat(contract), BeNat(miner), epoch)
  {
    hide AbiWord, ToBe, Pow2, BeNat, Keccak256;
    var buf := new bv8[128](i => 0);
    ghost var b0: Bytes := buf[..];
    assert b0 == Zeros(128);
    hide Zeros;
    CopyInto(buf, 24, ToBe(chainId, 8));
    ghost var b1 := buf[..];
    CopyInto(buf, 44, contract);
    ghost var b2 := buf[..];
    CopyInto(buf, 76, miner);
    ghost var b3 := buf[..];
    CopyInto(buf, 120, ToBe(epoch, 8));
    FieldsInPlace(chainId, contract, miner, epoch, b0, b1, b2, b3, buf[..]);
    c := Keccak256(buf[..]);
  }

  /** The text a challenge hashes: 128 bytes, all zero but for the chain id in bytes 24 to 31, the contract in
      44 to 63, the miner in 76 to 95, and the epoch in 120 to 127. */
  ghost predicate ChallengeText(text: Bytes, chainId: nat, contract: Address, miner: Address, epoch: nat)
  {
    && |text| == 128
    && text[..24] == Zeros(24) && |text[24..32]| == 8 && BeNat(text[24..32]) == chainId
    && text[32..44] == Zeros(12) && text[44..64] == contract
    && text[64..76] == Zeros(12) && text[76..96] == miner
    && text[96..120] == Zeros(24) && BeNat(text[120..128]) == epoch
  }

  lemma ChallengeLayout(chainId: nat, contract: Address, miner: Address, epoch: nat) returns (text: Bytes)
    requires chainId < Pow2(64) && epoch < Pow2(64)
    ensures ChallengeText(text, chainId, contract, miner, epoch)
    ensures ChallengeOf(chainId, BeNat(contract), BeNat(miner), epoch) == Keccak256(text)
  {
    text := AbiWord(chainId) + AbiWord(BeNat(contract)) + AbiWord(BeNat(miner)) + AbiWord(epoch);
    hide AbiWord, ToBe, BeNat, Zeros, Pow2, Keccak256;
    RightAligned(chainId, 8);
    RightAligned(epoch, 8);
    AddressSlot(contract);
    AddressSlot(miner);
    BeRoundTrip(chainId, 8);
    BeRoundTrip(epoch, 8);
    FieldsAt(text, ToBe(chainId, 8), contract, miner, ToBe(epoch, 8));
  }

  lemma FieldsAt(text: Bytes, a: Bytes, b: Bytes, c: Bytes, d: Bytes)
    requires |a| == |d| == 8 && |b| == |c| == 20
    requires text == (Zeros(24) + a) + (Zeros(12) + b) + (Zeros(12) + c) + (Zeros(24) + d)
    ensures |text| == 128
    ensures text[..24] == Zeros(24) && text[24..32] == a
    ensures text[32..44] == Zeros(12) && text[44..64] == b
    ensures text[64..76] == Zeros(12) && text[76..96] == c
    ensures text[96..120] == Zeros(24) && text[120..128] == d
  {
    hide Zeros;
  }

  /** A challenge's text is determined by its layout. */
  lemma OneText(t: Bytes, u: Bytes, chainId: nat, contract: Address, miner: Address, epoch: nat)
    requires ChallengeText(t, chainId, contract, miner, epoch) && ChallengeText(u, chainId, contract, miner, epoch)
    ensures t == u
  {
    hide Zeros, BeNat;
    SameBytes(t[24..32], u[24..32]);
    SameBytes(t[120..128], u[120..128]);
    assert t == t[..24] + t[24..32] + t[32..44] + t[44..64] + t[64..76] + t[76..96] + t[96..120] + t[120..128];
    assert u == u[..24] + u[24..32] + u[32..44] + u[44..64] + u[64..76] + u[76..96] + u[96..120] + u[120..128];
  }

  /** An attempt hashes the challenge followed by 32 bytes that spell its nonce, and the digest is read the same
      way, most significant byte first. */
  lemma WorkIs(challenge: Bytes, nonce: Word) returns (text: Bytes, digest: Bytes)
    requires |challenge| == 32
    ensures |text| == 64 && text[..32] == challenge && BeNat(text[32..]) == nonce
    ensures digest == Keccak256(text) && Work(challenge, nonce) == BeNat(digest)
  {
    hide AbiWord, BeNat, Keccak256;
    text := challenge + AbiWord(nonce);
    digest := Keccak256(text);
    AbiRoundTrip(nonce);
    assert text[32..] == AbiWord(nonce);
  }

  method ComputeInnerHash(challenge: Bytes, nonce: Word) returns (h: Bytes)
    requires |challenge| == 32
    ensures |h| == 32 && BeNat(h) == Work(challenge, nonce)
  {
    hide AbiWord, BeNat, Keccak256;
    var buf := new bv8[64](i => 0);
    CopyInto(buf, 0, challenge);
    CopyInto(buf, 32, AbiWord(nonce));
    assert buf[..] == challenge + AbiWord(nonce);
    h := Keccak256(buf[..]);
  }
}
