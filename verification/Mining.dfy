/** The mining schedule of the contract (docs/superpowers/specs/_contract/Hash.sol): rewards and
    halvings, the cap on mints in a block, proof reuse, and the difficulty. */
module Mining {
  import opened FullMath
  import opened Words

  const MINING_SUPPLY: nat := 18_900_000_000_000_000_000_000_000
  const BASE_REWARD: nat := 100_000_000_000_000_000_000
  const ERA_MINTS: nat := 100_000
  const EPOCH_BLOCKS: nat := 100
  const ADJUSTMENT_INTERVAL: nat := 2_016
  const TARGET_BLOCKS_PER_MINT: nat := 5
  const MAX_MINTS_PER_BLOCK: nat := 10
  const LAST_MINT: nat := 424_015

  /** `type(uint256).max >> 32` */
  const FIRST_DIFFICULTY: Word := 0xffff_ffff_ffff_ffff_ffff_ffff_ffff_ffff_ffff_ffff_ffff_ffff_ffff_ffff

  /** What keccak256(abi.encode(miner, nonce, epoch)) stands for: proof keys are taken as injective. */
  datatype Proof = Proof(miner: nat, nonce: Word, epoch: nat)

  datatype Mine = Mine(
    totalMints: nat,
    totalMinted: nat,
    difficulty: Word,
    lastAdjustmentMint: nat,
    lastAdjustmentBlock: nat,
    mintsInBlock: map<nat, nat>,
    usedProofs: set<Proof>)

  /** A call of `mine`: `work` is the attempt's hash as a number. */
  datatype Attempt = Attempt(miner: nat, nonce: Word, block: nat, work: nat)

  function MintsIn(counts: map<nat, nat>, block: nat): nat
  {
    if block in counts then counts[block] else 0
  }

  function Epoch(block: nat): nat
  {
    block / EPOCH_BLOCKS
  }

  /** The reward of the mint that brings the counter to `mints`. */
  function RewardAt(mints: nat): nat
  {
    var era := mints / ERA_MINTS;
    if era < 64 then ShiftRight(BASE_REWARD, era) else 0
  }

  // ---- difficulty ----

  function Clamp(next: nat, current: nat): nat
  {
    var raised := if next < current / 4 then current / 4 else next;
    var lowered := if raised > current * 4 then current * 4 else raised;
    if lowered == 0 then 1 else lowered
  }

  /** `_adjustDifficulty`; the comparison with four times the current one is checked arithmetic. */
  function NextDifficulty(current: Word, taken: nat): Result<Word>
    requires taken < W
  {
    var next :=
      if taken == 0 then Return(current / 4)
      else MulDivFloor(current, taken, ADJUSTMENT_INTERVAL * TARGET_BLOCKS_PER_MINT);
    match next
    case Revert => Revert
    case Return(n) => if current * 4 >= W then Revert else Return(Clamp(n, current))
  }

  function Retarget(m: Mine, block: nat): Result<Mine>
    requires block < W
  {
    if block < m.lastAdjustmentBlock then Revert
    else
      match NextDifficulty(m.difficulty, block - m.lastAdjustmentBlock)
      case Revert => Revert
      case Return(d) =>
        Return(m.(difficulty := d, lastAdjustmentMint := m.totalMints, lastAdjustmentBlock := block))
  }

  // ---- a mint ----

  predicate Allowed(m: Mine, a: Attempt)
  {
    && m.totalMinted < MINING_SUPPLY
    && MintsIn(m.mintsInBlock, a.block) < MAX_MINTS_PER_BLOCK
    && a.work < m.difficulty
    && Proof(a.miner, a.nonce, Epoch(a.block)) !in m.usedProofs
  }

  function Counted(m: Mine, a: Attempt): Mine
  {
    m.(usedProofs := m.usedProofs + {Proof(a.miner, a.nonce, Epoch(a.block))},
       mintsInBlock := m.mintsInBlock[a.block := MintsIn(m.mintsInBlock, a.block) + 1],
       totalMints := m.totalMints + 1)
  }

  function Adjusted(m: Mine, block: nat): Result<Mine>
    requires block < W
  {
    if m.totalMints < m.lastAdjustmentMint then Revert
    else if m.totalMints - m.lastAdjustmentMint >= ADJUSTMENT_INTERVAL then Retarget(m, block)
    else Return(m)
  }

  /** What is paid for a mint: the reward of its era, or what is left of the supply. */
  function Payout(m: Mine): nat
    requires m.totalMinted <= MINING_SUPPLY
  {
    var left := MINING_SUPPLY - m.totalMinted;
    var reward := RewardAt(m.totalMints);
    if reward > left then left else reward
  }

  /** `mine` up to the transfer of the reward. */
  function TryMine(m: Mine, a: Attempt): (r: Result<Mine>)
    requires a.block < W
    ensures r.Return? ==> 0 < r.value.totalMinted - m.totalMinted <= MINING_SUPPLY
  {
    if !Allowed(m, a) then Revert
    else
      match Adjusted(Counted(m, a), a.block)
      case Revert => Revert
      case Return(n) =>
        if Payout(n) == 0 then Revert
        else Return(n.(totalMinted := n.totalMinted + Payout(n)))
  }

  // ---- emission ----

  /** The rewards of the first `mints` mints. */
  function Emitted(mints: nat): nat
  {
    if mints == 0 then 0 else Emitted(mints - 1) + RewardAt(mints)
  }

  lemma RewardByEra(mints: nat)
    requires mints <= LAST_MINT + 1
    ensures RewardAt(mints) ==
            if mints < 100_000 then 100_000_000_000_000_000_000
            else if mints < 200_000 then 50_000_000_000_000_000_000
            else if mints < 300_000 then 25_000_000_000_000_000_000
            else if mints < 400_000 then 12_500_000_000_000_000_000
            else 6_250_000_000_000_000_000
  {
    var era := mints / ERA_MINTS;
    assert era == 0 || era == 1 || era == 2 || era == 3 || era == 4;
  }

  /** The emission era by era, up to the last mint. */
  lemma {:induction false} EmissionByEra(mints: nat)
    requires mints <= LAST_MINT
    ensures Emitted(mints) ==
            if mints < 100_000 then mints * 100_000_000_000_000_000_000
            else if mints < 200_000 then 9_999_900_000_000_000_000_000_000 + (mints - 99_999) * 50_000_000_000_000_000_000
            else if mints < 300_000 then 14_999_900_000_000_000_000_000_000 + (mints - 199_999) * 25_000_000_000_000_000_000
            else if mints < 400_000 then 17_499_900_000_000_000_000_000_000 + (mints - 299_999) * 12_500_000_000_000_000_000
            else 18_749_900_000_000_000_000_000_000 + (mints - 399_999) * 6_250_000_000_000_000_000
    decreases mints
  {
    if mints > 0 {
      EmissionByEra(mints - 1);
      RewardByEra(mints);
      hide RewardAt;
    }
  }

  /** In the first 424,015 mints the reward is positive and fits in what is left; the last mint takes
      exactly the rest. */
  lemma NeverClamped(mints: nat)
    requires 0 < mints <= LAST_MINT
    ensures 0 < RewardAt(mints) <= MINING_SUPPLY - Emitted(mints - 1)
    ensures mints / ERA_MINTS < 64
    ensures Emitted(mints) == MINING_SUPPLY <==> mints == LAST_MINT
  {
    EmissionByEra(mints);
    EmissionByEra(mints - 1);
    RewardByEra(mints);
    hide RewardAt, Emitted;
  }

  // ---- mints per block ----

  /** The mints in blocks lo to hi - 1. */
  function MintsBetween(counts: map<nat, nat>, lo: nat, hi: nat): nat
  {
    if hi <= lo then 0 else MintsBetween(counts, lo, hi - 1) + MintsIn(counts, hi - 1)
  }

  lemma {:induction false} OneMoreMint(counts: map<nat, nat>, block: nat, lo: nat, hi: nat)
    ensures MintsBetween(counts[block := MintsIn(counts, block) + 1], lo, hi) ==
            MintsBetween(counts, lo, hi) + if lo <= block < hi then 1 else 0
    decreases hi
  {
    if lo < hi {
      OneMoreMint(counts, block, lo, hi - 1);
    }
  }

  lemma {:induction false} CappedBlocks(counts: map<nat, nat>, lo: nat, hi: nat)
    requires forall b :: b in counts ==> counts[b] <= MAX_MINTS_PER_BLOCK
    ensures lo <= hi ==> MintsBetween(counts, lo, hi) <= MAX_MINTS_PER_BLOCK * (hi - lo)
    decreases hi
  {
    if lo < hi {
      CappedBlocks(counts, lo, hi - 1);
    }
  }

  lemma {:induction false} QuietBlocks(counts: map<nat, nat>, lo: nat, mid: nat, hi: nat)
    requires mid <= hi && forall b :: b in counts ==> b < mid
    ensures MintsBetween(counts, lo, hi) == if lo <= mid then MintsBetween(counts, lo, mid) else 0
    decreases hi
  {
    if mid < hi {
      QuietBlocks(counts, lo, mid, hi - 1);
    } else if lo > mid {
    }
  }

  // ---- what every reachable state satisfies ----

  function Pow4(n: nat): (p: nat)
    ensures p > 0
  {
    if n == 0 then 1 else 4 * Pow4(n - 1)
  }

  /** After r retargets the difficulty is within a factor of 4^r of the first, and never 0. */
  ghost predicate Envelope(difficulty: nat, r: nat)
  {
    difficulty >= 1 && FIRST_DIFFICULTY / Pow4(r) <= difficulty <= FIRST_DIFFICULTY * Pow4(r)
  }

  function Retargets(m: Mine): nat
  {
    m.totalMints / ADJUSTMENT_INTERVAL
  }

  ghost predicate Emission(m: Mine)
  {
    && m.totalMinted == Emitted(m.totalMints)
    && m.totalMints <= LAST_MINT
    && (m.totalMinted == MINING_SUPPLY <==> m.totalMints == LAST_MINT)
    && m.totalMinted <= MINING_SUPPLY
  }

  ghost predicate Schedule(m: Mine)
  {
    m.lastAdjustmentMint == ADJUSTMENT_INTERVAL * Retargets(m)
  }

  /** Every mint is counted in its block, no block holds more than ten, and none is in the future. */
  ghost predicate Counts(m: Mine, block: nat)
  {
    && (forall b :: b in m.mintsInBlock ==> b <= block && m.mintsInBlock[b] <= MAX_MINTS_PER_BLOCK)
    && MintsBetween(m.mintsInBlock, 0, block + 1) == m.totalMints
    && m.lastAdjustmentBlock <= block
    && m.lastAdjustmentMint <= m.totalMints
    && m.totalMints - m.lastAdjustmentMint <= MintsBetween(m.mintsInBlock, m.lastAdjustmentBlock, block + 1)
    && |m.usedProofs| == m.totalMints
  }

  ghost predicate Sound(m: Mine, block: nat)
  {
    Emission(m) && Schedule(m) && Counts(m, block) && Envelope(m.difficulty, Retargets(m))
  }

  lemma TimePasses(m: Mine, block: nat, later: nat)
    requires Counts(m, block) && block <= later
    ensures Counts(m, later)
  {
    QuietBlocks(m.mintsInBlock, 0, block + 1, later + 1);
    QuietBlocks(m.mintsInBlock, m.lastAdjustmentBlock, block + 1, later + 1);
  }

  /** A counted mint keeps the books: one more in its block, and one more proof. */
  lemma CountedKeeps(m: Mine, a: Attempt)
    requires Counts(m, a.block) && Allowed(m, a)
    ensures Counts(Counted(m, a), a.block)
  {
    OneMoreMint(m.mintsInBlock, a.block, 0, a.block + 1);
    OneMoreMint(m.mintsInBlock, a.block, m.lastAdjustmentBlock, a.block + 1);
  }

  /** A retarget is at least 201 blocks after the last one, so `taken == 0` never happens. */
  lemma RetargetSpacing(m: Mine, a: Attempt)
    requires Counts(m, a.block) && Allowed(m, a)
    requires m.totalMints + 1 - m.lastAdjustmentMint >= ADJUSTMENT_INTERVAL
    ensures a.block - m.lastAdjustmentBlock >= 201
  {
    CountedKeeps(m, a);
    var n := Counted(m, a);
    CappedBlocks(n.mintsInBlock, n.lastAdjustmentBlock, a.block + 1);
  }

  lemma ClampIs(q: nat, current: nat)
    ensures var next := Clamp(q, current);
      && next >= 1
      && current / 4 <= next <= (if current == 0 then 1 else 4 * current)
      && (1 <= q && current / 4 <= q <= 4 * current ==> next == q)
      && (1 <= current / 4 && q < current / 4 ==> next == current / 4)
      && (1 <= current && q > 4 * current ==> next == 4 * current)
  {
  }

  /** A retarget commits exactly when neither product overflows, and sets floor(current * taken / 10080)
      clamped to a factor of four and to at least 1. */
  lemma RetargetIs(current: Word, taken: nat)
    requires taken < W
    ensures NextDifficulty(current, taken).Return? <==> 4 * current < W && (taken == 0 || current * taken / 10_080 < W)
    ensures NextDifficulty(current, taken).Return? ==>
      NextDifficulty(current, taken).value ==
      if taken == 0 then Clamp(current / 4, current) else Clamp(current * taken / 10_080, current)
  {
    FitsIff(current, taken, 10_080);
    FloorIs(current, taken, 10_080);
    hide MulDivFloor, Clamp;
  }

  // ---- a mint keeps the state sound ----

  lemma QuarterFloor(x: nat, p: nat)
    requires p > 0
    ensures x / (4 * p) == x / p / 4
  {
    var q := x / p;
    var r := x % p;
    assert x == q * p + r;
    QuarterOf(x, q, r, p, q / 4, q % 4);
  }

  lemma QuarterOf(x: nat, q: nat, r: nat, p: nat, s: nat, t: nat)
    requires p > 0 && r < p && x == q * p + r && q == 4 * s + t && t < 4
    ensures x / (4 * p) == s
  {
    MulAssociates(s, 4, p);
    MulDistributes(4 * s, t, p);
    MulMonotone(t, 3, p);
    DivModOf(x, s, t * p + r, 4 * p);
  }

  lemma EnvelopeWidens(current: nat, next: nat, r: nat)
    requires Envelope(current, r) && next >= 1 && current / 4 <= next <= 4 * current
    ensures Envelope(next, r + 1)
  {
    hide FIRST_DIFFICULTY;
    QuarterFloor(FIRST_DIFFICULTY, Pow4(r));
    MulAssociates(FIRST_DIFFICULTY, 4, Pow4(r));
  }

  /** The mint that completes an adjustment interval retargets; no other does. */
  lemma AdjustmentDue(m: Mine, a: Attempt)
    requires Sound(m, a.block)
    ensures m.totalMints - m.lastAdjustmentMint < ADJUSTMENT_INTERVAL
    ensures Counted(m, a).totalMints - m.lastAdjustmentMint >= ADJUSTMENT_INTERVAL <==>
            (m.totalMints + 1) % ADJUSTMENT_INTERVAL == 0
    ensures Retargets(Counted(m, a)) == Retargets(m) + if (m.totalMints + 1) % ADJUSTMENT_INTERVAL == 0 then 1 else 0
  {
    hide Emission, Counts, Envelope;
  }

  lemma FewerBlocks(m: Mine, n: Mine, block: nat)
    requires Counts(m, block)
    requires n.mintsInBlock == m.mintsInBlock && n.usedProofs == m.usedProofs && n.totalMints == m.totalMints
    requires n.lastAdjustmentMint == m.totalMints && n.lastAdjustmentBlock == block
    ensures Counts(n, block)
  {
  }

  lemma AdjustedKeeps(m: Mine, a: Attempt, n: Mine)
    requires a.block < W && Sound(m, a.block) && Allowed(m, a)
    requires Adjusted(Counted(m, a), a.block) == Return(n)
    ensures Counts(n, a.block) && Schedule(n) && Envelope(n.difficulty, Retargets(n))
    ensures n.totalMints == m.totalMints + 1 && n.totalMinted == m.totalMinted
  {
    var c := Counted(m, a);
    CountedKeeps(m, a);
    AdjustmentDue(m, a);
    if (m.totalMints + 1) % ADJUSTMENT_INTERVAL == 0 {
      RetargetSpacing(m, a);
      var taken := a.block - m.lastAdjustmentBlock;
      RetargetIs(m.difficulty, taken);
      ClampIs(m.difficulty * taken / 10_080, m.difficulty);
      FewerBlocks(c, n, a.block);
      hide Counts, Emission, MulDivFloor, Clamp;
      EnvelopeWidens(m.difficulty, n.difficulty, Retargets(m));
    }
  }

  /** A mint pays exactly the reward of its place in the schedule, and keeps the state sound. */
  lemma MineKeeps(m: Mine, a: Attempt, n: Mine)
    requires a.block < W && Sound(m, a.block) && TryMine(m, a) == Return(n)
    ensures Sound(n, a.block)
    ensures n.totalMints == m.totalMints + 1
    ensures n.totalMinted == m.totalMinted + RewardAt(m.totalMints + 1)
    ensures Proof(a.miner, a.nonce, Epoch(a.block)) !in m.usedProofs
    ensures n.usedProofs == m.usedProofs + {Proof(a.miner, a.nonce, Epoch(a.block))}
  {
    hide Envelope, RewardAt, Counted, Retarget, MintsBetween;
    var d := Adjusted(Counted(m, a), a.block).value;
    AdjustedKeeps(m, a, d);
    NeverClamped(m.totalMints + 1);
    AdjustedProofs(m, a, d);
  }

  lemma AdjustedProofs(m: Mine, a: Attempt, n: Mine)
    requires a.block < W && Adjusted(Counted(m, a), a.block) == Return(n)
    ensures n.usedProofs == m.usedProofs + {Proof(a.miner, a.nonce, Epoch(a.block))}
  {
  }

  /** What is still to be said against an attempt that did the work: the supply, the cap of its block, and
      its proof. */
  predicate Open(m: Mine, a: Attempt)
  {
    && m.totalMinted < 18_900_000_000_000_000_000_000_000
    && (a.block in m.mintsInBlock ==> m.mintsInBlock[a.block] < 10)
    && Proof(a.miner, a.nonce, a.block / 100) !in m.usedProofs
  }

  /** A retarget, if one is due, overflows neither of its products. */
  predicate RetargetFits(m: Mine, block: nat)
  {
    (m.totalMints + 1) % 2_016 == 0 ==>
      4 * m.difficulty < W && m.difficulty * Elapsed(m, block) / 10_080 < W
  }

  function Elapsed(m: Mine, block: nat): nat
  {
    if m.lastAdjustmentBlock <= block then block - m.lastAdjustmentBlock else 0
  }

  /** In a sound state `mine` commits exactly when the supply, the cap and the proof allow it, the work is
      below the difficulty, and a due retarget does not overflow: the clamp to what is left, the
      zero-reward revert and the branch for eras past 63 are never taken. */
  lemma MineCommitsIff(m: Mine, a: Attempt)
    requires a.block < W && Sound(m, a.block)
    ensures TryMine(m, a).Return? <==> Open(m, a) && a.work < m.difficulty && RetargetFits(m, a.block)
  {
    if Allowed(m, a) {
      AdjustmentDue(m, a);
      NeverClamped(m.totalMints + 1);
      if (m.totalMints + 1) % ADJUSTMENT_INTERVAL == 0 {
        RetargetSpacing(m, a);
        RetargetIs(m.difficulty, a.block - m.lastAdjustmentBlock);
      }
      hide RewardAt, NextDifficulty, Envelope, MintsBetween;
    }
  }

  /** In any state at all, sound or not, a mint did the work. */
  lemma MintsHaveWork(m: Mine, a: Attempt)
    requires a.block < W && TryMine(m, a).Return?
    ensures a.work < m.difficulty && Open(m, a)
  {
    hide Adjusted, Counted, Payout;
  }

  /** 100 tokens, halved every 100,000 mints. */
  function RewardOf(mint: nat): int
  {
    100_000_000_000_000_000_000 / Pow2(mint / 100_000)
  }

  /** Everything a committed mint leaves behind: the reward of its era paid, one more mint in its block, its
      proof used, and the difficulty, which only the mint that ends an interval of 2016 changes, to the
      floor of current * taken / 10080 within a factor of four and never 0. */
  lemma MineCommits(m: Mine, a: Attempt, n: Mine)
    requires a.block < W && Sound(m, a.block) && TryMine(m, a) == Return(n)
    ensures n.totalMints == m.totalMints + 1
    ensures n.totalMinted - m.totalMinted == RewardOf(m.totalMints + 1)
    ensures n.mintsInBlock == m.mintsInBlock[a.block := if a.block in m.mintsInBlock then m.mintsInBlock[a.block] + 1 else 1]
    ensures n.usedProofs == m.usedProofs + {Proof(a.miner, a.nonce, a.block / 100)}
    ensures (m.totalMints + 1) % 2_016 != 0 ==> (
      && n.difficulty == m.difficulty
      && n.lastAdjustmentMint == m.lastAdjustmentMint && n.lastAdjustmentBlock == m.lastAdjustmentBlock)
    ensures (m.totalMints + 1) % 2_016 == 0 ==> (
      && n.lastAdjustmentMint == m.totalMints + 1 && n.lastAdjustmentBlock == a.block
      && n.difficulty == Between(m.difficulty / 4, m.difficulty * Elapsed(m, a.block) / 10_080, 4 * m.difficulty))
  {
    MineKeeps(m, a, n);
    NeverClamped(m.totalMints + 1);
    ShiftRightIs(BASE_REWARD, (m.totalMints + 1) / ERA_MINTS);
    AdjustmentDue(m, a);
    MineTouches(m, a, n);
    hide Pow2, ShiftRight, Sound, Allowed, Counted, Adjusted, TryMine;
  }

  /** The middle one of two bounds and a value, but at least 1. */
  function Between(lo: nat, x: nat, hi: nat): nat
  {
    var y := if x < lo then lo else if x > hi then hi else x;
    if y == 0 then 1 else y
  }

  lemma MineTouches(m: Mine, a: Attempt, n: Mine)
    requires a.block < W && Sound(m, a.block) && TryMine(m, a) == Return(n)
    ensures n.mintsInBlock == m.mintsInBlock[a.block := if a.block in m.mintsInBlock then m.mintsInBlock[a.block] + 1 else 1]
    ensures (m.totalMints + 1) % 2_016 != 0 ==> (
      && n.difficulty == m.difficulty
      && n.lastAdjustmentMint == m.lastAdjustmentMint && n.lastAdjustmentBlock == m.lastAdjustmentBlock)
    ensures (m.totalMints + 1) % 2_016 == 0 ==> (
      && n.lastAdjustmentMint == m.totalMints + 1 && n.lastAdjustmentBlock == a.block
      && n.difficulty == Between(m.difficulty / 4, m.difficulty * Elapsed(m, a.block) / 10_080, 4 * m.difficulty))
  {
    AdjustmentDue(m, a);
    if (m.totalMints + 1) % ADJUSTMENT_INTERVAL == 0 {
      RetargetSpacing(m, a);
      RetargetIs(m.difficulty, a.block - m.lastAdjustmentBlock);
    }
    hide RewardAt, NextDifficulty, Envelope, Counts, Emission, MintsBetween;
  }

  /** The state the seed leaves behind. */
  function Seeded(block: nat): Mine
  {
    Mine(0, 0, FIRST_DIFFICULTY, 0, block, map[], {})
  }

  lemma {:induction false} NoMints(lo: nat, hi: nat)
    ensures MintsBetween(map[], lo, hi) == 0
    decreases hi
  {
    if lo < hi {
      NoMints(lo, hi - 1);
    }
  }

  lemma SeededIsSound(block: nat)
    ensures Sound(Seeded(block), block)
  {
    NoMints(0, block + 1);
    NoMints(block, block + 1);
    assert Emitted(0) == 0 && Pow4(0) == 1;
  }

  // ---- what the contract reports ----

  /** `miningState()` */
  datatype MiningState = MiningState(
    era: nat, reward: nat, difficulty: Word, minted: nat, remaining: nat, epoch: nat, epochBlocksLeft: nat)

  function StateAt(m: Mine, block: nat): MiningState
    requires m.totalMinted <= MINING_SUPPLY
  {
    MiningState(m.totalMints / ERA_MINTS, RewardAt(m.totalMints), m.difficulty, m.totalMinted,
                MINING_SUPPLY - m.totalMinted, Epoch(block), EPOCH_BLOCKS - block % EPOCH_BLOCKS)
  }

  /** The blocks left are those until the epoch changes. */
  lemma ReportedEpoch(m: Mine, block: nat)
    requires m.totalMinted <= MINING_SUPPLY
    ensures var s := StateAt(m, block);
      && 1 <= s.epochBlocksLeft <= EPOCH_BLOCKS
      && Epoch(block + s.epochBlocksLeft) == s.epoch + 1
      && forall b :: block <= b < block + s.epochBlocksLeft ==> Epoch(b) == s.epoch
  {
  }

  lemma HalvingsAreSteps(mints: nat)
    requires mints < LAST_MINT
    ensures RewardAt(mints) == RewardAt(mints + 1) <==> (mints + 1) % ERA_MINTS != 0
  {
    hide RewardAt;
    RewardByEra(mints);
    RewardByEra(mints + 1);
  }

  /** The reward reported is the reward the next mint pays, except just before a halving: it looks up the
      era of the last mint, not of the next. */
  lemma ReportedRewardIsPaidIff(m: Mine, block: nat, a: Attempt)
    requires Sound(m, block) && a.block == block < W && TryMine(m, a).Return?
    ensures TryMine(m, a).value.totalMinted - m.totalMinted == StateAt(m, block).reward
       <==> (m.totalMints + 1) % ERA_MINTS != 0
  {
    hide RewardAt, TryMine, Counts, Schedule, Envelope;
    MineKeeps(m, a, TryMine(m, a).value);
    HalvingsAreSteps(m.totalMints);
  }
}
