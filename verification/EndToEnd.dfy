/** The miner against the contract it mines: what the kernel calls a hit, and what the miner broadcasts,
    is what the contract's work check accepts. */
module EndToEnd {
  import opened Challenge
  import opened Encoding
  import opened Grinder
  import Mining
  import opened Pipeline
  import opened Words
  import opened Worker

  /** For every challenge, target and 64-bit nonce: after the host's lane encoding the kernel's
      comparison holds exactly when the contract's InsufficientWork test fails. */
  lemma KernelAgreesWithContract(challenge: Bytes, difficulty: Word, nonce: nat)
    requires |challenge| == 32 && nonce < Pow2(64)
    ensures Work(LaneBytes(ChallengeLanes(challenge)), nonce) < LimbValue(TargetLanes(difficulty))
       <==> !(Work(challenge, nonce) >= difficulty)
  {
    hide *;
    ChallengeArrives(challenge);
    TargetArrives(difficulty);
  }

  // ---- the miner of one account ----

  datatype Miner = Miner(chainId: nat, contract: Address, miner: Address, batchSize: nat, blockSize: nat)

  function EpochChallenge(m: Miner, epoch: nat): Hash32
  {
    ChallengeOf(m.chainId, BeNat(m.contract), BeNat(m.miner), epoch)
  }

  /** The pipeline with the contract's hashes and no test override of the target. */
  function ConfigOf(m: Miner): Config
  {
    Config((epoch: nat) => EpochChallenge(m, epoch), Work, None, m.batchSize, m.blockSize)
  }

  /** In every run, every broadcast nonce hashes, under `compute_challenge` of its epoch tag, below a
      difficulty that the node reported with that very epoch, which is the epoch the submitter read. */
  lemma BroadcastsHashBelowTarget(m: Miner, trace: seq<System>, i: nat, k: nat)
    requires Run(ConfigOf(m), trace) && i < |trace| && k < |trace[i].broadcasts|
    ensures var b := trace[i].broadcasts[k];
      && b.epoch == b.snapshotEpoch
      && exists j :: 0 <= j <= i && trace[j].snapshot.epoch == b.epoch
                     && Work(EpochChallenge(m, b.epoch), b.nonce) < trace[j].snapshot.difficulty
  {
    hide Run, EpochChallenge, Work;
    BroadcastsBeatReadings(ConfigOf(m), trace, i, k);
    var b := trace[i].broadcasts[k];
    var j: nat :| j <= i && BeatsReading(ConfigOf(m), trace, j, b.epoch, b.nonce);
  }

  /** The miner's attempt as the contract sees it in a block. */
  function AttemptOf(m: Miner, nonce: Word, block: nat): Mining.Attempt
  {
    Mining.Attempt(BeNat(m.miner), nonce, block, Work(EpochChallenge(m, Mining.Epoch(block)), nonce))
  }

  /** The whole miner against the whole contract: in a sound state, if supply, cap, proof and retarget
      leave room, `mine` commits exactly for the nonces for which the kernel's comparison holds, on the
      lanes the host encodes of the miner's challenge and the contract's difficulty. */
  lemma KernelHitsAreMints(m: Miner, s: Mining.Mine, nonce: Word, block: nat)
    requires nonce < Pow2(64) && block < W && Mining.Sound(s, block)
    requires Mining.Open(s, AttemptOf(m, nonce, block)) && Mining.RetargetFits(s, block)
    ensures Mining.TryMine(s, AttemptOf(m, nonce, block)).Return? <==>
      Work(LaneBytes(ChallengeLanes(EpochChallenge(m, block / 100))), nonce) < LimbValue(TargetLanes(s.difficulty))
  {
    AttemptIs(m, nonce, block);
    hide *;
    Mining.MineCommitsIff(s, AttemptOf(m, nonce, block));
    KernelAgreesWithContract(EpochChallenge(m, block / 100), s.difficulty, nonce);
  }

  lemma AttemptIs(m: Miner, nonce: Word, block: nat)
    ensures AttemptOf(m, nonce, block) ==
            Mining.Attempt(BeNat(m.miner), nonce, block, Work(EpochChallenge(m, block / 100), nonce))
  {
    hide Work, EpochChallenge, BeNat;
  }

  /** A broadcast nonce that lands in a block of its own epoch, while the difficulty is no lower than the
      node ever reported it for that epoch, is mined exactly if supply, cap, proof and retarget allow. */
  lemma BroadcastsAreAccepted(m: Miner, trace: seq<System>, i: nat, k: nat, nonce: Word, s: Mining.Mine, block: nat)
    requires Run(ConfigOf(m), trace) && i < |trace| && k < |trace[i].broadcasts|
    requires trace[i].broadcasts[k].epoch == block / 100 && trace[i].broadcasts[k].nonce == nonce
    requires forall j :: 0 <= j <= i && trace[j].snapshot.epoch == block / 100 ==> trace[j].snapshot.difficulty <= s.difficulty
    requires block < W && Mining.Sound(s, block)
    ensures Mining.TryMine(s, AttemptOf(m, nonce, block)).Return? <==>
            Mining.Open(s, AttemptOf(m, nonce, block)) && Mining.RetargetFits(s, block)
  {
    AttemptIs(m, nonce, block);
    hide *;
    BroadcastsHashBelowTarget(m, trace, i, k);
    Mining.MineCommitsIff(s, AttemptOf(m, nonce, block));
  }
}
