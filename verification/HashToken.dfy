/** The contract as an object: its methods update the storage field by field and a failed transaction
    restores it (docs/superpowers/specs/_contract/Hash.sol). */
module HashToken {
  import opened Challenge
  import FullMath
  import opened HashContract
  import opened Mining
  import opened Seeding
  import opened Token
  import opened Words

  class Hash {
    const d: Deployment
    const chainId: nat
    const token: Erc20
    var genesisEthRaised: nat
    var genesisMinted: nat
    var genesisComplete: bool
    var totalMints: nat
    var totalMiningMinted: nat
    var currentDifficulty: Word
    var lastAdjustmentMint: nat
    var lastAdjustmentBlock: nat
    var mintsInBlock: map<nat, nat>
    var usedProofs: set<Proof>

    function MineView(): Mining.Mine
      reads this
    {
      Mining.Mine(totalMints, totalMiningMinted, currentDifficulty, lastAdjustmentMint, lastAdjustmentBlock,
                  mintsInBlock, usedProofs)
    }

    function View(): Storage
      reads this, token
    {
      Storage(Ledger(token.balances, token.allowances, token.totalSupply),
              genesisEthRaised, genesisMinted, genesisComplete, MineView())
    }

    constructor (d: Deployment, chainId: nat)
      ensures View() == Deployed(0).storage && fresh(token) && this.d == d && this.chainId == chainId
      ensures token.balances == map[] && token.allowances == map[] && token.totalSupply == 0
      ensures genesisEthRaised == genesisMinted == 0 && !genesisComplete
      ensures totalMints == totalMiningMinted == currentDifficulty == lastAdjustmentMint == lastAdjustmentBlock == 0
      ensures mintsInBlock == map[] && usedProofs == {}
    {
      this.d := d;
      this.chainId := chainId;
      token := new Erc20();
      genesisEthRaised, genesisMinted, genesisComplete := 0, 0, false;
      totalMints, totalMiningMinted, currentDifficulty := 0, 0, 0;
      lastAdjustmentMint, lastAdjustmentBlock := 0, 0;
      mintsInBlock, usedProofs := map[], {};
    }

    /** Success moves the storage to the value the transaction returns; a revert restores it. */
    twostate predicate Outcome(r: Result<Storage>, ok: bool)
      reads this, token
    {
      match r
      case Revert => !ok && View() == old(View())
      case Return(t) => ok && View() == t
    }

    twostate predicate GenesisKept()
      reads this
    {
      && genesisEthRaised == old(genesisEthRaised)
      && genesisMinted == old(genesisMinted)
      && genesisComplete == old(genesisComplete)
    }

    method Restore(s: Storage)
      modifies this, token
      ensures View() == s
    {
      token.balances, token.allowances, token.totalSupply := s.ledger.balances, s.ledger.allowances, s.ledger.totalSupply;
      genesisEthRaised, genesisMinted, genesisComplete := s.genesisEthRaised, s.genesisMinted, s.genesisComplete;
      RestoreMine(s.mine);
    }

    method RestoreMine(m: Mining.Mine)
      modifies this
      ensures MineView() == m
      ensures GenesisKept()
    {
      totalMints, totalMiningMinted, currentDifficulty := m.totalMints, m.totalMinted, m.difficulty;
      lastAdjustmentMint, lastAdjustmentBlock := m.lastAdjustmentMint, m.lastAdjustmentBlock;
      mintsInBlock, usedProofs := m.mintsInBlock, m.usedProofs;
    }

    // ---- mining ----

    /** `_adjustDifficulty`, on the 512-bit quotient of FullMath. */
    method AdjustDifficulty(block: nat) returns (ok: bool)
      requires block < W
      modifies this
      ensures ok <==> Retarget(old(MineView()), block).Return?
      ensures ok ==> MineView() == Retarget(old(MineView()), block).value
      ensures totalMiningMinted == old(totalMiningMinted)
      ensures GenesisKept()
    {
      if block < lastAdjustmentBlock {
        return false;
      }
      var taken := block - lastAdjustmentBlock;
      var current := currentDifficulty;
      var next: Word := current / 4;
      if taken != 0 {
        var quotient := FullMath.MulDiv(current, taken, ADJUSTMENT_INTERVAL * TARGET_BLOCKS_PER_MINT);
        if quotient.Revert? {
          return false;
        }
        next := quotient.value;
      }
      if next < current / 4 {
        next := current / 4;
      }
      if current * 4 >= W {
        return false;
      }
      if next > current * 4 {
        next := current * 4;
      }
      if next == 0 {
        next := 1;
      }
      currentDifficulty := next;
      lastAdjustmentMint := totalMints;
      lastAdjustmentBlock := block;
      return true;
    }

    /** The guards of `mine`, and the bookkeeping before the reward. */
    method CountMint(a: Attempt) returns (ok: bool)
      modifies this
      ensures ok <==> Allowed(old(MineView()), a)
      ensures ok ==> MineView() == Counted(old(MineView()), a)
      ensures totalMiningMinted == old(totalMiningMinted) && (ok ==> totalMiningMinted < MINING_SUPPLY)
      ensures GenesisKept()
    {
      if totalMiningMinted >= MINING_SUPPLY {
        return false;
      }
      if MintsIn(mintsInBlock, a.block) >= MAX_MINTS_PER_BLOCK {
        return false;
      }
      if a.work >= currentDifficulty {
        return false;
      }
      var key := Proof(a.miner, a.nonce, Epoch(a.block));
      if key in usedProofs {
        return false;
      }
      usedProofs := usedProofs + {key};
      mintsInBlock := mintsInBlock[a.block := MintsIn(mintsInBlock, a.block) + 1];
      totalMints := totalMints + 1;
      return true;
    }

    method TakeReward(a: Attempt) returns (ok: bool, reward: nat)
      requires a.block < W
      modifies this
      ensures ok <==> TryMine(old(MineView()), a).Return?
      ensures ok ==> MineView() == TryMine(old(MineView()), a).value
      ensures ok ==> reward == MineView().totalMinted - old(MineView()).totalMinted
      ensures GenesisKept()
    {
      hide Allowed, Counted, Retarget, RewardAt;
      reward := 0;
      ok := CountMint(a);
      if !ok || totalMints < lastAdjustmentMint {
        return false, 0;
      }
      if totalMints - lastAdjustmentMint >= ADJUSTMENT_INTERVAL {
        ok := AdjustDifficulty(a.block);
        if !ok {
          return false, 0;
        }
      }
      reward := RewardAt(totalMints);
      var left := MINING_SUPPLY - totalMiningMinted;
      if reward > left {
        reward := left;
      }
      if reward == 0 {
        return false, 0;
      }
      totalMiningMinted := totalMiningMinted + reward;
    }

    /** What `keccak256(abi.encode(_challenge(msg.sender), nonce))` is as a number. */
    function WorkOf(env: Env, nonce: Word): nat
    {
      Work(ChallengeOf(chainId, d.self, env.sender, Epoch(env.block)), nonce)
    }

    method MineBody(env: Env, nonce: Word) returns (ok: bool)
      requires env.block < W
      modifies this, token
      ensures ok <==> MineNonce(d, old(View()), env, nonce, WorkOf(env, nonce)).Return?
      ensures ok ==> View() == MineNonce(d, old(View()), env, nonce, WorkOf(env, nonce)).value
    {
      hide Work, ChallengeOf, TryMine, Transfer;
      if !genesisComplete {
        return false;
      }
      var reward: nat;
      ok, reward := TakeReward(Attempt(env.sender, nonce, env.block, WorkOf(env, nonce)));
      if ok {
        ok := token.Move(d.self, env.sender, reward);
      }
    }

    method Mine(env: Env, nonce: Word) returns (ok: bool)
      requires env.block < W
      modifies this, token
      ensures Outcome(MineNonce(d, old(View()), env, nonce, WorkOf(env, nonce)), ok)
      ensures View() == Next(d, World(old(View()), 0, 0), MineTx(env, nonce, WorkOf(env, nonce))).storage
      ensures ok ==> old(genesisComplete)
      ensures ok ==> Work(ChallengeOf(chainId, d.self, env.sender, env.block / 100), nonce) < old(currentDifficulty)
    {
      hide MineNonce, Work, ChallengeOf;
      var saved := View();
      ok := MineBody(env, nonce);
      if ok {
        MinersDidTheWork(d, saved, env, nonce, WorkOf(env, nonce));
      } else {
        Restore(saved);
      }
    }

    /** `miningState()` in a block; the subtraction reverts if more than the supply was mined. */
    method ReportState(block: nat) returns (r: Result<MiningState>)
      ensures r.Return? <==> totalMiningMinted <= MINING_SUPPLY
      ensures r.Return? ==> r.value == StateAt(MineView(), block)
      ensures r.Return? ==> (
        && r.value.era == totalMints / 100_000
        && r.value.reward == (if r.value.era < 64 then RewardOf(totalMints) else 0)
        && r.value.difficulty == currentDifficulty
        && r.value.minted == totalMiningMinted
        && r.value.minted + r.value.remaining == 18_900_000_000_000_000_000_000_000
        && r.value.epoch == block / 100
        && r.value.epochBlocksLeft == 100 - block % 100)
    {
      var era := totalMints / ERA_MINTS;
      if totalMiningMinted > MINING_SUPPLY {
        return Revert;
      }
      hide ShiftRight, Pow2;
      ShiftRightIs(BASE_REWARD, era);
      r := Return(MiningState(era, if era < 64 then ShiftRight(BASE_REWARD, era) else 0, currentDifficulty, totalMiningMinted,
                              MINING_SUPPLY - totalMiningMinted, Epoch(block), EPOCH_BLOCKS - block % EPOCH_BLOCKS));
    }

    /** A call of the token itself, which the contract inherits. */
    method CallToken(env: Env, c: Call) returns (ok: bool)
      modifies token
      ensures View() == Next(d, World(old(View()), 0, 0), TokenTx(env, c)).storage
      ensures ok <==> Perform(old(token.View()), c).Return?
    {
      hide Perform;
      ok := token.Handle(c);
    }

    // ---- genesis and the seed ----

    /** What other code does to the token while it has control. */
    method Yield(calls: seq<Call>)
      modifies token
      ensures token.View() == Performed(old(token.View()), calls)
    {
      hide After;
      ghost var l := token.View();
      var i := 0;
      while i < |calls|
        invariant 0 <= i <= |calls|
        invariant Performed(token.View(), calls[i..]) == Performed(l, calls)
      {
        ghost var before := token.View();
        var ok := token.Handle(calls[i]);
        HandledIs(before, token.View(), calls[i], ok);
        assert calls[i..][0] == calls[i] && calls[i..][1..] == calls[i + 1..];
        i := i + 1;
      }
    }

    method GenesisBody(env: Env, units: Word, value: Word, refund: External) returns (ok: bool)
      modifies this, token
      ensures ok <==> MintGenesis(old(View()), env, units, value, refund).Return?
      ensures ok ==> View() == MintGenesis(old(View()), env, units, value, refund).value
    {
      hide Performed, Token.Mint;
      if genesisComplete || units == 0 || units > MAX_UNITS_PER_TX {
        return false;
      }
      var amount := units * GENESIS_UNIT;
      var cost := units * GENESIS_PRICE;
      if value < cost || genesisMinted + amount > GENESIS_CAP {
        return false;
      }
      genesisMinted := genesisMinted + amount;
      genesisEthRaised := genesisEthRaised + cost;
      if value > cost {
        Yield(refund.calls);
        if !refund.ok {
          return false;
        }
      }
      ok := token.Issue(env.sender, amount);
    }

    method MintGenesisUnits(env: Env, units: Word, value: Word, refund: External) returns (ok: bool)
      modifies this, token
      ensures Outcome(MintGenesis(old(View()), env, units, value, refund), ok)
      ensures View() == Next(d, World(old(View()), 0, 0), GenesisTx(env, units, value, refund)).storage
    {
      hide MintGenesis;
      var saved := View();
      ok := GenesisBody(env, units, value, refund);
      if !ok {
        Restore(saved);
      }
    }

    method SeedPoolBody(env: Env, initialize: External, deposit: External) returns (ok: bool)
      modifies this, token
      ensures ok <==> SeedBody(d, old(View()), env, initialize, deposit).Return?
      ensures ok ==> View() == SeedBody(d, old(View()), env, initialize, deposit).value
    {
      hide Performed, Token.Mint, Approve, SqrtPriceX96FromAmounts, SeedLiquidity;
      genesisComplete := true;
      var eth, hash := genesisEthRaised, genesisMinted;
      if eth >= W || hash + MINING_SUPPLY >= W {
        return false;
      }
      ok := token.Issue(d.self, hash + MINING_SUPPLY);
      if !ok {
        return;
      }
      var price := ComputeSqrtPriceX96(eth, hash);
      if price.Revert? || !initialize.ok {
        return false;
      }
      Yield(initialize.calls);
      var liquidity := ComputeSeedLiquidity(eth, hash);
      if liquidity.Revert? {
        return false;
      }
      currentDifficulty := FIRST_DIFFICULTY;
      lastAdjustmentBlock := env.block;
      lastAdjustmentMint := 0;
      ok := token.SetAllowance(d.self, d.permit2, W - 1);
      if !ok || !deposit.ok {
        return false;
      }
      Yield(deposit.calls);
    }

    method SeedWholePool(env: Env, initialize: External, deposit: External) returns (ok: bool)
      modifies this, token
      ensures Outcome(SeedPool(d, old(View()), env, initialize, deposit), ok)
      ensures View() == Next(d, World(old(View()), 0, 0), SeedTx(env, initialize, deposit)).storage
    {
      hide SeedBody;
      if genesisComplete || genesisMinted < GENESIS_CAP {
        return false;
      }
      var saved := View();
      ok := SeedPoolBody(env, initialize, deposit);
      if !ok {
        Restore(saved);
      }
    }

    method SeedPartially(env: Env, initialize: External, deposit: External) returns (ok: bool)
      modifies this, token
      ensures Outcome(PartialSeed(d, old(View()), env, initialize, deposit), ok)
      ensures View() == Next(d, World(old(View()), 0, 0), PartialSeedTx(env, initialize, deposit)).storage
    {
      hide SeedBody;
      if env.sender != d.controller || genesisComplete {
        return false;
      }
      if env.timestamp < d.deployedAt + PARTIAL_SEED_DELAY || genesisMinted == 0 {
        return false;
      }
      var saved := View();
      ok := SeedPoolBody(env, initialize, deposit);
      if !ok {
        Restore(saved);
      }
    }
  }

  lemma HandledIs(l: Ledger, m: Ledger, c: Call, ok: bool)
    requires match Perform(l, c)
      case Revert => !ok && m == l
      case Return(n) => ok && m == n
    ensures m == After(l, c)
  {
    hide Perform;
  }
}
