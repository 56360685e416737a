/** The contract that is mined (docs/superpowers/specs/_contract/Hash.sol), as transactions that either
    commit or leave the storage as it was. */
module HashContract {
  import opened LiquidityAmounts
  import opened Mining
  import opened Seeding
  import opened Token
  import opened Words

  const TOTAL_SUPPLY: nat := 21_000_000_000_000_000_000_000_000
  const GENESIS_CAP: nat := 1_050_000_000_000_000_000_000_000
  const GENESIS_PRICE: nat := 10_000_000_000_000_000
  const GENESIS_UNIT: nat := 1_000_000_000_000_000_000_000
  const MAX_UNITS_PER_TX: nat := 5
  const PARTIAL_SEED_DELAY: nat := 1_800

  datatype Deployment = Deployment(self: Account, permit2: Account, controller: Account, deployedAt: nat)

  datatype Storage = Storage(
    ledger: Ledger,
    genesisEthRaised: nat,
    genesisMinted: nat,
    genesisComplete: bool,
    mine: Mine)

  datatype Env = Env(sender: Account, block: nat, timestamp: nat)

  /** A call into code that is not this contract's: what it does to the token meanwhile, and whether it
      succeeds. The guard against reentrancy leaves it only the token's own calls. */
  datatype External = External(calls: seq<Call>, ok: bool)

  function Performed(l: Ledger, calls: seq<Call>): Ledger
    decreases |calls|
  {
    if calls == [] then l else Performed(After(l, calls[0]), calls[1..])
  }

  /** What a run of calls moves out of an account by way of its allowances. */
  function PulledBy(l: Ledger, calls: seq<Call>, owner: Account): nat
    decreases |calls|
  {
    if calls == [] then 0 else Pulled(l, calls[0], owner) + PulledBy(After(l, calls[0]), calls[1..], owner)
  }

  // ---- the transactions ----

  function MintGenesis(s: Storage, env: Env, units: Word, value: Word, refund: External): Result<Storage>
  {
    var amount, cost := units * GENESIS_UNIT, units * GENESIS_PRICE;
    if s.genesisComplete then Revert
    else if units == 0 || units > MAX_UNITS_PER_TX then Revert
    else if value < cost then Revert
    else if s.genesisMinted + amount > GENESIS_CAP then Revert
    else if value > cost && !refund.ok then Revert
    else
      var ledger := if value > cost then Performed(s.ledger, refund.calls) else s.ledger;
      match Token.Mint(ledger, env.sender, amount)
      case Revert => Revert
      case Return(l) =>
        Return(s.(ledger := l, genesisMinted := s.genesisMinted + amount, genesisEthRaised := s.genesisEthRaised + cost))
  }

  /** `_seedBody`: `initialize` is the pool manager's call, `deposit` the calls to Permit2 and the
      position manager. */
  ghost function SeedBody(d: Deployment, s: Storage, env: Env, initialize: External, deposit: External): Result<Storage>
  {
    var eth, hash := s.genesisEthRaised, s.genesisMinted;
    if eth >= W || hash + MINING_SUPPLY >= W then Revert
    else
      match Token.Mint(s.ledger, d.self, hash + MINING_SUPPLY)
      case Revert => Revert
      case Return(minted) =>
        if SqrtPriceX96FromAmounts(eth, hash).Revert? || !initialize.ok || SeedLiquidity(eth, hash).Revert? then Revert
        else
          match Approve(Performed(minted, initialize.calls), d.self, d.permit2, W - 1)
          case Revert => Revert
          case Return(approved) =>
            if !deposit.ok then Revert
            else
              Return(s.(
                ledger := Performed(approved, deposit.calls),
                genesisComplete := true,
                mine := s.mine.(difficulty := FIRST_DIFFICULTY, lastAdjustmentBlock := env.block, lastAdjustmentMint := 0)))
  }

  ghost function SeedPool(d: Deployment, s: Storage, env: Env, initialize: External, deposit: External): Result<Storage>
  {
    if s.genesisComplete then Revert
    else if s.genesisMinted < GENESIS_CAP then Revert
    else SeedBody(d, s, env, initialize, deposit)
  }

  ghost function PartialSeed(d: Deployment, s: Storage, env: Env, initialize: External, deposit: External): Result<Storage>
  {
    if env.sender != d.controller then Revert
    else if s.genesisComplete then Revert
    else if env.timestamp < d.deployedAt + PARTIAL_SEED_DELAY then Revert
    else if s.genesisMinted == 0 then Revert
    else SeedBody(d, s, env, initialize, deposit)
  }

  /** `mine`; `work` is the attempt's hash as a number. */
  function MineNonce(d: Deployment, s: Storage, env: Env, nonce: Word, work: nat): Result<Storage>
  {
    if !s.genesisComplete || env.block >= W then Revert
    else
      match TryMine(s.mine, Attempt(env.sender, nonce, env.block, work))
      case Revert => Revert
      case Return(m) =>
        var reward := m.totalMinted - s.mine.totalMinted;
        match Transfer(s.ledger, d.self, env.sender, reward)
        case Revert => Revert
        case Return(l) => Return(s.(ledger := l, mine := m))
  }

  // ---- runs of transactions ----

  datatype Tx =
    | GenesisTx(env: Env, units: Word, value: Word, refund: External)
    | SeedTx(env: Env, initialize: External, deposit: External)
    | PartialSeedTx(env: Env, initialize: External, deposit: External)
    | MineTx(env: Env, nonce: Word, work: nat)
    | TokenTx(env: Env, call: Call)

  ghost function Execute(d: Deployment, s: Storage, tx: Tx): Result<Storage>
  {
    match tx
    case GenesisTx(env, units, value, refund) => MintGenesis(s, env, units, value, refund)
    case SeedTx(env, initialize, deposit) => SeedPool(d, s, env, initialize, deposit)
    case PartialSeedTx(env, initialize, deposit) => PartialSeed(d, s, env, initialize, deposit)
    case MineTx(env, nonce, work) => MineNonce(d, s, env, nonce, work)
    case TokenTx(env, call) =>
      match Perform(s.ledger, call)
      case Revert => Revert
      case Return(l) => Return(s.(ledger := l))
  }

  /** What a committed transaction pulls out of the contract's balance through its allowances. */
  function PulledInTx(d: Deployment, s: Storage, tx: Tx): nat
  {
    match tx
    case GenesisTx(_, _, _, refund) => PulledBy(s.ledger, refund.calls, d.self)
    case SeedTx(_, initialize, deposit) => PulledInSeed(d, s, initialize, deposit)
    case PartialSeedTx(_, initialize, deposit) => PulledInSeed(d, s, initialize, deposit)
    case MineTx(_, _, _) => 0
    case TokenTx(_, call) => Pulled(s.ledger, call, d.self)
  }

  function PulledInSeed(d: Deployment, s: Storage, initialize: External, deposit: External): nat
  {
    if s.genesisMinted + MINING_SUPPLY >= W then 0
    else
      match Token.Mint(s.ledger, d.self, s.genesisMinted + MINING_SUPPLY)
      case Revert => 0
      case Return(minted) =>
        match Approve(Performed(minted, initialize.calls), d.self, d.permit2, W - 1)
        case Revert => 0
        case Return(approved) =>
          PulledBy(minted, initialize.calls, d.self) + PulledBy(approved, deposit.calls, d.self)
  }

  /** Nobody speaks for the contract, or from the zero address. */
  ghost predicate OtherCallers(d: Deployment, calls: seq<Call>)
  {
    forall i :: 0 <= i < |calls| ==> calls[i].sender != d.self
  }

  ghost predicate Realistic(d: Deployment, tx: Tx)
  {
    && tx.env.sender != ZERO && tx.env.sender != d.self && tx.env.block < W
    && match tx
       case GenesisTx(_, _, _, refund) => OtherCallers(d, refund.calls)
       case SeedTx(_, initialize, deposit) => OtherCallers(d, initialize.calls) && OtherCallers(d, deposit.calls)
       case PartialSeedTx(_, initialize, deposit) => OtherCallers(d, initialize.calls) && OtherCallers(d, deposit.calls)
       case MineTx(_, _, _) => true
       case TokenTx(_, call) => call.sender != d.self
  }

  /** The chain: the contract's storage, the block, and what has been pulled from the contract so far. */
  datatype World = World(storage: Storage, block: nat, pulled: nat)

  const EMPTY_MINE: Mine := Mine(0, 0, 0, 0, 0, map[], {})

  function Deployed(block: nat): World
  {
    World(Storage(Ledger(map[], map[], 0), 0, 0, false, EMPTY_MINE), block, 0)
  }

  /** One transaction in a block no earlier than the last: commit, or leave the storage alone. */
  ghost function Next(d: Deployment, w: World, tx: Tx): World
  {
    match Execute(d, w.storage, tx)
    case Revert => w.(block := tx.env.block)
    case Return(s) => World(s, tx.env.block, w.pulled + PulledInTx(d, w.storage, tx))
  }

  ghost predicate Run(d: Deployment, w: World, txs: seq<Tx>, v: World)
    decreases |txs|
  {
    if txs == [] then w == v
    else
      && Realistic(d, txs[0])
      && w.block <= txs[0].env.block
      && Run(d, Next(d, w, txs[0]), txs[1..], v)
  }

  // ---- what every reachable state satisfies ----

  /** Genesis tokens are in fixed proportion to the ether raised, and capped. */
  ghost predicate Genesis(s: Storage)
  {
    && s.genesisMinted == SEED_RATIO * s.genesisEthRaised
    && s.genesisMinted <= GENESIS_CAP
  }

  /** The books balance, and the supply is what was minted. */
  ghost predicate Supply(s: Storage)
  {
    && Conserved(s.ledger)
    && s.ledger.totalSupply ==
       if s.genesisComplete then 2 * s.genesisMinted + MINING_SUPPLY else s.genesisMinted
  }

  /** Only Permit2 can ever move the contract's tokens, and only once the pool is seeded. */
  ghost predicate Guarded(d: Deployment, s: Storage)
  {
    forall spender: Account :: s.ledger.Allowance(d.self, spender) > 0 ==> s.genesisComplete && spender == d.permit2
  }

  /** The contract holds what is still to be mined, up to what was pulled beyond the pool's share. */
  ghost predicate Solvent(d: Deployment, w: World)
  {
    var s := w.storage;
    if s.genesisComplete then
      s.ledger.BalanceOf(d.self) + w.pulled + s.mine.totalMinted >= s.genesisMinted + MINING_SUPPLY
    else w.pulled == 0
  }

  ghost predicate MiningSound(w: World)
  {
    if w.storage.genesisComplete then Sound(w.storage.mine, w.block) else w.storage.mine == EMPTY_MINE
  }

  ghost predicate Sane(d: Deployment, w: World)
  {
    && Genesis(w.storage) && Supply(w.storage) && Guarded(d, w.storage)
    && Solvent(d, w) && MiningSound(w)
  }

  // ---- each transaction keeps it ----

  ghost predicate NoAllowance(l: Ledger, owner: Account)
  {
    forall spender: Account :: l.Allowance(owner, spender) == 0
  }

  ghost predicate OnlyAllowance(l: Ledger, owner: Account, spender: Account)
  {
    forall other: Account :: l.Allowance(owner, other) > 0 ==> other == spender
  }

  lemma FewerAllowances(l: Ledger, m: Ledger, owner: Account, spender: Account)
    requires forall s: Account :: m.Allowance(owner, s) <= l.Allowance(owner, s)
    ensures NoAllowance(l, owner) ==> NoAllowance(m, owner)
    ensures OnlyAllowance(l, owner, spender) ==> OnlyAllowance(m, owner, spender)
  {
  }

  lemma {:induction false} CallsKeep(l: Ledger, calls: seq<Call>, owner: Account)
    requires Conserved(l) && forall i :: 0 <= i < |calls| ==> calls[i].sender != owner
    ensures var m := Performed(l, calls);
      && Conserved(m) && m.totalSupply == l.totalSupply
      && m.BalanceOf(owner) + PulledBy(l, calls, owner) >= l.BalanceOf(owner)
      && (forall spender: Account :: m.Allowance(owner, spender) <= l.Allowance(owner, spender))
      && (NoAllowance(l, owner) ==> NoAllowance(m, owner) && PulledBy(l, calls, owner) == 0)
    decreases |calls|
  {
    hide Conserved, After, Pulled, Ledger.BalanceOf, Ledger.Allowance;
    if calls != [] {
      CallKeeps(l, calls[0], owner);
      CallsKeep(After(l, calls[0]), calls[1..], owner);
    }
  }

  lemma GenesisKeeps(d: Deployment, w: World, tx: Tx)
    requires Sane(d, w) && Realistic(d, tx) && tx.GenesisTx? && Execute(d, w.storage, tx).Return?
    requires w.block <= tx.env.block
    ensures Sane(d, Next(d, w, tx))
  {
    var s := w.storage;
    var ledger := if tx.value > tx.units * GENESIS_PRICE then Performed(s.ledger, tx.refund.calls) else s.ledger;
    assert NoAllowance(s.ledger, d.self);
    CallsKeep(s.ledger, tx.refund.calls, d.self);
    MintCommits(ledger, tx.env.sender, tx.units * GENESIS_UNIT);
    SameAllowances(ledger, Token.Mint(ledger, tx.env.sender, tx.units * GENESIS_UNIT).value);
    hide Conserved, Performed, PulledBy, Token.Mint, Ledger.BalanceOf, Ledger.Allowance;
  }

  lemma ApproveKeeps(l: Ledger, owner: Account, spender: Account, value: Word)
    requires Conserved(l) && Approve(l, owner, spender, value).Return?
    ensures var m := Approve(l, owner, spender, value).value;
      && Conserved(m) && m.totalSupply == l.totalSupply
      && forall a: Account :: m.BalanceOf(a) == l.BalanceOf(a)
  {
    hide Total;
  }

  lemma SeededAllowances(d: Deployment, before: seq<Call>, after: seq<Call>, minted: Ledger, approved: Ledger)
    requires NoAllowance(minted, d.self) && Conserved(minted) && Conserved(approved)
    requires OtherCallers(d, before) && OtherCallers(d, after)
    requires Approve(Performed(minted, before), d.self, d.permit2, W - 1) == Return(approved)
    ensures OnlyAllowance(Performed(approved, after), d.self, d.permit2)
  {
    hide Conserved, Performed, PulledBy;
    CallsKeep(minted, before, d.self);
    CallsKeep(approved, after, d.self);
    assert OnlyAllowance(approved, d.self, d.permit2);
    FewerAllowances(approved, Performed(approved, after), d.self, d.permit2);
  }

  /** The ledger of a seed: its supply, what the contract is left with, and who may move it. */
  lemma SeedLedger(d: Deployment, l: Ledger, amount: Word, before: seq<Call>, after: seq<Call>, minted: Ledger, approved: Ledger)
    requires Conserved(l) && NoAllowance(l, d.self)
    requires OtherCallers(d, before) && OtherCallers(d, after)
    requires Token.Mint(l, d.self, amount) == Return(minted)
    requires Approve(Performed(minted, before), d.self, d.permit2, W - 1) == Return(approved)
    ensures var m := Performed(approved, after);
      && Conserved(m) && m.totalSupply == l.totalSupply + amount
      && m.BalanceOf(d.self) + PulledBy(minted, before, d.self) + PulledBy(approved, after, d.self) >= amount
      && OnlyAllowance(m, d.self, d.permit2)
  {
    MintCommits(l, d.self, amount);
    SameAllowances(l, minted);
    assert NoAllowance(minted, d.self);
    hide Conserved, Performed, PulledBy, Token.Mint, Ledger.BalanceOf, Ledger.Allowance, Approve, NoAllowance, OnlyAllowance;
    CallsKeep(minted, before, d.self);
    ApproveKeeps(Performed(minted, before), d.self, d.permit2, W - 1);
    CallsKeep(approved, after, d.self);
    SeededAllowances(d, before, after, minted, approved);
  }

  lemma SeedKeeps(d: Deployment, w: World, env: Env, initialize: External, deposit: External, s: Storage)
    requires Sane(d, w) && !w.storage.genesisComplete && w.block <= env.block
    requires OtherCallers(d, initialize.calls) && OtherCallers(d, deposit.calls)
    requires SeedBody(d, w.storage, env, initialize, deposit) == Return(s)
    ensures Sane(d, World(s, env.block, w.pulled + PulledInSeed(d, w.storage, initialize, deposit)))
  {
    hide SeedBody, PulledInSeed, Performed, Conserved, Ledger.BalanceOf, Token.Mint, Approve;
    var minted, approved := SeedParts(d, w.storage, env, initialize, deposit, s);
    assert NoAllowance(w.storage.ledger, d.self);
    SeedLedger(d, w.storage.ledger, w.storage.genesisMinted + MINING_SUPPLY, initialize.calls, deposit.calls, minted, approved);
    SeedPulls(d, w.storage, initialize, deposit, minted, approved);
    SeededIsSound(env.block);
    hide Ledger.Allowance, Sound, PulledBy;
  }

  lemma SeedPulls(d: Deployment, s: Storage, initialize: External, deposit: External, minted: Ledger, approved: Ledger)
    requires s.genesisMinted + MINING_SUPPLY < W
    requires Token.Mint(s.ledger, d.self, s.genesisMinted + MINING_SUPPLY) == Return(minted)
    requires Approve(Performed(minted, initialize.calls), d.self, d.permit2, W - 1) == Return(approved)
    ensures PulledInSeed(d, s, initialize, deposit) ==
            PulledBy(minted, initialize.calls, d.self) + PulledBy(approved, deposit.calls, d.self)
  {
    hide Token.Mint, Approve, Performed, PulledBy;
  }

  lemma SeedParts(d: Deployment, s: Storage, env: Env, initialize: External, deposit: External, t: Storage)
      returns (minted: Ledger, approved: Ledger)
    requires s.mine == EMPTY_MINE && SeedBody(d, s, env, initialize, deposit) == Return(t)
    ensures s.genesisMinted + MINING_SUPPLY < W
    ensures Token.Mint(s.ledger, d.self, s.genesisMinted + MINING_SUPPLY) == Return(minted)
    ensures Approve(Performed(minted, initialize.calls), d.self, d.permit2, W - 1) == Return(approved)
    ensures t == Storage(Performed(approved, deposit.calls), s.genesisEthRaised, s.genesisMinted, true, Seeded(env.block))
  {
    hide Token.Mint, Approve, Performed, SqrtPriceX96FromAmounts, SeedLiquidity;
    minted := Token.Mint(s.ledger, d.self, s.genesisMinted + MINING_SUPPLY).value;
    approved := Approve(Performed(minted, initialize.calls), d.self, d.permit2, W - 1).value;
  }

  lemma RewardPaid(l: Ledger, from: Account, to: Account, reward: Word, m: Ledger)
    requires Conserved(l) && from != to && Transfer(l, from, to, reward) == Return(m)
    ensures Conserved(m) && m.totalSupply == l.totalSupply
    ensures m.BalanceOf(from) == l.BalanceOf(from) - reward
    ensures forall spender: Account :: m.Allowance(from, spender) == l.Allowance(from, spender)
  {
    UpdateConserves(l, from, to, reward);
    SameAllowances(l, m);
    hide Conserved, Update;
  }

  lemma MineTxKeeps(d: Deployment, w: World, tx: Tx)
    requires Sane(d, w) && Realistic(d, tx) && tx.MineTx? && Execute(d, w.storage, tx).Return?
    requires w.block <= tx.env.block
    ensures Sane(d, Next(d, w, tx))
  {
    hide Transfer, Conserved, Ledger.BalanceOf, Ledger.Allowance, Emission, Schedule, Counts, Envelope, TryMine, RewardAt;
    var m, env := w.storage.mine, tx.env;
    SoundLater(m, w.block, env.block);
    var a := Attempt(env.sender, tx.nonce, env.block, tx.work);
    var n := TryMine(m, a).value;
    MineKeeps(m, a, n);
    var reward := n.totalMinted - m.totalMinted;
    RewardPaid(w.storage.ledger, d.self, env.sender, reward, Transfer(w.storage.ledger, d.self, env.sender, reward).value);
  }

  lemma SoundLater(m: Mine, block: nat, later: nat)
    requires Sound(m, block) && block <= later
    ensures Sound(m, later)
  {
    TimePasses(m, block, later);
    hide Emission, Schedule, Counts, Envelope;
  }

  lemma TokenTxKeeps(d: Deployment, w: World, tx: Tx)
    requires Sane(d, w) && Realistic(d, tx) && tx.TokenTx? && Execute(d, w.storage, tx).Return?
    requires w.block <= tx.env.block
    ensures Sane(d, Next(d, w, tx))
  {
    CallKeeps(w.storage.ledger, tx.call, d.self);
    LaterSound(w, tx.env.block);
    hide Conserved, Perform, Ledger.BalanceOf, Ledger.Allowance, Sound, Pulled;
  }

  lemma LaterSound(w: World, block: nat)
    requires MiningSound(w) && w.block <= block
    ensures MiningSound(w.(block := block))
  {
    if w.storage.genesisComplete {
      SoundLater(w.storage.mine, w.block, block);
      hide Sound;
    }
  }

  lemma TransactionKeeps(d: Deployment, w: World, tx: Tx)
    requires Sane(d, w) && Realistic(d, tx) && w.block <= tx.env.block
    ensures Sane(d, Next(d, w, tx))
  {
    if Execute(d, w.storage, tx).Revert? {
      LaterSound(w, tx.env.block);
      hide Execute, Supply, Guarded, Sound;
    } else {
      match tx
      case GenesisTx(_, _, _, _) => GenesisKeeps(d, w, tx);
      case SeedTx(env, initialize, deposit) =>
        SeedKeeps(d, w, env, initialize, deposit, Execute(d, w.storage, tx).value);
      case PartialSeedTx(env, initialize, deposit) =>
        SeedKeeps(d, w, env, initialize, deposit, Execute(d, w.storage, tx).value);
      case MineTx(_, _, _) => MineTxKeeps(d, w, tx);
      case TokenTx(_, _) => TokenTxKeeps(d, w, tx);
      hide Sane, SeedBody, MintGenesis, MineNonce, Perform;
    }
  }

  lemma DeployedIsSane(d: Deployment, block: nat)
    ensures Sane(d, Deployed(block))
  {
  }

  lemma {:induction false} RunKeeps(d: Deployment, w: World, txs: seq<Tx>, v: World)
    requires Sane(d, w) && Run(d, w, txs, v)
    ensures Sane(d, v)
    decreases |txs|
  {
    hide Sane, Next, Realistic;
    if txs != [] {
      TransactionKeeps(d, w, txs[0]);
      RunKeeps(d, Next(d, w, txs[0]), txs[1..], v);
    }
  }

  // ---- the facts about whole runs ----

  ghost predicate Reachable(d: Deployment, w: World)
  {
    exists block: nat, txs: seq<Tx> :: Run(d, Deployed(block), txs, w)
  }

  lemma ReachableIsSane(d: Deployment, w: World)
    requires Reachable(d, w)
    ensures Sane(d, w)
  {
    hide Sane, Run, Deployed;
    var block: nat, txs: seq<Tx> :| Run(d, Deployed(block), txs, w);
    DeployedIsSane(d, block);
    RunKeeps(d, Deployed(block), txs, w);
  }

  /** In every reachable state the emission is the sum of the scheduled rewards, and 424,015 mints, no
      fewer, exhaust the mining supply. */
  lemma EmissionClosedForm(d: Deployment, w: World)
    requires Reachable(d, w) && w.storage.genesisComplete
    ensures w.storage.mine.totalMinted == Emitted(w.storage.mine.totalMints)
    ensures w.storage.mine.totalMints <= 424_015
    ensures w.storage.mine.totalMints == 424_015 <==> w.storage.mine.totalMinted == MINING_SUPPLY
  {
    ReachableIsSane(d, w);
    hide Supply, Guarded, Solvent;
  }

  /** In every reachable state the difficulty is within 4^r of the first, r retargets having committed;
      each counted mint used its own proof, in blocks of at most ten. */
  lemma DifficultyEnvelope(d: Deployment, w: World)
    requires Reachable(d, w) && w.storage.genesisComplete
    ensures var m := w.storage.mine; var r := m.totalMints / 2_016;
      && m.lastAdjustmentMint == 2_016 * r
      && 1 <= m.difficulty
      && FIRST_DIFFICULTY / Pow4(r) <= m.difficulty <= FIRST_DIFFICULTY * Pow4(r)
    ensures |w.storage.mine.usedProofs| == w.storage.mine.totalMints
    ensures MintsBetween(w.storage.mine.mintsInBlock, 0, w.block + 1) == w.storage.mine.totalMints
    ensures forall b :: b in w.storage.mine.mintsInBlock ==> w.storage.mine.mintsInBlock[b] <= 10
  {
    ReachableIsSane(d, w);
    hide Supply, Guarded, Solvent, Pow4, MintsBetween;
  }

  /** In every reachable state the balances sum to the supply: the genesis before the seed, and after it
      twice the genesis and the mining supply, never more than 21 million. */
  lemma SupplyIsFixed(d: Deployment, w: World)
    requires Reachable(d, w)
    ensures Total(w.storage.ledger.balances) == w.storage.ledger.totalSupply <= TOTAL_SUPPLY
    ensures w.storage.ledger.totalSupply ==
            if w.storage.genesisComplete then 2 * w.storage.genesisMinted + MINING_SUPPLY else w.storage.genesisMinted
    ensures w.storage.genesisMinted == 100_000 * w.storage.genesisEthRaised
  {
    ReachableIsSane(d, w);
    hide Guarded, Solvent, MiningSound, Total;
  }

  /** While no more than the pool's share has been pulled, the contract covers everything still to be
      mined, and the transfer of a reward cannot fail. */
  lemma MiningIsSolvent(d: Deployment, w: World, env: Env, nonce: Word, work: nat)
    requires Reachable(d, w) && w.storage.genesisComplete && w.pulled <= w.storage.genesisMinted
    requires env.sender != ZERO && env.sender != d.self && w.block <= env.block < W && d.self != ZERO
    ensures w.storage.ledger.BalanceOf(d.self) >= MINING_SUPPLY - w.storage.mine.totalMinted
    ensures MineNonce(d, w.storage, env, nonce, work).Return? <==>
            TryMine(w.storage.mine, Attempt(env.sender, nonce, env.block, work)).Return?
  {
    ReachableIsSane(d, w);
    var m, a := w.storage.mine, Attempt(env.sender, nonce, env.block, work);
    if TryMine(m, a).Return? {
      var n := TryMine(m, a).value;
      SoundLater(m, w.block, env.block);
      MineKeeps(m, a, n);
      UpdateFails(w.storage.ledger, d.self, env.sender, n.totalMinted - m.totalMinted);
      hide Counts, Schedule, Envelope, Supply, Guarded, Update, TryMine, RewardAt;
    } else {
      hide Counts, Schedule, Envelope, Supply, Guarded, TryMine;
    }
  }

  /** While no more than the pool's share has been pulled, `mine` commits exactly when the attempt did the
      work and supply, cap, proof and retarget allow it. */
  lemma MinersAreAdmitted(d: Deployment, w: World, env: Env, nonce: Word, work: nat)
    requires Reachable(d, w) && w.storage.genesisComplete && w.pulled <= w.storage.genesisMinted
    requires env.sender != ZERO && env.sender != d.self && w.block <= env.block < W && d.self != ZERO
    ensures var m, a := w.storage.mine, Attempt(env.sender, nonce, env.block, work);
      MineNonce(d, w.storage, env, nonce, work).Return? <==>
      Open(m, a) && work < m.difficulty && RetargetFits(m, env.block)
  {
    hide *;
    MiningIsSolvent(d, w, env, nonce, work);
    ReachableIsMiningSound(d, w, env.block);
    MineCommitsIff(w.storage.mine, Attempt(env.sender, nonce, env.block, work));
  }

  /** A miner is paid the reward of its era out of the contract's balance, and nothing else moves. */
  lemma MinersArePaid(d: Deployment, w: World, env: Env, nonce: Word, work: nat, t: Storage)
    requires Reachable(d, w) && w.block <= env.block < W
    requires MineNonce(d, w.storage, env, nonce, work) == Return(t)
    ensures w.storage.genesisComplete && work < w.storage.mine.difficulty
    ensures Moved(w.storage.ledger, d.self, env.sender, RewardOf(w.storage.mine.totalMints + 1), t.ledger)
    ensures t.ledger.allowances == w.storage.ledger.allowances
    ensures t == w.storage.(ledger := t.ledger, mine := t.mine)
    ensures TryMine(w.storage.mine, Attempt(env.sender, nonce, env.block, work)) == Return(t.mine)
  {
    hide *;
    var n := MinedIs(d, w.storage, env, nonce, work, t);
    ReachableIsMiningSound(d, w, env.block);
    MintsHaveWork(w.storage.mine, Attempt(env.sender, nonce, env.block, work));
    MineCommits(w.storage.mine, Attempt(env.sender, nonce, env.block, work), n);
    MineNonceIs(d, w.storage, env, nonce, work, n);
  }

  /** Whatever the state, `mine` commits only once mining is open, for work below the difficulty. */
  lemma MinersDidTheWork(d: Deployment, s: Storage, env: Env, nonce: Word, work: nat)
    requires env.block < W && MineNonce(d, s, env, nonce, work).Return?
    ensures s.genesisComplete && work < s.mine.difficulty
  {
    MintsHaveWork(s.mine, Attempt(env.sender, nonce, env.block, work));
    hide TryMine, Transfer;
  }

  lemma MinedIs(d: Deployment, s: Storage, env: Env, nonce: Word, work: nat, t: Storage) returns (n: Mine)
    requires env.block < W && MineNonce(d, s, env, nonce, work) == Return(t)
    ensures s.genesisComplete && TryMine(s.mine, Attempt(env.sender, nonce, env.block, work)) == Return(n)
  {
    hide TryMine, Transfer;
    n := t.mine;
  }

  lemma ReachableIsMiningSound(d: Deployment, w: World, block: nat)
    requires Reachable(d, w) && w.storage.genesisComplete && w.block <= block
    ensures Sound(w.storage.mine, block) && Conserved(w.storage.ledger)
  {
    ReachableIsSane(d, w);
    SoundLater(w.storage.mine, w.block, block);
    hide Sound, Conserved, Guarded, Solvent, Genesis;
  }

  lemma MineNonceIs(d: Deployment, s: Storage, env: Env, nonce: Word, work: nat, n: Mine)
    requires Conserved(s.ledger) && env.block < W
    requires TryMine(s.mine, Attempt(env.sender, nonce, env.block, work)) == Return(n)
    ensures MineNonce(d, s, env, nonce, work).Return? ==>
      var t := MineNonce(d, s, env, nonce, work).value;
      && Moved(s.ledger, d.self, env.sender, n.totalMinted - s.mine.totalMinted, t.ledger)
      && t.ledger.allowances == s.ledger.allowances
      && t == s.(ledger := t.ledger, mine := n)
  {
    hide TryMine, Conserved, Transfer, Moved;
    TransferCommits(s.ledger, d.self, env.sender, n.totalMinted - s.mine.totalMinted);
  }

  // ---- genesis and the seed, spelled out ----

  /** Calls are performed in order, and one that reverts changes nothing. */
  lemma {:induction false} PerformedInOrder(l: Ledger, calls: seq<Call>, c: Call)
    ensures Performed(l, []) == l
    ensures Performed(l, calls + [c]) ==
            match Perform(Performed(l, calls), c)
            case Revert => Performed(l, calls)
            case Return(m) => m
    decreases |calls|
  {
    hide Perform;
    if calls == [] {
      assert [c][1..] == [];
    } else {
      PerformedInOrder(After(l, calls[0]), calls[1..], c);
      assert (calls + [c])[1..] == calls[1..] + [c];
    }
  }

  /** The ledger a purchase finds once what was paid too much has been sent back. */
  function Refunded(l: Ledger, units: nat, value: nat, refund: External): Ledger
  {
    if value > units * 10_000_000_000_000_000 then Performed(l, refund.calls) else l
  }

  /** In every reachable state a genesis purchase commits exactly before the seed, for one to five units at
      0.01 ether each, paid in full, within the cap of 1,050,000 tokens, if a refund that is due succeeds.
      The buyer receives 1000 tokens a unit, and tokens and ether are recorded. */
  lemma GenesisCommits(d: Deployment, w: World, env: Env, units: Word, value: Word, refund: External)
    requires Reachable(d, w) && Realistic(d, GenesisTx(env, units, value, refund))
    ensures var s := w.storage;
      MintGenesis(s, env, units, value, refund).Return? <==>
      && !s.genesisComplete && 1 <= units <= 5
      && value >= units * 10_000_000_000_000_000
      && s.genesisMinted + units * 1_000_000_000_000_000_000_000 <= 1_050_000_000_000_000_000_000_000
      && (value > units * 10_000_000_000_000_000 ==> refund.ok)
    ensures MintGenesis(w.storage, env, units, value, refund).Return? ==>
      var s, t := w.storage, MintGenesis(w.storage, env, units, value, refund).value;
      var before := Refunded(s.ledger, units, value, refund);
      && t.genesisMinted == s.genesisMinted + units * 1_000_000_000_000_000_000_000
      && t.genesisEthRaised == s.genesisEthRaised + units * 10_000_000_000_000_000
      && t.genesisComplete == s.genesisComplete && t.mine == s.mine
      && t.ledger.allowances == before.allowances
      && forall a: Account :: t.ledger.BalanceOf(a) ==
           before.BalanceOf(a) + (if a == env.sender then units * 1_000_000_000_000_000_000_000 else 0)
  {
    ReachableIsSane(d, w);
    var s := w.storage;
    assert s.genesisMinted + units * GENESIS_UNIT <= GENESIS_CAP ==> s.genesisMinted + units * GENESIS_UNIT < W;
    CallsKeep(s.ledger, refund.calls, d.self);
    var before := Refunded(s.ledger, units, value, refund);
    if units <= 5 {
      MintCommits(before, env.sender, units * GENESIS_UNIT);
    }
    hide Guarded, Solvent, MiningSound, Conserved, Performed, Token.Mint, Ledger.BalanceOf, PulledBy, Ledger.Allowance;
  }

  ghost predicate SeedSucceeds(d: Deployment, initialize: External, deposit: External)
  {
    d.self != 0 && d.permit2 != 0 && initialize.ok && deposit.ok
  }

  /** In every reachable state the pool can be seeded by anyone exactly when the genesis is sold out and no
      seed was made, and by the controller half an hour after deployment once anything is sold, as far as
      the pool manager's and the position manager's calls succeed. */
  lemma SeedCommitsIff(d: Deployment, w: World, env: Env, initialize: External, deposit: External)
    requires Reachable(d, w) && Realistic(d, SeedTx(env, initialize, deposit))
    ensures SeedPool(d, w.storage, env, initialize, deposit).Return? <==>
      && !w.storage.genesisComplete && SeedSucceeds(d, initialize, deposit)
      && w.storage.genesisMinted == 1_050_000_000_000_000_000_000_000
    ensures PartialSeed(d, w.storage, env, initialize, deposit).Return? <==>
      && !w.storage.genesisComplete && SeedSucceeds(d, initialize, deposit)
      && w.storage.genesisMinted > 0 && env.sender == d.controller && env.timestamp >= d.deployedAt + 1_800
  {
    hide Reachable, SeedBody;
    ReachableGenesis(d, w);
    if !w.storage.genesisComplete && w.storage.genesisMinted > 0 {
      SeedBodyCommitsIff(d, w, env, initialize, deposit);
    }
  }

  lemma ReachableGenesis(d: Deployment, w: World)
    requires Reachable(d, w)
    ensures Genesis(w.storage) && Supply(w.storage) && Guarded(d, w.storage)
    ensures !w.storage.genesisComplete ==> w.storage.mine == EMPTY_MINE && w.storage.ledger.totalSupply == w.storage.genesisMinted
  {
    ReachableIsSane(d, w);
    hide Guarded, Solvent, Genesis;
  }

  lemma SeedBodyCommitsIff(d: Deployment, w: World, env: Env, initialize: External, deposit: External)
    requires Reachable(d, w) && OtherCallers(d, initialize.calls)
    requires !w.storage.genesisComplete && w.storage.genesisMinted > 0
    ensures SeedBody(d, w.storage, env, initialize, deposit).Return? <==> SeedSucceeds(d, initialize, deposit)
  {
    hide Reachable, Guarded, Conserved, Performed, Token.Mint, Approve, SqrtPriceX96FromAmounts, SeedLiquidity;
    ReachableGenesis(d, w);
    SeedIsDeterministic(d, w);
    var s := w.storage;
    MintCommits(s.ledger, d.self, s.genesisMinted + MINING_SUPPLY);
    if Token.Mint(s.ledger, d.self, s.genesisMinted + MINING_SUPPLY).Return? {
      var minted := Token.Mint(s.ledger, d.self, s.genesisMinted + MINING_SUPPLY).value;
      ApproveCommits(Performed(minted, initialize.calls), d.self, d.permit2, W - 1);
    }
    hide Ledger.BalanceOf, Ledger.Allowance;
  }

  /** What a seed leaves: as many tokens as the genesis sold and the mining supply issued to the contract,
      an unlimited allowance for Permit2, and mining open at the first difficulty, 2^224 - 1, with nothing
      mined, from this block on. */
  lemma SeedCommits(d: Deployment, w: World, env: Env, initialize: External, deposit: External, t: Storage)
      returns (minted: Ledger, approved: Ledger)
    requires Reachable(d, w) && Realistic(d, SeedTx(env, initialize, deposit))
    requires SeedPool(d, w.storage, env, initialize, deposit) == Return(t)
             || PartialSeed(d, w.storage, env, initialize, deposit) == Return(t)
    ensures var s := w.storage;
      var amount := s.genesisMinted + 18_900_000_000_000_000_000_000_000;
      && minted.allowances == s.ledger.allowances && minted.totalSupply == s.ledger.totalSupply + amount
      && (forall a: Account :: minted.BalanceOf(a) == s.ledger.BalanceOf(a) + (if a == d.self then amount else 0))
    ensures var before := Performed(minted, initialize.calls);
      && approved.balances == before.balances && approved.totalSupply == before.totalSupply
      && forall o: Account, p: Account ::
           approved.Allowance(o, p) == (if o == d.self && p == d.permit2 then W - 1 else before.Allowance(o, p))
    ensures t == Storage(Performed(approved, deposit.calls), w.storage.genesisEthRaised, w.storage.genesisMinted, true,
                         Mine(0, 0, W / 0x1_0000_0000 - 1, 0, env.block, map[], {}))
  {
    hide Reachable, Guarded, Conserved, Performed, Token.Mint, Approve, SeedBody;
    ReachableGenesis(d, w);
    assert !w.storage.genesisComplete && SeedBody(d, w.storage, env, initialize, deposit) == Return(t);
    minted, approved := SeedParts(d, w.storage, env, initialize, deposit, t);
    MintCommits(w.storage.ledger, d.self, w.storage.genesisMinted + MINING_SUPPLY);
    ApproveCommits(Performed(minted, initialize.calls), d.self, d.permit2, W - 1);
    assert FIRST_DIFFICULTY == W / 0x1_0000_0000 - 1;
    hide Ledger.BalanceOf, Ledger.Allowance;
  }

  /** Whenever the seed is reached, it reaches it at the one seed price, and neither the price nor the
      liquidity reverts. */
  lemma SeedIsDeterministic(d: Deployment, w: World)
    requires Reachable(d, w) && w.storage.genesisMinted > 0
    ensures var eth, hash := w.storage.genesisEthRaised, w.storage.genesisMinted;
      && eth < W && hash < W
      && SqrtPriceX96FromAmounts(eth, hash) == Return(SEED_PRICE)
      && SeedLiquidity(eth, hash).Return? && SeedLiquidity(eth, hash).value > 0
  {
    ReachableIsSane(d, w);
    hide Supply, Guarded, Solvent, MiningSound, SqrtPriceX96FromAmounts, SeedLiquidity;
    SeedNeverReverts(w.storage.genesisEthRaised, w.storage.genesisMinted);
  }
}
