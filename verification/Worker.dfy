/** The launch loop (src/gpu/worker.rs): pending swaps are coalesced and adopted between launches,
    hits carry the epoch of the challenge on the device, and the nonce window moves on by a batch. */
module Worker {
  import opened Challenge
  import opened Encoding
  import opened Launch
  import opened Runtime
  import opened Words

  datatype Option<T> = None | Some(value: T)

  type Hash32 = b: Bytes | |b| == 32 witness Zeros(32)

  const RANDOM_LIMIT: nat := 0x4000_0000_0000_0000  // 1 << 62

  const ZERO_HASH: Hash32 := Zeros(32)

  datatype Swap = Swap(challenge: Hash32, target: Word, epoch: nat)

  datatype HitEvent = HitEvent(nonce: nat, epoch: nat)

  // ---- what the loop does, on values ----

  /** The posted swap, the swap the device holds, the next nonce, and the hits sent. */
  datatype State = State(pending: Option<Swap>, device: Option<Swap>, nonceStart: nat, sent: seq<HitEvent>)

  function Post(s: State, swap: Swap): State
  {
    s.(pending := Some(swap))
  }

  /** The start of an iteration: take a pending swap, and restart from a random nonce. */
  function Adopt(s: State, random: nat): State
  {
    if s.pending.Some? then s.(pending := None, device := s.pending, nonceStart := random) else s
  }

  /** Of two swaps posted between launches the later one is adopted, once; with none posted nothing changes. */
  lemma LaterSwapWins(s: State, first: Swap, second: Swap, random: nat)
    ensures Adopt(Post(Post(s, first), second), random) == State(None, Some(second), random, s.sent)
    ensures Adopt(Adopt(s, random), random + 1) == Adopt(s, random)
    ensures s.pending == None ==> Adopt(s, random) == s
  {
  }

  /** There is something to launch: a swap has arrived and its challenge is not all zero. */
  predicate Ready(s: State)
  {
    s.device.Some? && s.device.value.challenge != ZERO_HASH
  }

  function Held(s: State): Swap
    requires Ready(s)
  {
    s.device.value
  }

  function Advance(s: State, batchSize: nat): State
  {
    s.(nonceStart := (s.nonceStart + batchSize) % U64_SIZE)
  }

  /** A launch whose window holds a valid nonce sends one hit, tagged with the epoch of the challenge
      on the device; any other launch sends none. */
  ghost predicate LaunchesTo(score: Score, s: State, batchSize: nat, blockSize: nat, t: State)
    requires Ready(s) && blockSize > 0
  {
    var swap, count := Held(s), Launched(batchSize, blockSize);
    if HasHit(score, s.nonceStart, count, swap.challenge, swap.target) then
      exists n: nat :: IsHit(score, s.nonceStart, count, swap.challenge, swap.target, n)
                       && t == Advance(s.(sent := s.sent + [HitEvent(n, swap.epoch)]), batchSize)
    else
      t == Advance(s, batchSize)
  }

  // ---- the loop itself ----

  class GpuWorker {
    const rt: GpuRuntime
    var pending: Option<Swap>
    var challenge: Hash32
    var epochId: nat
    var nonceStart: nat
    var totalHashes: nat
    var currentChallenge: Hash32
    var currentEpoch: nat
    var sent: seq<HitEvent>
    ghost var device: Option<Swap>

    ghost predicate Valid()
      reads this, rt, rt.challengeBuf, rt.targetBuf
    {
      && rt.Valid()
      && nonceStart < U64_SIZE
      && match device
         case None => currentChallenge == ZERO_HASH
         case Some(swap) =>
           && rt.Challenge() == currentChallenge == swap.challenge
           && rt.Target() == swap.target
           && currentEpoch == swap.epoch
    }

    ghost function View(): State
      reads this
    {
      State(pending, device, nonceStart, sent)
    }

    constructor (random: nat)
      requires random < RANDOM_LIMIT
      ensures Valid() && View() == State(None, None, random, [])
      ensures fresh(rt) && fresh(rt.challengeBuf) && fresh(rt.targetBuf) && fresh(rt.resultBuf) && fresh(rt.foundBuf)
    {
      rt := new GpuRuntime();
      pending := None;
      challenge := ZERO_HASH;
      epochId := 0;
      nonceStart := random;
      totalHashes := 0;
      currentChallenge := ZERO_HASH;
      currentEpoch := 0;
      sent := [];
      device := None;
    }

    /** A swap replaces any swap the loop has not taken yet. */
    method HotSwap(swap: Swap)
      requires Valid()
      modifies this`pending
      ensures Valid() && View() == Post(old(View()), swap)
      ensures pending == Some(swap)
    {
      hide GpuRuntime.Valid, GpuRuntime.Challenge, GpuRuntime.Target;
      pending := Some(swap);
    }

    /** One turn of the loop; it ends the loop when the driver refuses the launch or the hit channel
        is closed. */
    method Iterate(batchSize: nat, blockSize: nat, random: nat, channelOpen: bool) returns (alive: bool)
      requires Valid() && blockSize > 0 && random < RANDOM_LIMIT
      modifies this, rt, rt.challengeBuf, rt.targetBuf, rt.resultBuf, rt.foundBuf
      ensures Valid()
      ensures var s := Adopt(old(View()), random);
        if !Ready(s) then alive && View() == s
        else if alive then LaunchesTo(Work, s, batchSize, blockSize, View())
        else View() == s && (channelOpen ==> !DriverAccepts(GridCount(batchSize, blockSize), blockSize))
    {
      hide LaunchesTo, Adopt, DriverAccepts, GridCount, GpuRuntime.Valid, GpuRuntime.Challenge, GpuRuntime.Target;
      if pending.Some? {
        AdoptPending(random);
      } else {
        AdoptsNothing(View(), random);
      }
      if currentChallenge == ZERO_HASH {
        return true;
      }
      alive := LaunchBatch(batchSize, blockSize, channelOpen);
    }

    method AdoptPending(random: nat)
      requires Valid() && pending.Some? && random < RANDOM_LIMIT
      modifies this, rt, rt.challengeBuf, rt.targetBuf
      ensures Valid() && View() == Adopt(old(View()), random)
      ensures pending == None && device == old(pending) && nonceStart == random && sent == old(sent)
      ensures rt.Challenge() == old(pending).value.challenge && rt.Target() == old(pending).value.target
      ensures currentEpoch == old(pending).value.epoch
    {
      hide GpuRuntime.Valid, GpuRuntime.Challenge, GpuRuntime.Target;
      var swap := pending.value;
      pending := None;
      rt.HotSwap(swap.challenge, swap.target, swap.epoch % U32_SIZE);
      TagHits(swap, random);
    }

    /** The loop's own copy of what it just put on the device. */
    method TagHits(swap: Swap, random: nat)
      requires rt.Valid() && rt.Challenge() == swap.challenge && rt.Target() == swap.target
      requires random < RANDOM_LIMIT
      modifies this
      ensures Valid() && View() == State(old(pending), Some(swap), random, old(sent))
    {
      hide GpuRuntime.Valid, GpuRuntime.Challenge, GpuRuntime.Target;
      currentChallenge := swap.challenge;
      currentEpoch := swap.epoch;
      challenge := swap.challenge;
      epochId := swap.epoch;
      device := Some(swap);
      nonceStart := random;
    }

    method LaunchBatch(batchSize: nat, blockSize: nat, channelOpen: bool) returns (alive: bool)
      requires Valid() && Ready(View()) && blockSize > 0
      modifies this, rt.resultBuf, rt.foundBuf
      ensures Valid()
      ensures if alive then LaunchesTo(Work, old(View()), batchSize, blockSize, View())
        else View() == old(View()) && (channelOpen ==> !DriverAccepts(GridCount(batchSize, blockSize), blockSize))
    {
      hide HasHit, IsHit, GridCount, Launched, DriverAccepts, Zeros;
      hide GpuRuntime.Valid, GpuRuntime.Challenge, GpuRuntime.Target;
      var outcome := rt.LaunchMine(nonceStart, batchSize, blockSize);
      if outcome.Rejected? {
        return false;
      }
      totalHashes := (totalHashes + batchSize) % U64_SIZE;
      if outcome.Hit? {
        if !channelOpen {
          return false;
        }
        sent := sent + [HitEvent(outcome.nonce, currentEpoch)];
      }
      nonceStart := (nonceStart + batchSize) % U64_SIZE;
      alive := true;
    }
  }

  lemma AdoptsNothing(s: State, random: nat)
    ensures s.pending.None? ==> Adopt(s, random) == s
  {
  }
}
