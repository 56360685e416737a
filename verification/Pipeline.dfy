/** The miner's parts side by side: watcher (src/chain/watcher.rs), swap forwarder and hit receiver
    (src/main.rs), launch loop (src/gpu/worker.rs) and submitter (src/tx/submitter.rs). */
module Pipeline {
  import opened Encoding
  import Launch
  import opened Runtime
  import opened Words
  import opened Worker

  const QUEUE_CAPACITY: nat := 16

  /** `challengeFor` gives the miner's challenge in an epoch, `score` what a nonce hashes to under it. */
  datatype Config = Config(
    challengeFor: nat -> Hash32,
    score: Score,
    targetOverride: Option<Word>,
    batchSize: nat,
    blockSize: nat)

  datatype Update = Update(challenge: Hash32, target: Word, epoch: nat)

  /** What the submitter reads of the contract's state. */
  datatype Snapshot = Snapshot(epoch: nat, difficulty: Word)

  /** The forwarder's receiver of the watch channel; `seen` counts the updates it has looked past. */
  datatype Forwarder =
    | Starting
    | Carrying(update: Update, version: nat)
    | Waiting(seen: nat)

  datatype Submission =
    | Free
    | Received(hit: HitEvent)
    | Checked(hit: HitEvent, snapshotEpoch: nat)

  datatype Broadcast = Broadcast(nonce: nat, epoch: nat, snapshotEpoch: nat)

  datatype System = System(
    snapshot: Snapshot,
    lastEpoch: Option<nat>,     // of the poll loop
    unsent: Option<Update>,      // read by the poll loop, not yet published
    log: seq<Update>,           // everything the watch channel has held; the last is current
    forwarder: Forwarder,
    worker: State,              // `sent` holds a hit while the channel is full
    queue: seq<HitEvent>,
    submission: Submission,
    broadcasts: seq<Broadcast>)

  function ChallengeFor(c: Config, epoch: nat): Hash32
  {
    c.challengeFor(epoch)
  }

  function UpdateFor(c: Config, epoch: nat, difficulty: Word): Update
  {
    Update(ChallengeFor(c, epoch), difficulty, epoch)
  }

  function EffectiveTarget(c: Config, u: Update): Word
  {
    match c.targetOverride
    case Some(target) => target
    case None => u.target
  }

  function SwapFor(c: Config, u: Update): Swap
  {
    Swap(u.challenge, EffectiveTarget(c, u), u.epoch)
  }

  // ---- the steps ----

  ghost predicate Starts(c: Config, s: System)
  {
    && s.lastEpoch == None && s.unsent == None
    && s.log == [UpdateFor(c, s.snapshot.epoch, s.snapshot.difficulty)]
    && s.forwarder == Starting
    && s.worker.pending == None && s.worker.device == None && s.worker.sent == []
    && s.queue == [] && s.submission == Free && s.broadcasts == []
  }

  /** A poll stores what the node answers; it prepares an update only for another epoch. */
  predicate Polls(c: Config, s: System, read: Snapshot, t: System)
  {
    && s.unsent == None
    && t == s.(snapshot := read,
               unsent := if s.lastEpoch != Some(read.epoch) then Some(UpdateFor(c, read.epoch, read.difficulty)) else None)
  }

  predicate Publishes(s: System, t: System)
  {
    && s.unsent.Some?
    && t == s.(log := s.log + [s.unsent.value], lastEpoch := Some(s.unsent.value.epoch), unsent := None)
  }

  /** At first the forwarder takes the current value; later it waits for a version it has not seen. */
  predicate Borrows(s: System, t: System)
  {
    && s.log != []
    && (s.forwarder.Starting? || (s.forwarder.Waiting? && s.forwarder.seen != |s.log|))
    && t == s.(forwarder := Carrying(s.log[|s.log| - 1], |s.log|))
  }

  predicate Forwards(c: Config, s: System, t: System)
  {
    && s.forwarder.Carrying?
    && t == s.(worker := Post(s.worker, SwapFor(c, s.forwarder.update)), forwarder := Waiting(s.forwarder.version))
  }

  predicate Adopts(s: System, random: nat, t: System)
  {
    && s.worker.pending.Some? && s.worker.sent == []
    && t == s.(worker := Adopt(s.worker, random))
  }

  ghost predicate Launches(c: Config, s: System, t: System)
  {
    && c.blockSize > 0 && Ready(s.worker) && s.worker.sent == []
    && LaunchesTo(c.score, s.worker, c.batchSize, c.blockSize, t.worker)
    && t == s.(worker := t.worker)
  }

  predicate Enqueues(s: System, t: System)
  {
    && s.worker.sent != [] && |s.queue| < QUEUE_CAPACITY
    && t == s.(queue := s.queue + s.worker.sent, worker := s.worker.(sent := []))
  }

  predicate Receives(s: System, t: System)
  {
    && s.submission.Free? && s.queue != []
    && t == s.(submission := Received(s.queue[0]), queue := s.queue[1..])
  }

  /** Under its gate the submitter drops a hit whose epoch is not the snapshot's. */
  predicate ChecksEpoch(s: System, t: System)
  {
    && s.submission.Received?
    && t == s.(submission := if s.submission.hit.epoch == s.snapshot.epoch
                             then Checked(s.submission.hit, s.snapshot.epoch) else Free)
  }

  /** The value gate, a node error or a signing error ends a submission before it is broadcast. */
  predicate Drops(s: System, t: System)
  {
    && s.submission.Checked?
    && t == s.(submission := Free)
  }

  predicate Broadcasts(s: System, t: System)
  {
    && s.submission.Checked?
    && var hit := s.submission.hit;
       t == s.(broadcasts := s.broadcasts + [Broadcast(hit.nonce, hit.epoch, s.submission.snapshotEpoch)],
               submission := Free)
  }

  ghost predicate Next(c: Config, s: System, t: System)
  {
    || (exists read :: Polls(c, s, read, t))
    || Publishes(s, t)
    || Borrows(s, t)
    || Forwards(c, s, t)
    || (exists random :: Adopts(s, random, t))
    || Launches(c, s, t)
    || Enqueues(s, t)
    || Receives(s, t)
    || ChecksEpoch(s, t)
    || Drops(s, t)
    || Broadcasts(s, t)
  }

  /** A run of the miner: any interleaving of their steps. */
  ghost predicate Run(c: Config, trace: seq<System>)
  {
    && trace != []
    && Starts(c, trace[0])
    && forall i :: 0 <= i < |trace| - 1 ==> Next(c, trace[i], trace[i + 1])
  }

  // ---- safety ----

  ghost predicate Backs(c: Config, u: Update, nonce: nat)
  {
    nonce < Launch.U64_SIZE && c.score(ChallengeFor(c, u.epoch), nonce) < EffectiveTarget(c, u)
  }

  /** Some update the watcher published for this epoch accepts the nonce. */
  ghost predicate Backed(c: Config, log: seq<Update>, nonce: nat, epoch: nat)
  {
    exists i :: 0 <= i < |log| && log[i].epoch == epoch && Backs(c, log[i], nonce)
  }

  ghost predicate BackedHits(c: Config, log: seq<Update>, hits: seq<HitEvent>)
  {
    forall i :: 0 <= i < |hits| ==> Backed(c, log, hits[i].nonce, hits[i].epoch)
  }

  ghost predicate Published(c: Config, log: seq<Update>, swap: Swap)
  {
    exists i :: 0 <= i < |log| && swap == SwapFor(c, log[i])
  }

  ghost predicate SafeBroadcasts(c: Config, s: System)
  {
    forall i :: 0 <= i < |s.broadcasts| ==>
      var b := s.broadcasts[i];
      b.epoch == b.snapshotEpoch && Backed(c, s.log, b.nonce, b.epoch)
  }

  ghost predicate GoodLog(c: Config, s: System)
  {
    && s.log != []
    && (forall i :: 0 <= i < |s.log| ==> s.log[i].challenge == ChallengeFor(c, s.log[i].epoch))
    && (s.unsent.Some? ==> s.unsent.value.challenge == ChallengeFor(c, s.unsent.value.epoch))
    && (s.unsent.Some? ==> s.lastEpoch != Some(s.unsent.value.epoch))
    && (forall i :: 2 <= i < |s.log| ==> s.log[i].epoch != s.log[i - 1].epoch)
    && (|s.log| >= 2 ==> s.lastEpoch == Some(s.log[|s.log| - 1].epoch))
    && (s.forwarder.Carrying? ==> s.forwarder.update in s.log)
  }

  ghost predicate GoodWorker(c: Config, s: System)
  {
    && (s.worker.pending.Some? ==> Published(c, s.log, s.worker.pending.value))
    && (s.worker.device.Some? ==> Published(c, s.log, s.worker.device.value))
    && BackedHits(c, s.log, s.worker.sent)
    && BackedHits(c, s.log, s.queue)
  }

  ghost predicate GoodSubmission(c: Config, s: System)
  {
    && (!s.submission.Free? ==> Backed(c, s.log, s.submission.hit.nonce, s.submission.hit.epoch))
    && (s.submission.Checked? ==> s.submission.hit.epoch == s.submission.snapshotEpoch)
  }

  ghost predicate Inv(c: Config, s: System)
  {
    GoodLog(c, s) && GoodWorker(c, s) && GoodSubmission(c, s) && SafeBroadcasts(c, s)
  }

  lemma LaunchFindsBacked(c: Config, s: System, t: System)
    requires GoodLog(c, s) && GoodWorker(c, s) && Launches(c, s, t)
    ensures t == s.(worker := t.worker) && GoodWorker(c, t)
  {
    hide ChallengeFor, LaunchesTo, Ready, HasHit, Backs, Launched;
    var hits := LaunchedHits(c.score, s.worker, c.batchSize, c.blockSize, t.worker);
    var swap := s.worker.device.value;
    var i :| 0 <= i < |s.log| && swap == SwapFor(c, s.log[i]);
    if hits != [] {
      HitIsBacked(c, s.log[i], s.worker.nonceStart, Launched(c.batchSize, c.blockSize), hits[0]);
    }
  }

  lemma HitIsBacked(c: Config, u: Update, start: nat, count: nat, hit: HitEvent)
    requires u.challenge == ChallengeFor(c, u.epoch)
    requires IsHit(c.score, start, count, u.challenge, EffectiveTarget(c, u), hit.nonce)
    ensures Backs(c, u, hit.nonce)
  {
    hide ChallengeFor;
  }

  lemma LaunchedHits(score: Score, w: State, batch: nat, block: nat, v: State) returns (hits: seq<HitEvent>)
    requires block > 0 && Ready(w) && w.sent == [] && LaunchesTo(score, w, batch, block, v)
    ensures v.pending == w.pending && v.device == w.device && v.sent == hits && |hits| <= 1
    ensures w.device.Some?
    ensures hits != [] ==>
      hits[0].epoch == Held(w).epoch
      && IsHit(score, w.nonceStart, Launched(batch, block), Held(w).challenge, Held(w).target, hits[0].nonce)
  {
    hide IsHit, HasHit, Launched, ZERO_HASH;
    hits := v.sent;
  }

  // ---- each step keeps the invariant ----

  lemma BackedByLonger(c: Config, log: seq<Update>, u: Update, nonce: nat, epoch: nat)
    requires Backed(c, log, nonce, epoch)
    ensures Backed(c, log + [u], nonce, epoch)
  {
    hide Backs;
    var i :| 0 <= i < |log| && log[i].epoch == epoch && Backs(c, log[i], nonce);
    assert (log + [u])[i] == log[i];
  }

  lemma HitsBackedByLonger(c: Config, log: seq<Update>, u: Update, hits: seq<HitEvent>)
    requires BackedHits(c, log, hits)
    ensures BackedHits(c, log + [u], hits)
  {
    hide Backed;
    forall i | 0 <= i < |hits| ensures Backed(c, log + [u], hits[i].nonce, hits[i].epoch) {
      BackedByLonger(c, log, u, hits[i].nonce, hits[i].epoch);
    }
  }

  lemma PublishedInLonger(c: Config, log: seq<Update>, u: Update, swap: Swap)
    requires Published(c, log, swap)
    ensures Published(c, log + [u], swap)
  {
    hide SwapFor;
    var i :| 0 <= i < |log| && swap == SwapFor(c, log[i]);
    assert (log + [u])[i] == log[i];
  }

  lemma PublishKeeps(c: Config, s: System, t: System)
    requires Inv(c, s) && Publishes(s, t)
    ensures Inv(c, t)
  {
    hide Backed, Published, BackedHits, ChallengeFor;
    var u := s.unsent.value;
    if s.worker.pending.Some? {
      PublishedInLonger(c, s.log, u, s.worker.pending.value);
    }
    if s.worker.device.Some? {
      PublishedInLonger(c, s.log, u, s.worker.device.value);
    }
    HitsBackedByLonger(c, s.log, u, s.worker.sent);
    HitsBackedByLonger(c, s.log, u, s.queue);
    if !s.submission.Free? {
      BackedByLonger(c, s.log, u, s.submission.hit.nonce, s.submission.hit.epoch);
    }
    forall i | 0 <= i < |s.broadcasts|
      ensures Backed(c, t.log, s.broadcasts[i].nonce, s.broadcasts[i].epoch)
    {
      BackedByLonger(c, s.log, u, s.broadcasts[i].nonce, s.broadcasts[i].epoch);
    }
  }

  lemma WatcherKeeps(c: Config, s: System, t: System)
    requires Inv(c, s) && ((exists read :: Polls(c, s, read, t)) || Borrows(s, t))
    ensures Inv(c, t)
  {
    hide Backed, Published, BackedHits, ChallengeFor;
  }

  lemma ForwardKeeps(c: Config, s: System, t: System)
    requires Inv(c, s) && Forwards(c, s, t)
    ensures Inv(c, t)
  {
    hide Backed, BackedHits, ChallengeFor, SwapFor;
    var u := s.forwarder.update;
    var i :| 0 <= i < |s.log| && s.log[i] == u;
    assert Published(c, s.log, SwapFor(c, u));
  }

  lemma WorkerReplaced(c: Config, s: System, t: System)
    requires Inv(c, s) && t == s.(worker := t.worker) && GoodWorker(c, t)
    ensures Inv(c, t)
  {
    hide GoodWorker, Backed, ChallengeFor;
  }

  lemma LaunchKeeps(c: Config, s: System, t: System)
    requires Inv(c, s) && Launches(c, s, t)
    ensures Inv(c, t)
  {
    hide *;
    InvParts(c, s);
    LaunchFindsBacked(c, s, t);
    WorkerReplaced(c, s, t);
  }

  lemma InvParts(c: Config, s: System)
    requires Inv(c, s)
    ensures GoodLog(c, s) && GoodWorker(c, s)
  {
    hide GoodLog, GoodWorker, GoodSubmission, SafeBroadcasts;
  }

  lemma AdoptKeeps(c: Config, s: System, random: nat, t: System)
    requires Inv(c, s) && Adopts(s, random, t)
    ensures Inv(c, t)
  {
    hide Backed, Published, BackedHits, ChallengeFor;
  }

  lemma EnqueueKeeps(c: Config, s: System, t: System)
    requires Inv(c, s) && Enqueues(s, t)
    ensures Inv(c, t)
  {
    hide Backed, Published, ChallengeFor;
  }

  lemma SubmitterKeeps(c: Config, s: System, t: System)
    requires Inv(c, s)
    requires Receives(s, t) || ChecksEpoch(s, t) || Drops(s, t) || Broadcasts(s, t)
    ensures Inv(c, t)
  {
    hide Backed, Published, ChallengeFor;
  }

  lemma StartKeeps(c: Config, s: System)
    requires Starts(c, s)
    ensures Inv(c, s)
  {
    hide ChallengeFor, Backed, Published;
  }

  lemma StepKeeps(c: Config, s: System, t: System)
    requires Inv(c, s) && Next(c, s, t)
    ensures Inv(c, t)
  {
    hide Inv, Polls, Publishes, Borrows, Forwards, Adopts, Launches, Enqueues, Receives, ChecksEpoch, Drops, Broadcasts;
    if Publishes(s, t) {
      PublishKeeps(c, s, t);
    } else if Forwards(c, s, t) {
      ForwardKeeps(c, s, t);
    } else if (exists read :: Polls(c, s, read, t)) || Borrows(s, t) {
      WatcherKeeps(c, s, t);
    } else if Launches(c, s, t) {
      LaunchKeeps(c, s, t);
    } else if random :| Adopts(s, random, t) {
      AdoptKeeps(c, s, random, t);
    } else if Enqueues(s, t) {
      EnqueueKeeps(c, s, t);
    } else {
      SubmitterKeeps(c, s, t);
    }
  }

  lemma {:induction false} RunKeeps(c: Config, trace: seq<System>, i: nat)
    requires Run(c, trace) && i < |trace|
    ensures Inv(c, trace[i])
  {
    hide Inv, Next, Starts;
    if i == 0 {
      StartKeeps(c, trace[0]);
    } else {
      RunKeeps(c, trace, i - 1);
      StepKeeps(c, trace[i - 1], trace[i]);
    }
  }

  /** In every run, every nonce that reaches the network hashes, under the challenge of its own epoch
      tag, below the target of an update the watcher published for that epoch (or below the test
      override), and that epoch is the one the submitter read under its gate. */
  lemma BroadcastsAreSafe(c: Config, trace: seq<System>, i: nat, k: nat)
    requires Run(c, trace) && i < |trace| && k < |trace[i].broadcasts|
    ensures var b := trace[i].broadcasts[k];
      && b.epoch == b.snapshotEpoch && b.nonce < Launch.U64_SIZE
      && exists u :: u in trace[i].log && u.epoch == b.epoch
                     && u.challenge == ChallengeFor(c, b.epoch)
                     && c.score(u.challenge, b.nonce) < EffectiveTarget(c, u)
  {
    hide ChallengeFor, EffectiveTarget;
    RunKeeps(c, trace, i);
    var s := trace[i];
    var b := s.broadcasts[k];
    var j :| 0 <= j < |s.log| && s.log[j].epoch == b.epoch && Backs(c, s.log[j], b.nonce);
    assert s.log[j] in s.log;
  }

  /** Between two published updates, after the poll loop's first, the epoch has changed: the target of
      an epoch is the one read when the watcher first saw it. */
  lemma TargetsChangeWithEpochs(c: Config, trace: seq<System>, i: nat, k: nat)
    requires Run(c, trace) && i < |trace| && 2 <= k < |trace[i].log|
    ensures trace[i].log[k].epoch != trace[i].log[k - 1].epoch
  {
    RunKeeps(c, trace, i);
  }

  // ---- where the updates come from ----

  /** Some state up to the i-th held a snapshot with this epoch and this difficulty. */
  ghost predicate WasRead(trace: seq<System>, i: nat, epoch: nat, difficulty: Word)
  {
    exists j :: 0 <= j <= i && j < |trace| && trace[j].snapshot == Snapshot(epoch, difficulty)
  }

  lemma WatcherSteps(c: Config, s: System, t: System)
    requires Next(c, s, t)
    ensures t.log == s.log || (s.unsent.Some? && t.log == s.log + [s.unsent.value] && t.unsent == None)
    ensures t.unsent.Some? ==>
      t.unsent == s.unsent || t.unsent.value == Update(c.challengeFor(t.snapshot.epoch), t.snapshot.difficulty, t.snapshot.epoch)
  {
    hide Post, Adopt, LaunchesTo, Ready, SwapFor;
  }

  /** In every run, each update in the watch channel carries the epoch and the difficulty that the watcher
      read together, at some earlier state, and the challenge of that epoch. */
  lemma {:induction false} UpdatesWereRead(c: Config, trace: seq<System>, i: nat)
    requires Run(c, trace) && i < |trace|
    ensures forall k :: 0 <= k < |trace[i].log| ==>
      && trace[i].log[k].challenge == c.challengeFor(trace[i].log[k].epoch)
      && WasRead(trace, i, trace[i].log[k].epoch, trace[i].log[k].target)
    ensures trace[i].unsent.Some? ==>
      && trace[i].unsent.value.challenge == c.challengeFor(trace[i].unsent.value.epoch)
      && WasRead(trace, i, trace[i].unsent.value.epoch, trace[i].unsent.value.target)
  {
    hide Next;
    if i > 0 {
      UpdatesWereRead(c, trace, i - 1);
      WatcherSteps(c, trace[i - 1], trace[i]);
    }
  }

  lemma CurrentSteps(c: Config, s: System, t: System)
    requires Next(c, s, t) && s.log != []
    requires s.lastEpoch.Some? ==> s.lastEpoch == Some(s.log[|s.log| - 1].epoch)
    requires s.snapshot.epoch == (if s.unsent.Some? then s.unsent.value.epoch else s.log[|s.log| - 1].epoch)
    ensures t.log != []
    ensures t.lastEpoch.Some? ==> t.lastEpoch == Some(t.log[|t.log| - 1].epoch)
    ensures t.snapshot.epoch == (if t.unsent.Some? then t.unsent.value.epoch else t.log[|t.log| - 1].epoch)
  {
    hide Post, Adopt, LaunchesTo, Ready, SwapFor, ChallengeFor;
  }

  /** In every run, the newest update is for the epoch the watcher read last, unless it is about to publish
      one that is. */
  lemma {:induction false} NewestIsCurrent(c: Config, trace: seq<System>, i: nat)
    requires Run(c, trace) && i < |trace|
    ensures var s := trace[i];
      && s.log != []
      && (s.lastEpoch.Some? ==> s.lastEpoch == Some(s.log[|s.log| - 1].epoch))
      && s.snapshot.epoch == (if s.unsent.Some? then s.unsent.value.epoch else s.log[|s.log| - 1].epoch)
  {
    hide Next, ChallengeFor;
    if i > 0 {
      NewestIsCurrent(c, trace, i - 1);
      CurrentSteps(c, trace[i - 1], trace[i]);
    }
  }

  // ---- how updates reach the device ----

  /** What the device will hold once a pending swap is adopted. */
  function Latest(w: State): Option<Swap>
  {
    if w.pending.Some? then w.pending else w.device
  }

  /** The forwarder carries the update of the version it counts; once it waits, the worker has been given
      the update it last carried. */
  ghost predicate Forwarded(c: Config, s: System)
  {
    match s.forwarder
    case Starting => true
    case Carrying(u, v) => 1 <= v <= |s.log| && u == s.log[v - 1]
    case Waiting(v) => 1 <= v <= |s.log| && Latest(s.worker) == Some(SwapFor(c, s.log[v - 1]))
  }

  lemma LaunchKeepsForwarded(c: Config, s: System, t: System)
    requires Launches(c, s, t) && Forwarded(c, s)
    ensures Forwarded(c, t)
  {
    hide SwapFor, LaunchesTo, Ready;
    var hits := LaunchedHits(c.score, s.worker, c.batchSize, c.blockSize, t.worker);
  }

  lemma StepKeepsForwarded(c: Config, s: System, t: System)
    requires Next(c, s, t) && Forwarded(c, s)
    ensures Forwarded(c, t)
  {
    hide SwapFor, ChallengeFor, Launches;
    if Launches(c, s, t) {
      LaunchKeepsForwarded(c, s, t);
    }
  }

  lemma {:induction false} RunForwards(c: Config, trace: seq<System>, i: nat)
    requires Run(c, trace) && i < |trace|
    ensures Forwarded(c, trace[i])
  {
    hide Next, Forwarded, SwapFor, ChallengeFor;
    if i > 0 {
      RunForwards(c, trace, i - 1);
      StepKeepsForwarded(c, trace[i - 1], trace[i]);
    } else {
      assert Forwarded(c, trace[0]) by { StartForwards(c, trace[0]); }
    }
  }

  lemma StartForwards(c: Config, s: System)
    requires Starts(c, s)
    ensures Forwarded(c, s)
  {
    hide ChallengeFor;
  }

  /** Whenever watcher, forwarder and launch loop have caught up, the device holds the challenge of the epoch
      the watcher read last, and a difficulty read for that epoch (or the test override). */
  lemma SettledMinerIsCurrent(c: Config, trace: seq<System>, i: nat)
    requires Run(c, trace) && i < |trace|
    requires var s := trace[i]; s.unsent.None? && s.forwarder == Waiting(|s.log|) && s.worker.pending.None?
    ensures var s := trace[i];
      && s.worker.device.Some? && s.worker.device.value.epoch == s.snapshot.epoch
      && s.worker.device.value.challenge == c.challengeFor(s.snapshot.epoch)
      && match c.targetOverride
         case Some(target) => s.worker.device.value.target == target
         case None => WasRead(trace, i, s.snapshot.epoch, s.worker.device.value.target)
  {
    hide Run, ChallengeFor;
    RunForwards(c, trace, i);
    NewestIsCurrent(c, trace, i);
    UpdatesWereRead(c, trace, i);
  }

  // ---- how hits reach the submitter ----

  /** The hit a step adds to the launch loop's, if any. */
  function Made(s: System, t: System): seq<HitEvent>
  {
    if |t.worker.sent| > |s.worker.sent| then t.worker.sent[|s.worker.sent|..] else []
  }

  /** The hit a step hands to the submitter, if any. */
  function Took(s: System, t: System): seq<HitEvent>
  {
    if s.submission.Free? && !t.submission.Free? then [t.submission.hit] else []
  }

  /** Every hit the launch loop has produced, up to the i-th state. */
  function Produced(trace: seq<System>, i: nat): seq<HitEvent>
    requires i < |trace|
  {
    if i == 0 then [] else Produced(trace, i - 1) + Made(trace[i - 1], trace[i])
  }

  /** Every hit the submitter has taken, up to the i-th state. */
  function Accepted(trace: seq<System>, i: nat): seq<HitEvent>
    requires i < |trace|
  {
    if i == 0 then [] else Accepted(trace, i - 1) + Took(trace[i - 1], trace[i])
  }

  /** The hits in the channel and at its door. */
  function InFlight(s: System): seq<HitEvent>
  {
    s.queue + s.worker.sent
  }

  ghost predicate HitsKept(s: System, t: System)
  {
    && InFlight(s) + Made(s, t) == Took(s, t) + InFlight(t)
    && |Made(s, t)| <= 1
    && (|s.queue| <= 16 && |s.worker.sent| <= 1 ==> |t.queue| <= 16 && |t.worker.sent| <= 1)
  }

  lemma LaunchKeepsHits(c: Config, s: System, t: System)
    requires Launches(c, s, t)
    ensures HitsKept(s, t)
  {
    hide LaunchesTo, Ready;
    var hits := LaunchedHits(c.score, s.worker, c.batchSize, c.blockSize, t.worker);
  }

  lemma ChannelKeepsHits(s: System, t: System)
    requires Enqueues(s, t) || Receives(s, t)
    ensures HitsKept(s, t)
  {
  }

  lemma OthersKeepHits(c: Config, s: System, t: System)
    requires Next(c, s, t) && !Launches(c, s, t) && !Enqueues(s, t) && !Receives(s, t)
    ensures HitsKept(s, t)
  {
    hide LaunchesTo, Ready, SwapFor, ChallengeFor;
    assert t.queue == s.queue && t.worker.sent == s.worker.sent;
    assert Made(s, t) == [] && Took(s, t) == [];
  }

  lemma StepKeepsHits(c: Config, s: System, t: System)
    requires Next(c, s, t)
    ensures HitsKept(s, t)
  {
    hide *;
    if Launches(c, s, t) {
      LaunchKeepsHits(c, s, t);
    } else if Enqueues(s, t) || Receives(s, t) {
      ChannelKeepsHits(s, t);
    } else {
      OthersKeepHits(c, s, t);
    }
  }

  /** In every run the submitter takes the hits in the order in which they were produced, and none is lost
      or taken twice: those not yet taken are in the channel, which holds at most 16, or at its door. */
  lemma {:induction false} HitsArriveInOrder(c: Config, trace: seq<System>, i: nat)
    requires Run(c, trace) && i < |trace|
    ensures Produced(trace, i) == Accepted(trace, i) + InFlight(trace[i])
    ensures |trace[i].queue| <= 16 && |trace[i].worker.sent| <= 1
  {
    hide Next, InFlight, Made, Took, ChallengeFor;
    if i > 0 {
      HitsArriveInOrder(c, trace, i - 1);
      StepKeepsHits(c, trace[i - 1], trace[i]);
      var p, a := Produced(trace, i - 1), Accepted(trace, i - 1);
      var s, t := trace[i - 1], trace[i];
      assert p + Made(s, t) == a + (InFlight(s) + Made(s, t));
      assert a + (Took(s, t) + InFlight(t)) == (a + Took(s, t)) + InFlight(t);
    } else {
      StartsEmpty(c, trace[0]);
    }
  }

  lemma StartsEmpty(c: Config, s: System)
    requires Starts(c, s)
    ensures InFlight(s) == []
  {
    hide ChallengeFor;
  }

  // ---- what a broadcast is ----

  lemma SubmissionSteps(c: Config, s: System, t: System)
    requires Next(c, s, t)
    ensures t.submission.Checked? ==>
      t.submission == s.submission || (t.submission.snapshotEpoch == s.snapshot.epoch && t.snapshot == s.snapshot)
    ensures t.broadcasts == s.broadcasts
      || (s.submission.Checked? && t.submission.Free?
          && t.broadcasts ==
             s.broadcasts + [Broadcast(s.submission.hit.nonce, s.submission.hit.epoch, s.submission.snapshotEpoch)])
  {
    hide LaunchesTo, Ready, SwapFor, ChallengeFor, Post, Adopt;
  }

  ghost predicate EpochWasRead(trace: seq<System>, i: nat, epoch: nat)
  {
    exists j :: 0 <= j <= i && j < |trace| && trace[j].snapshot.epoch == epoch
  }

  /** In every run, the epoch of each broadcast is one the watcher had read when the submitter checked it. */
  lemma {:induction false} BroadcastsWereCurrent(c: Config, trace: seq<System>, i: nat)
    requires Run(c, trace) && i < |trace|
    ensures forall k :: 0 <= k < |trace[i].broadcasts| ==> EpochWasRead(trace, i, trace[i].broadcasts[k].snapshotEpoch)
    ensures trace[i].submission.Checked? ==> EpochWasRead(trace, i, trace[i].submission.snapshotEpoch)
  {
    hide Next, ChallengeFor;
    if i > 0 {
      BroadcastsWereCurrent(c, trace, i - 1);
      SubmissionSteps(c, trace[i - 1], trace[i]);
    }
  }

  lemma SubmissionHits(c: Config, s: System, t: System)
    requires Next(c, s, t)
    ensures !t.submission.Free? ==>
      (s.submission.Free? && Took(s, t) == [t.submission.hit])
      || (!s.submission.Free? && Took(s, t) == [] && t.submission.hit == s.submission.hit)
    ensures t.submission.Free? ==> Took(s, t) == []
    ensures t.broadcasts != s.broadcasts ==> !s.submission.Free? && t.submission.Free?
  {
    hide LaunchesTo, Ready, SwapFor, ChallengeFor, Post, Adopt;
  }

  /** In every run the submitter has only ever broadcast hits it took from the channel, each at most once: at
      least as many were taken as are broadcast or under way. */
  lemma {:induction false} BroadcastsAreTaken(c: Config, trace: seq<System>, i: nat)
    requires Run(c, trace) && i < |trace|
    ensures var s := trace[i];
      && (forall k :: 0 <= k < |s.broadcasts| ==>
            HitEvent(s.broadcasts[k].nonce, s.broadcasts[k].epoch) in Accepted(trace, i))
      && (!s.submission.Free? ==> s.submission.hit in Accepted(trace, i))
      && |s.broadcasts| + (if s.submission.Free? then 0 else 1) <= |Accepted(trace, i)|
  {
    hide Next, ChallengeFor, Took;
    if i > 0 {
      var s, t := trace[i - 1], trace[i];
      BroadcastsAreTaken(c, trace, i - 1);
      SubmissionSteps(c, s, t);
      SubmissionHits(c, s, t);
    }
  }

  // ---- safety, in terms of what the node said ----

  /** The nonce's hash is below what was read at the j-th state, for the epoch read there. */
  ghost predicate BeatsReading(c: Config, trace: seq<System>, j: nat, epoch: nat, nonce: nat)
  {
    && j < |trace| && trace[j].snapshot.epoch == epoch
    && c.score(c.challengeFor(epoch), nonce) <
       (if c.targetOverride.Some? then c.targetOverride.value else trace[j].snapshot.difficulty)
  }

  /** In every run, every nonce that reaches the network hashes, under the challenge of its epoch, below a
      difficulty that the node reported together with that epoch (or below the test override). */
  lemma BroadcastsBeatReadings(c: Config, trace: seq<System>, i: nat, k: nat)
    requires Run(c, trace) && i < |trace| && k < |trace[i].broadcasts|
    ensures trace[i].broadcasts[k].epoch == trace[i].broadcasts[k].snapshotEpoch
    ensures exists j: nat :: j <= i && BeatsReading(c, trace, j, trace[i].broadcasts[k].epoch, trace[i].broadcasts[k].nonce)
  {
    hide Run;
    BroadcastsAreSafe(c, trace, i, k);
    UpdatesWereRead(c, trace, i);
    var s := trace[i];
    var b := s.broadcasts[k];
    var u :| u in s.log && u.epoch == b.epoch && u.challenge == ChallengeFor(c, b.epoch)
             && c.score(u.challenge, b.nonce) < EffectiveTarget(c, u);
    var n :| 0 <= n < |s.log| && s.log[n] == u;
    var j :| 0 <= j <= i && j < |trace| && trace[j].snapshot == Snapshot(u.epoch, u.target);
    assert BeatsReading(c, trace, j, b.epoch, b.nonce);
  }
}
