/** The watcher's poll loop (src/chain/watcher.rs) and the submitter (src/tx/submitter.rs) as objects
    whose methods do, in one go, what the pipeline's steps do one at a time. */
module WatcherAndSubmitter {
  import opened Pipeline
  import opened Worker

  // ---- the watcher ----

  /** What the watcher has read, published and remembered. */
  datatype Watch = Watch(snapshot: Snapshot, lastEpoch: Option<nat>, log: seq<Update>)

  function WatchOf(s: System): Watch
  {
    Watch(s.snapshot, s.lastEpoch, s.log)
  }

  /** One tick of the poll loop that gets both its answers. */
  function Ticked(c: Config, w: Watch, read: Snapshot): Watch
  {
    if w.lastEpoch == Some(read.epoch) then w.(snapshot := read)
    else Watch(read, Some(read.epoch), w.log + [UpdateFor(c, read.epoch, read.difficulty)])
  }

  /** A tick is a poll, followed by a publication if the poll prepared one. */
  lemma TickIsSteps(c: Config, s: System, read: Snapshot) returns (t: System)
    requires s.unsent == None
    ensures WatchOf(t) == Ticked(c, WatchOf(s), read) && t.unsent == None
    ensures t == s.(snapshot := t.snapshot, lastEpoch := t.lastEpoch, log := t.log)
    ensures Polls(c, s, read, t) || exists u :: Polls(c, s, read, u) && Publishes(u, t)
  {
    hide ChallengeFor;
    var update := UpdateFor(c, read.epoch, read.difficulty);
    if s.lastEpoch == Some(read.epoch) {
      t := s.(snapshot := read);
    } else {
      var u := s.(snapshot := read, unsent := Some(update));
      t := s.(snapshot := read, lastEpoch := Some(read.epoch), log := s.log + [update]);
      assert Polls(c, s, read, u) && Publishes(u, t);
    }
  }

  class ChainWatcher {
    const c: Config
    var head: nat
    var lastState: Snapshot
    var lastEpoch: Option<nat>  // local to the poll loop
    var channel: seq<Update>    // every value the watch channel has held

    function View(): Watch
      reads this
    {
      Watch(lastState, lastEpoch, channel)
    }

    /** `start`: read the state once and publish it, without telling the poll loop. */
    constructor (c: Config, blockNumber: nat, initial: Snapshot)
      ensures this.c == c && head == blockNumber
      ensures View() == Watch(initial, None, [UpdateFor(c, initial.epoch, initial.difficulty)])
      ensures channel == [Update(c.challengeFor(initial.epoch), initial.difficulty, initial.epoch)]
      ensures lastState == initial && lastEpoch == None
    {
      this.c := c;
      head := blockNumber;
      lastState := initial;
      lastEpoch := None;
      channel := [UpdateFor(c, initial.epoch, initial.difficulty)];
    }

    /** One tick of `poll_loop`; a call to the node that fails answers None. Another epoch than the last
        one publishes exactly one update, of what was read; the same epoch publishes none. */
    method Tick(blockNumber: Option<nat>, read: Option<Snapshot>)
      modifies this
      ensures head == if blockNumber.Some? then blockNumber.value else old(head)
      ensures View() == if blockNumber.Some? && read.Some? then Ticked(c, old(View()), read.value) else old(View())
      ensures blockNumber.None? || read.None? ==>
        lastState == old(lastState) && lastEpoch == old(lastEpoch) && channel == old(channel)
      ensures blockNumber.Some? && read.Some? ==> lastState == read.value && lastEpoch == Some(read.value.epoch)
      ensures blockNumber.Some? && read.Some? && old(lastEpoch) == Some(read.value.epoch) ==> channel == old(channel)
      ensures blockNumber.Some? && read.Some? && old(lastEpoch) != Some(read.value.epoch) ==>
        channel == old(channel) + [Update(c.challengeFor(read.value.epoch), read.value.difficulty, read.value.epoch)]
    {
      if blockNumber.None? {
        return;
      }
      head := blockNumber.value;
      if read.None? {
        return;
      }
      var epoch, difficulty := read.value.epoch, read.value.difficulty;
      lastState := read.value;
      if lastEpoch != Some(epoch) {
        channel := channel + [Update(ChallengeFor(c, epoch), difficulty, epoch)];
        lastEpoch := Some(epoch);
      }
    }
  }

  // ---- the submitter ----

  datatype Outcome =
    | Failed                               // an error of the node or of the signer
    | Dropped
    | Sent(relay: nat, transaction: nat)   // the first relay that took it

  /** What a submission runs into, in order; None is an error. */
  datatype Conditions = Conditions(
    snapshot: Option<Snapshot>,
    gasPrice: Option<nat>,
    worthwhile: Option<bool>,
    chainNonce: Option<nat>,
    signed: bool,
    relays: seq<Option<nat>>)  // each relay's transaction hash, or its error

  class TxSubmitter {
    var nextNonce: Option<nat>
    var sent: seq<Broadcast>  // one entry for each relay that took a transaction

    constructor ()
      ensures nextNonce == None && sent == []
    {
      nextNonce := None;
      sent := [];
    }

    /** `submit` up to the broadcast. Only a hit of the snapshot's epoch reaches a relay, each relay that
        takes it is recorded, and the first one is reported. */
    method Submit(hit: HitEvent, x: Conditions) returns (r: Outcome)
      modifies this
      ensures r.Sent? <==> (
        && x.snapshot.Some? && hit.epoch == x.snapshot.value.epoch
        && x.gasPrice.Some? && x.worthwhile == Some(true)
        && (old(nextNonce).Some? || x.chainNonce.Some?) && x.signed
        && exists i :: 0 <= i < |x.relays| && x.relays[i].Some?)
      ensures r.Sent? ==>
        r.relay < |x.relays| && x.relays[r.relay] == Some(r.transaction) && forall k :: 0 <= k < r.relay ==> x.relays[k].None?
      ensures old(sent) <= sent && |sent| <= |old(sent)| + |x.relays|
      ensures |sent| > |old(sent)| <==> r.Sent?
      ensures forall i :: |old(sent)| <= i < |sent| ==>
        sent[i] == Broadcast(hit.nonce, hit.epoch, hit.epoch) && x.snapshot.Some? && x.snapshot.value.epoch == hit.epoch
    {
      if x.snapshot.None? {
        return Failed;
      }
      var snapshotEpoch := x.snapshot.value.epoch;
      if hit.epoch != snapshotEpoch {
        return Dropped;
      }
      if x.gasPrice.None? || x.worthwhile.None? {
        return Failed;
      }
      if !x.worthwhile.value {
        return Dropped;
      }
      if nextNonce.None? && x.chainNonce.None? {
        return Failed;
      }
      var nonce := if nextNonce.Some? then nextNonce.value else x.chainNonce.value;
      nextNonce := Some(nonce + 1);
      if !x.signed {
        return Failed;
      }
      r := Dropped;
      for i := 0 to |x.relays|
        invariant r.Dropped? ==> forall k :: 0 <= k < i ==> x.relays[k].None?
        invariant !r.Failed?
        invariant r.Sent? ==>
          r.relay < i && x.relays[r.relay] == Some(r.transaction) && forall k :: 0 <= k < r.relay ==> x.relays[k].None?
        invariant old(sent) <= sent && |sent| <= |old(sent)| + i && (|sent| > |old(sent)| <==> r.Sent?)
        invariant forall k :: |old(sent)| <= k < |sent| ==> sent[k] == Broadcast(hit.nonce, hit.epoch, snapshotEpoch)
      {
        if x.relays[i].Some? {
          sent := sent + [Broadcast(hit.nonce, hit.epoch, snapshotEpoch)];
          if r.Dropped? {
            r := Sent(i, x.relays[i].value);
          }
        }
      }
    }
  }
}
