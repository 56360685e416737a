/** The nonces a run of launches covers between two swaps: consecutive windows modulo 2^64. */
module Coverage {
  import opened Encoding
  import opened Launch
  import opened Runtime
  import opened Words
  import opened Worker

  /** Where launch number k starts. */
  function StartOf(start: nat, batch: nat, k: nat): nat
  {
    if k == 0 then start else (StartOf(start, batch, k - 1) + batch) % U64_SIZE
  }

  lemma WrappedSum(x: nat, y: nat, m: nat)
    requires m > 0
    ensures (x % m + y) % m == (x + y) % m
  {
    SameResidue(x + y, x % m + y, x / m, m);
  }

  lemma SameNonce(x: nat, y: nat, m: nat)
    requires m > 0 && x <= y < x + m && x % m == y % m
    ensures x == y
  {
    SameMultiple(x / m, y / m, x % m, m);
  }

  lemma SameMultiple(p: nat, q: nat, r: nat, m: nat)
    requires p * m + r <= q * m + r < p * m + r + m
    ensures p == q
  {
    MulSign(q - p, m);
    MulDistributes(q, p, m);
  }

  lemma {:induction false} StartIs(start: nat, batch: nat, k: nat)
    requires start < U64_SIZE
    ensures StartOf(start, batch, k) == (start + k * batch) % U64_SIZE
  {
    if k > 0 {
      StartIs(start, batch, k - 1);
      WrappedSum(start + (k - 1) * batch, batch, U64_SIZE);
      MulDistributes(k - 1, 1, batch);
    }
  }

  /** Thread g of launch k tries the nonce `k * batch + g` places after the first. */
  lemma NonceOfLaunch(start: nat, batch: nat, k: nat, g: nat)
    requires start < U64_SIZE
    ensures NonceAt(StartOf(start, batch, k), g) == NonceAt(start, k * batch + g)
  {
    StartIs(start, batch, k);
    WrappedSum(start + k * batch, g, U64_SIZE);
  }

  /** How many nonces a number of launches tries. */
  function Tried(batch: nat, launches: nat): nat
  {
    launches * batch
  }

  lemma TriedGrows(batch: nat, launches: nat)
    ensures Tried(batch, launches) <= Tried(batch, launches + 1)
  {
    MulMonotone(launches, launches + 1, batch);
  }

  ghost predicate InSomeLaunch(start: nat, batch: nat, launches: nat, n: nat)
  {
    exists k: nat :: k < launches && InWindow(StartOf(start, batch, k), batch, n)
  }

  /** No gap: the launches together try one window of consecutive nonces. */
  lemma LaunchesCover(start: nat, batch: nat, launches: nat, n: nat)
    requires start < U64_SIZE
    ensures InSomeLaunch(start, batch, launches, n) <==> InWindow(start, Tried(batch, launches), n)
  {
    hide NonceAt;
    if InSomeLaunch(start, batch, launches, n) {
      var k: nat :| k < launches && InWindow(StartOf(start, batch, k), batch, n);
      var g: nat :| g < batch && n == NonceAt(StartOf(start, batch, k), g);
      NonceOfLaunch(start, batch, k, g);
      PlaceInRun(k, launches, batch, g);
    }
    if InWindow(start, Tried(batch, launches), n) {
      var place: nat :| place < Tried(batch, launches) && n == NonceAt(start, place);
      LaunchOfPlace(place, launches, batch);
      var k, g := place / batch, place % batch;
      NonceOfLaunch(start, batch, k, g);
      assert InWindow(StartOf(start, batch, k), batch, n);
    }
  }

  lemma PlaceInRun(k: nat, launches: nat, batch: nat, g: nat)
    requires k < launches && g < batch
    ensures 0 <= k * batch + g < launches * batch
  {
    MulMonotone(k + 1, launches, batch);
    MulDistributes(k, 1, batch);
  }

  lemma LaunchOfPlace(place: nat, launches: nat, batch: nat)
    requires place < launches * batch
    ensures batch > 0 && place / batch < launches && place == place / batch * batch + place % batch
  {
    if batch > 0 {
      FloorIff(place, batch, launches);
    }
  }

  /** No repeat: while the launches have tried at most 2^64 nonces, each was tried once. */
  lemma LaunchesNeverRepeat(start: nat, batch: nat, launches: nat, j: nat, g: nat, k: nat, h: nat)
    requires start < U64_SIZE && Tried(batch, launches) <= U64_SIZE
    requires j < launches && k < launches && g < batch && h < batch
    requires NonceAt(StartOf(start, batch, j), g) == NonceAt(StartOf(start, batch, k), h)
    ensures j == k && g == h
  {
    NonceOfLaunch(start, batch, j, g);
    NonceOfLaunch(start, batch, k, h);
    PlaceInRun(j, launches, batch, g);
    PlaceInRun(k, launches, batch, h);
    if j * batch + g <= k * batch + h {
      SameNonce(start + (j * batch + g), start + (k * batch + h), U64_SIZE);
    } else {
      SameNonce(start + (k * batch + h), start + (j * batch + g), U64_SIZE);
    }
    SameQuotient(j, k, g, h, batch);
  }

  // ---- a run of launches between two swaps ----

  /** `launches` turns of the loop with nothing pending and the hit channel open. */
  ghost predicate LaunchRun(score: Score, s: State, batch: nat, block: nat, launches: nat, t: State)
    requires Ready(s) && block > 0
    decreases launches
  {
    if launches == 0 then t == s
    else exists u: State :: LaunchRun(score, s, batch, block, launches - 1, u) && Ready(u) && LaunchesTo(score, u, batch, block, t)
  }

  /** The number of the first `launches` windows that hold a valid nonce. */
  ghost function Winning(score: Score, start: nat, batch: nat, swap: Swap, launches: nat): nat
  {
    if launches == 0 then 0
    else
      Winning(score, start, batch, swap, launches - 1)
      + (if HasHit(score, StartOf(start, batch, launches - 1), batch, swap.challenge, swap.target) then 1 else 0)
  }

  ghost predicate ValidHit(score: Score, start: nat, count: nat, swap: Swap, hit: HitEvent)
  {
    hit.epoch == swap.epoch && IsHit(score, start, count, swap.challenge, swap.target, hit.nonce)
  }

  ghost predicate AllValid(score: Score, start: nat, count: nat, swap: Swap, hits: seq<HitEvent>)
  {
    forall i :: 0 <= i < |hits| ==> ValidHit(score, start, count, swap, hits[i])
  }

  lemma WiderWindow(score: Score, start: nat, count: nat, wider: nat, swap: Swap, hits: seq<HitEvent>)
    requires count <= wider && AllValid(score, start, count, swap, hits)
    ensures AllValid(score, start, wider, swap, hits)
  {
    hide NonceAt;
    forall i | 0 <= i < |hits| ensures ValidHit(score, start, wider, swap, hits[i]) {
      assert ValidHit(score, start, count, swap, hits[i]);
    }
  }

  lemma HitOfLaunch(score: Score, start: nat, batch: nat, k: nat, launches: nat, swap: Swap, hit: HitEvent)
    requires start < U64_SIZE && k < launches
    requires ValidHit(score, StartOf(start, batch, k), batch, swap, hit)
    ensures ValidHit(score, start, Tried(batch, launches), swap, hit)
  {
    hide InWindow, StartOf;
    assert InSomeLaunch(start, batch, launches, hit.nonce);
    LaunchesCover(start, batch, launches, hit.nonce);
  }

  /** What one launch adds to the hits sent. */
  lemma LaunchSends(score: Score, s: State, batch: nat, block: nat, t: State) returns (hits: seq<HitEvent>)
    requires Ready(s) && block > 0 && Launched(batch, block) == batch
    requires LaunchesTo(score, s, batch, block, t)
    ensures t.device == s.device && t.pending == s.pending
    ensures t.nonceStart == (s.nonceStart + batch) % U64_SIZE
    ensures t.sent == s.sent + hits
    ensures |hits| == (if HasHit(score, s.nonceStart, batch, Held(s).challenge, Held(s).target) then 1 else 0)
    ensures AllValid(score, s.nonceStart, batch, Held(s), hits)
  {
    hide HasHit, IsHit, Launched, ZERO_HASH;
    var swap := Held(s);
    if HasHit(score, s.nonceStart, batch, swap.challenge, swap.target) {
      var n: nat :| IsHit(score, s.nonceStart, batch, swap.challenge, swap.target, n)
                    && t == Advance(s.(sent := s.sent + [HitEvent(n, swap.epoch)]), batch);
      hits := [HitEvent(n, swap.epoch)];
    } else {
      hits := [];
      assert t.sent == s.sent + hits;
    }
  }

  /** One hit for each window that holds a valid nonce and none for the others; each hit is a valid
      nonce of the run, tagged with the epoch of the device's challenge. */
  lemma {:induction false} RunSends(score: Score, s: State, batch: nat, block: nat, launches: nat, t: State)
      returns (hits: seq<HitEvent>)
    requires Ready(s) && s.nonceStart < U64_SIZE && block > 0 && Launched(batch, block) == batch
    requires LaunchRun(score, s, batch, block, launches, t)
    ensures t.device == s.device && t.pending == s.pending
    ensures t.nonceStart == StartOf(s.nonceStart, batch, launches)
    ensures t.sent == s.sent + hits
    ensures |hits| == Winning(score, s.nonceStart, batch, Held(s), launches)
    ensures AllValid(score, s.nonceStart, Tried(batch, launches), Held(s), hits)
    decreases launches
  {
    hide HasHit, IsHit, Launched, LaunchesTo, Ready, AllValid, Tried, Held;
    var swap, start := Held(s), s.nonceStart;
    if launches == 0 {
      hits := [];
      NoHits(score, start, Tried(batch, launches), swap);
    } else {
      var u: State :| LaunchRun(score, s, batch, block, launches - 1, u) && Ready(u) && LaunchesTo(score, u, batch, block, t);
      var before := RunSends(score, s, batch, block, launches - 1, u);
      SameDevice(s, u);
      var last := LaunchSends(score, u, batch, block, t);
      hits := before + last;
      assert s.sent + before + last == s.sent + hits;
      TriedGrows(batch, launches - 1);
      WiderWindow(score, start, Tried(batch, launches - 1), Tried(batch, launches), swap, before);
      LastHits(score, start, batch, launches - 1, launches, swap, last);
      BothValid(score, start, Tried(batch, launches), swap, before, last);
    }
  }

  lemma SameDevice(s: State, t: State)
    requires Ready(s) && Ready(t) && s.device == t.device
    ensures Held(s) == Held(t)
  {
  }

  lemma NoHits(score: Score, start: nat, count: nat, swap: Swap)
    ensures AllValid(score, start, count, swap, [])
  {
  }

  lemma LastHits(score: Score, start: nat, batch: nat, k: nat, launches: nat, swap: Swap, hits: seq<HitEvent>)
    requires start < U64_SIZE && k < launches
    requires AllValid(score, StartOf(start, batch, k), batch, swap, hits)
    ensures AllValid(score, start, Tried(batch, launches), swap, hits)
  {
    hide ValidHit, StartOf;
    forall i | 0 <= i < |hits| ensures ValidHit(score, start, Tried(batch, launches), swap, hits[i]) {
      HitOfLaunch(score, start, batch, k, launches, swap, hits[i]);
    }
  }

  lemma BothValid(score: Score, start: nat, count: nat, swap: Swap, a: seq<HitEvent>, b: seq<HitEvent>)
    requires AllValid(score, start, count, swap, a) && AllValid(score, start, count, swap, b)
    ensures AllValid(score, start, count, swap, a + b)
  {
    hide ValidHit;
  }
}
