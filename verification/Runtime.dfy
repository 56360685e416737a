/** The host side of a launch (src/gpu/kernel_ffi.rs): device buffers, lane encoding, grid size, and
    the readback of flag and result. */
module Runtime {
  import opened Challenge
  import opened Encoding
  import opened Grinder
  import opened Launch
  import opened Words

  datatype Outcome =
    | Rejected        // the driver refuses the grid
    | Miss
    | Hit(nonce: nat)

  // ---- grid size ----

  /** `(batch_size / block_size) as u32`: the cast keeps the low 32 bits. */
  function GridCount(batchSize: nat, blockSize: nat): nat
    requires blockSize > 0
  {
    batchSize / blockSize % U32_SIZE
  }

  function Launched(batchSize: nat, blockSize: nat): nat
    requires blockSize > 0
  {
    GridCount(batchSize, blockSize) * blockSize
  }

  lemma LaunchedIs(batchSize: nat, blockSize: nat)
    requires blockSize > 0
    ensures Launched(batchSize, blockSize) == GridCount(batchSize, blockSize) * blockSize
  {
  }

  /** The launch tries exactly the batch if and only if the block size divides it and the quotient
      survives the cast. */
  lemma LaunchesBatch(batchSize: nat, blockSize: nat)
    requires blockSize > 0
    ensures Launched(batchSize, blockSize) <= batchSize
    ensures Launched(batchSize, blockSize) == batchSize
       <==> batchSize % blockSize == 0 && batchSize / blockSize < U32_SIZE
  {
    var q := batchSize / blockSize;
    assert batchSize == q * blockSize + batchSize % blockSize;
    KeptIff(q, U32_SIZE);
    KeptProduct(GridCount(batchSize, blockSize), q, batchSize % blockSize, blockSize);
  }

  lemma KeptIff(q: nat, m: nat)
    requires m > 0
    ensures q % m <= q && (q % m == q <==> q < m)
  {
  }

  lemma KeptProduct(k: nat, q: nat, r: nat, b: nat)
    requires k <= q && r < b
    ensures k * b <= q * b + r
    ensures k * b == q * b + r <==> k == q && r == 0
  {
    MulSign(k - q, b);
    MulDistributes(k, q, b);
  }

  /** `blockIdx.x * blockDim.x + threadIdx.x` */
  function GlobalId(block: nat, thread: nat, blockSize: nat): nat
  {
    block * blockSize + thread
  }

  /** The threads of a grid are numbered from 0 to gridCount * blockSize - 1 without gap or repeat. */
  lemma ThreadsAreNumbered(gridCount: nat, blockSize: nat, block: nat, thread: nat, g: nat)
    requires blockSize > 0 && thread < blockSize
    ensures GlobalId(block, thread, blockSize) == g <==> block == g / blockSize && thread == g % blockSize
    ensures block < gridCount <==> GlobalId(block, thread, blockSize) < gridCount * blockSize
  {
    if GlobalId(block, thread, blockSize) == g {
      DivModOf(g, block, thread, blockSize);
    }
    MulSign(block - gridCount, blockSize);
    MulDistributes(block, gridCount, blockSize);
  }

  /** CUDA limits: at most 2^31 - 1 blocks of at most 1024 threads, and neither count zero. */
  predicate DriverAccepts(gridCount: nat, blockSize: nat)
  {
    0 < gridCount < 0x8000_0000 && 0 < blockSize <= 1024
  }

  // ---- the device ----

  /** What a nonce scores under a challenge; the device scores by `Work`. */
  type Score = (Bytes, nat) -> nat

  /** The race of a launch over nonces, with a challenge and a target. */
  ghost function JobOf(score: Score, threads: nat, nonceStart: nat, challenge: Bytes, target: nat): Job
  {
    Job(threads, nonceStart, (n: nat) => score(challenge, n) < target)
  }

  function NonceAt(start: nat, g: nat): (n: nat)
    ensures n < U64_SIZE
  {
    (start + g) % U64_SIZE
  }

  /** Nonce n is one of `count` consecutive ones from `start`, counting modulo 2^64. */
  ghost predicate InWindow(start: nat, count: nat, n: nat)
  {
    exists g: nat :: g < count && n == NonceAt(start, g)
  }

  ghost predicate IsHit(score: Score, start: nat, count: nat, challenge: Bytes, target: nat, n: nat)
  {
    InWindow(start, count, n) && score(challenge, n) < target
  }

  ghost predicate HasHit(score: Score, start: nat, count: nat, challenge: Bytes, target: nat)
  {
    exists n: nat :: IsHit(score, start, count, challenge, target, n)
  }

  /** Counting from `start` modulo 2^64, the window is the nonces less than `count` steps away. */
  lemma WindowIs(start: nat, count: nat, n: nat)
    ensures InWindow(start, count, n) <==>
      n < 0x1_0000_0000_0000_0000 && (n - start) % 0x1_0000_0000_0000_0000 < count
  {
    if g: nat :| g < count && n == NonceAt(start, g) {
      StepsAway(start, g, U64_SIZE);
    }
    var back := (n - start) % U64_SIZE;
    if n < U64_SIZE && back < count {
      WayBack(start, n, U64_SIZE);
      assert n == NonceAt(start, back);
    }
  }

  lemma StepsAway(start: nat, g: nat, m: nat)
    requires m > 0
    ensures ((start + g) % m - start) % m <= g
  {
    var q, r := (start + g) / m, (start + g) % m;
    assert start + g == q * m + r;
    SameResidue(r - start, g, -q, m);
    DivAtMost(g, m);
    assert g == g / m * m + g % m;
  }

  lemma WayBack(start: nat, n: nat, m: nat)
    requires n < m
    ensures (start + (n - start) % m) % m == n
  {
    var q, r := (n - start) / m, (n - start) % m;
    assert n - start == q * m + r;
    SameResidue(start + r, n, -q, m);
    DivModOf(n, 0, n, m);
  }

  /** A hit is a nonce of the window whose hash is below the target. */
  lemma HitsAre(score: Score, start: nat, count: nat, challenge: Bytes, target: nat, n: nat)
    ensures IsHit(score, start, count, challenge, target, n) <==>
      n < 0x1_0000_0000_0000_0000 && (n - start) % 0x1_0000_0000_0000_0000 < count && score(challenge, n) < target
  {
    WindowIs(start, count, n);
  }

  lemma SettledLaunch(score: Score, threads: nat, nonceStart: nat, challenge: Bytes, target: nat, d: Device)
    requires Settled(JobOf(score, threads, nonceStart, challenge, target), d)
    ensures d.found <==> HasHit(score, nonceStart, threads, challenge, target)
    ensures d.found ==> IsHit(score, nonceStart, threads, challenge, target, d.result)
  {
    var job := JobOf(score, threads, nonceStart, challenge, target);
    if n: nat :| IsHit(score, nonceStart, threads, challenge, target, n) {
      var g: nat :| g < threads && n == NonceAt(nonceStart, g);
      assert job.Good(g);
    }
    if d.found {
      var g := d.writes[0];
      assert d.result == NonceAt(nonceStart, g);
      assert IsHit(score, nonceStart, threads, challenge, target, d.result);
    }
  }

  class GpuRuntime {
    const challengeBuf: array<bv64>
    const targetBuf: array<bv64>
    const resultBuf: array<nat>
    const foundBuf: array<int>
    var epochId: nat  // a u32

    ghost function Inputs(): set<object>
    {
      {challengeBuf as object, targetBuf as object}
    }

    ghost predicate Valid()
      reads this
    {
      && challengeBuf.Length == targetBuf.Length == 4
      && resultBuf.Length == foundBuf.Length == 1
      && challengeBuf != targetBuf
      && Inputs() !! {resultBuf as object, foundBuf as object}
    }

    /** The challenge and the target the device holds. */
    ghost function Challenge(): (c: Bytes)
      requires Valid()
      reads this, challengeBuf
    {
      LaneBytes(challengeBuf[..])
    }

    ghost function Target(): nat
      requires Valid()
      reads this, targetBuf
    {
      LimbValue(targetBuf[..])
    }

    constructor ()
      ensures Valid() && fresh(challengeBuf) && fresh(targetBuf) && fresh(resultBuf) && fresh(foundBuf)
      ensures epochId == 0
    {
      challengeBuf := new bv64[4](i => 0);
      targetBuf := new bv64[4](i => 0);
      resultBuf := new nat[1](i => 0);
      foundBuf := new int[1](i => 0);
      epochId := 0;
    }

    method HotSwap(challenge: Bytes, target: Word, epoch: nat)
      requires Valid() && |challenge| == 32
      modifies this`epochId, challengeBuf, targetBuf
      ensures Valid() && Challenge() == challenge && Target() == target && epochId == epoch
    {
      hide LaneBytes, LimbValue, FromLe, FromBe, AbiWord, ToBe;
      var lanes, limbs := ChallengeLanes(challenge), TargetLanes(target);
      CopyInto(challengeBuf, 0, lanes);
      CopyInto(targetBuf, 0, limbs);
      epochId := epoch;
      assert challengeBuf[..] == lanes && targetBuf[..] == limbs;
      ChallengeArrives(challenge);
      TargetArrives(target);
    }

    /** The device memory and the threads' phases are as a state of the concurrent program says. */
    ghost predicate Shows(phases: array<Phase>, d: Device)
      requires Valid()
      reads this, resultBuf, foundBuf, phases
    {
      d.phases == phases[..] && d.found == (foundBuf[0] != 0) && d.result == resultBuf[0]
    }

    /** The threads in an order nothing fixes: any live thread may move next, and its early-out read
        may miss a set flag. */
    method RunThreads(nonceStart: nat, phases: array<Phase>, ghost job: Job, ghost start: Device)
      returns (ghost d: Device)
      requires Valid() && phases as object !in Inputs() && Shows(phases, start) && Consistent(job, start)
      requires job == JobOf(Work, phases.Length, nonceStart, Challenge(), Target())
      modifies resultBuf, foundBuf, phases
      ensures Shows(phases, d) && Consistent(job, d) && Finished(d)
    {
      d := start;
      hide Consistent, JobOf, Apply, Enabled, Remaining, LaneBytes, LimbValue;
      while exists g :: 0 <= g < phases.Length && phases[g] != Exited
        invariant Shows(phases, d) && Consistent(job, d)
        decreases Remaining(d.phases)
      {
        var g :| 0 <= g < phases.Length && phases[g] != Exited;
        ghost var step := MoveThread(nonceStart, phases, g, job, d);
        StepKeeps(job, d, step);
        StepAdvances(job, d, step);
        d := Apply(job, d, step);
      }
    }

    method RunGrid(threads: nat, nonceStart: nat)
      requires Valid() && resultBuf[0] == 0 && foundBuf[0] == 0
      modifies resultBuf, foundBuf
      ensures foundBuf[0] != 0 <==> HasHit(Work, nonceStart, threads, Challenge(), Target())
      ensures foundBuf[0] != 0 ==> IsHit(Work, nonceStart, threads, Challenge(), Target(), resultBuf[0])
    {
      var phases := new Phase[threads](g => Entering);
      ghost var job := JobOf(Work, threads, nonceStart, Challenge(), Target());
      StartConsistent(job);
      hide Consistent, Settled, HasHit, IsHit, GpuRuntime.Challenge, GpuRuntime.Target;
      ghost var d := RunThreads(nonceStart, phases, job, Initial(job));
      FinishedSettles(job, d);
      SettledLaunch(Work, threads, nonceStart, Challenge(), Target(), d);
    }

    /** One move of one thread; the compare-and-swap of the flag is a single move. */
    method MoveThread(nonceStart: nat, phases: array<Phase>, g: nat, ghost job: Job, ghost d: Device)
      returns (ghost step: Step)
      requires Valid() && phases as object !in Inputs() && g < phases.Length && phases[g] != Exited
      requires job == JobOf(Work, phases.Length, nonceStart, Challenge(), Target())
      requires Shows(phases, d)
      modifies resultBuf, foundBuf, phases
      ensures step.g == g && Enabled(d, step) && Shows(phases, Apply(job, d, step))
    {
      hide LaneBytes, LimbValue, Work;
      var nonce := (nonceStart + g) % U64_SIZE;
      match phases[g] {
        case Entering =>
          var missed: bool := *;
          var seen := foundBuf[0] != 0 && !missed;
          step := Read(g, seen);
          phases[g] := if seen then Exited else Hashing;
        case Hashing =>
          step := Hash(g);
          SizeIsPower();
          var less := TryNonce(challengeBuf, nonce, targetBuf);
          phases[g] := if less then Contending else Exited;
        case Contending =>
          step := Swap(g);
          if foundBuf[0] == 0 {
            foundBuf[0] := 1;
            phases[g] := Winning;
          } else {
            phases[g] := Exited;
          }
        case Winning =>
          step := Write(g);
          resultBuf[0] := nonce;
          phases[g] := Exited;
      }
    }

    /** Reset the flag, launch, wait for every thread, and read the flag and the result back. */
    method LaunchMine(nonceStart: nat, batchSize: nat, blockSize: nat) returns (r: Outcome)
      requires Valid() && blockSize > 0
      modifies resultBuf, foundBuf
      ensures Valid() && Challenge() == old(Challenge()) && Target() == old(Target())
      ensures r.Rejected? <==> !DriverAccepts(GridCount(batchSize, blockSize), blockSize)
      ensures r.Rejected? <==> !(0 < batchSize / blockSize % 0x1_0000_0000 < 0x8000_0000 && blockSize <= 1024)
      ensures !r.Rejected? ==>
        (r.Hit? <==> HasHit(Work, nonceStart, Launched(batchSize, blockSize), Challenge(), Target()))
      ensures r.Hit? ==> IsHit(Work, nonceStart, Launched(batchSize, blockSize), Challenge(), Target(), r.nonce)
    {
      hide HasHit, IsHit, LaneBytes, LimbValue;
      foundBuf[0] := 0;
      resultBuf[0] := 0;
      var gridCount := GridCount(batchSize, blockSize);
      if !DriverAccepts(gridCount, blockSize) {
        return Rejected;
      }
      RunGrid(gridCount * blockSize, nonceStart);
      LaunchedIs(batchSize, blockSize);
      if foundBuf[0] != 0 {
        r := Hit(resultBuf[0]);
      } else {
        r := Miss;
      }
    }
  }
}
