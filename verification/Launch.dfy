/** One launch of the mining grid as a concurrent program: every thread may early-out on a possibly
    stale flag, hash its nonce, race on the flag with a compare-and-swap, and the winner writes the
    result (kernel/keccak_grinder.cu). */
module Launch {
  import opened Words

  const U64_SIZE: nat := 0x1_0000_0000_0000_0000
  const U32_SIZE: nat := 0x1_0000_0000

  lemma SizeIsPower()
    ensures U64_SIZE == Pow2(64)
  {
    Pow2Constants();
  }

  /** Where a thread stands. */
  datatype Phase =
    | Entering    // before the early-out read of the flag
    | Hashing     // past the early-out
    | Contending  // its hash is below the target; before the compare-and-swap
    | Winning     // it set the flag; before the write of the result
    | Exited

  /** A launch: thread g tries nonce `nonceStart + g` modulo 2^64. */
  datatype Job = Job(threads: nat, nonceStart: nat, good: nat -> bool) {
    function NonceOf(g: nat): nat { (nonceStart + g) % U64_SIZE }

    predicate Good(g: nat) { good(NonceOf(g)) }
  }

  /** Device memory and threads, with the threads that took the flag and that wrote the result. */
  datatype Device = Device(found: bool, result: nat, phases: seq<Phase>, claims: seq<nat>, writes: seq<nat>)

  function Initial(job: Job): Device
  {
    Device(false, 0, seq(job.threads, g => Entering), [], [])
  }

  datatype Step =
    | Read(g: nat, seen: bool)
    | Hash(g: nat)
    | Swap(g: nat)
    | Write(g: nat)

  /** A read of the flag may be stale: it can miss a set flag, but it cannot see an unset one as set. */
  predicate Enabled(d: Device, step: Step)
  {
    && step.g < |d.phases|
    && match step
       case Read(g, seen) => d.phases[g] == Entering && (seen ==> d.found)
       case Hash(g) => d.phases[g] == Hashing
       case Swap(g) => d.phases[g] == Contending
       case Write(g) => d.phases[g] == Winning
  }

  function Apply(job: Job, d: Device, step: Step): Device
    requires Enabled(d, step)
  {
    match step
    case Read(g, seen) => d.(phases := d.phases[g := if seen then Exited else Hashing])
    case Hash(g) => d.(phases := d.phases[g := if job.Good(g) then Contending else Exited])
    case Swap(g) =>
      if d.found then d.(phases := d.phases[g := Exited])
      else d.(found := true, phases := d.phases[g := Winning], claims := d.claims + [g])
    case Write(g) => d.(result := job.NonceOf(g), phases := d.phases[g := Exited], writes := d.writes + [g])
  }

  /** The interleaving `steps` leads from one device state to another. */
  predicate Runs(job: Job, d: Device, steps: seq<Step>, e: Device)
    decreases |steps|
  {
    if steps == [] then d == e
    else Enabled(d, steps[0]) && Runs(job, Apply(job, d, steps[0]), steps[1..], e)
  }

  predicate Finished(d: Device)
  {
    forall g :: 0 <= g < |d.phases| ==> d.phases[g] == Exited
  }

  // ---- what every interleaving keeps ----

  ghost predicate Consistent(job: Job, d: Device)
  {
    && |d.phases| == job.threads
    && (if d.found then |d.claims| == 1 && d.claims[0] < job.threads && job.Good(d.claims[0])
        else d.claims == [] && forall g :: 0 <= g < job.threads && d.phases[g] == Exited ==> !job.Good(g))
    && (forall g :: 0 <= g < job.threads && d.phases[g] == Contending ==> job.Good(g))
    && (forall g :: 0 <= g < job.threads ==> (d.phases[g] == Winning <==> d.claims == [g] && d.writes == []))
    && (d.writes == [] || (d.writes == d.claims && d.result == job.NonceOf(d.writes[0])))
  }

  lemma StepKeeps(job: Job, d: Device, step: Step)
    requires Consistent(job, d) && Enabled(d, step)
    ensures Consistent(job, Apply(job, d, step))
  {
    var e := Apply(job, d, step);
    if step.Write? {
      assert d.claims == [step.g] && d.writes == [];
    }
  }

  lemma {:induction false} RunKeeps(job: Job, d: Device, steps: seq<Step>, e: Device)
    requires Consistent(job, d) && Runs(job, d, steps, e)
    ensures Consistent(job, e)
    decreases |steps|
  {
    if steps != [] {
      StepKeeps(job, d, steps[0]);
      RunKeeps(job, Apply(job, d, steps[0]), steps[1..], e);
    }
  }

  ghost predicate SomeGood(job: Job)
  {
    exists g :: 0 <= g < job.threads && job.Good(g)
  }

  ghost predicate Settled(job: Job, d: Device)
  {
    && (d.found <==> SomeGood(job))
    && (if d.found then
          && |d.writes| == 1 && d.writes[0] < job.threads
          && job.Good(d.writes[0]) && d.result == job.NonceOf(d.writes[0])
        else d.writes == [])
  }

  lemma FinishedSettles(job: Job, d: Device)
    requires Consistent(job, d) && Finished(d)
    ensures Settled(job, d)
  {
    if d.found {
      var w := d.claims[0];
      assert d.claims == [w] && d.phases[w] == Exited;
    }
  }

  /** Whatever the interleaving, a launch that has run to its end has set the flag exactly when some
      thread's nonce is good, and then one thread, with a good nonce, has written its own nonce. */
  lemma {:induction false} LaunchSettles(job: Job, steps: seq<Step>, d: Device)
    requires Runs(job, Initial(job), steps, d) && Finished(d)
    ensures Settled(job, d)
  {
    StartConsistent(job);
    RunKeeps(job, Initial(job), steps, d);
    FinishedSettles(job, d);
  }

  // ---- every launch ends ----

  function Rank(p: Phase): nat
  {
    match p
    case Entering => 4
    case Hashing => 3
    case Contending => 2
    case Winning => 1
    case Exited => 0
  }

  function Remaining(phases: seq<Phase>): nat
  {
    if phases == [] then 0 else Remaining(phases[..|phases| - 1]) + Rank(phases[|phases| - 1])
  }

  lemma {:induction false} Replaced(phases: seq<Phase>, g: nat, p: Phase)
    requires g < |phases|
    ensures Remaining(phases[g := p]) == Remaining(phases) - Rank(phases[g]) + Rank(p)
  {
    var last := |phases| - 1;
    if g < last {
      Replaced(phases[..last], g, p);
      assert phases[g := p][..last] == phases[..last][g := p];
    } else {
      assert phases[g := p][..last] == phases[..last];
    }
  }

  lemma StepAdvances(job: Job, d: Device, step: Step)
    requires Enabled(d, step)
    ensures Remaining(Apply(job, d, step).phases) < Remaining(d.phases)
  {
    Replaced(d.phases, step.g, Apply(job, d, step).phases[step.g]);
  }

  lemma {:induction false} RunAdvances(job: Job, d: Device, steps: seq<Step>, e: Device)
    requires Runs(job, d, steps, e)
    ensures |steps| + Remaining(e.phases) <= Remaining(d.phases)
    decreases |steps|
  {
    if steps != [] {
      StepAdvances(job, d, steps[0]);
      RunAdvances(job, Apply(job, d, steps[0]), steps[1..], e);
    }
  }

  lemma {:induction false} AllEntering(n: nat)
    ensures Remaining(seq(n, g => Entering)) == 4 * n
  {
    if n > 0 {
      AllEntering(n - 1);
      assert seq(n, g => Entering)[..n - 1] == seq(n - 1, g => Entering);
    }
  }

  lemma CanStep(d: Device, g: nat) returns (step: Step)
    requires g < |d.phases| && d.phases[g] != Exited
    ensures step.g == g && Enabled(d, step)
  {
    step := match d.phases[g]
      case Entering => Read(g, false)
      case Hashing => Hash(g)
      case Contending => Swap(g)
      case _ => Write(g);
  }

  /** No interleaving is longer than four steps a thread, and none is stuck before its end. */
  lemma {:induction false} LaunchEnds(job: Job, steps: seq<Step>, d: Device)
    requires Runs(job, Initial(job), steps, d)
    ensures |steps| <= 4 * job.threads
    ensures !Finished(d) ==> exists step :: Enabled(d, step)
  {
    RunAdvances(job, Initial(job), steps, d);
    AllEntering(job.threads);
    if !Finished(d) {
      var g :| 0 <= g < |d.phases| && d.phases[g] != Exited;
      var step := CanStep(d, g);
    }
  }

  lemma StartConsistent(job: Job)
    ensures Consistent(job, Initial(job))
  {
  }
}
