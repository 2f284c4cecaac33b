/** Once the context is cancelled and the main loop has left, every seeker returns. */
module PoolShutdown {
  import opened Basics
  import opened RegexMatch
  import opened Model
  import opened Pool

  /** The waiting phase of shutdown: nobody drains the channel any more. */
  predicate Waiting(p: Pool) { p.cancelled && !p.running }

  predicate AllStopped(p: Pool) {
    forall n :: 0 <= n < |p.seekers| ==> p.seekers[n].pc.Stopped?
  }

  /** An upper bound on the steps a seeker can still take, `polled` being the snapshot size. */
  function StepsLeft(sk: Seeker, polled: nat): int {
    var tests := |sk.compiled|;
    match sk.pc
    case Stopped => 0
    case Top => 1
    case ResetTick => 2
    case SendTick(_) => 3
    case Tick => 4
    case Test(i) => 5 + 3 * (tests - i)
    case SendMatch(i, _) => 4 + 3 * (tests - i)
    case ResetMatch(i) => 3 + 3 * (tests - i)
    case Bump => 6 + 3 * tests
    case Generate => 7 + 3 * tests
    case Refresh => 8 + 3 * |sk.snapshot|
    case Load => 9 + 3 * polled
  }

  /** An upper bound on its further sends: the remaining patterns plus one. */
  function SendsLeft(sk: Seeker, polled: nat): int {
    var tests := |sk.compiled|;
    match sk.pc
    case Stopped => 0
    case Top => 0
    case ResetTick => 0
    case SendTick(_) => 1
    case Tick => 1
    case Test(i) => tests - i + 1
    case SendMatch(i, _) => tests - i + 1
    case ResetMatch(i) => tests - i
    case Bump => tests + 1
    case Generate => tests + 1
    case Refresh => |sk.snapshot| + 1
    case Load => polled + 1
  }

  function AllSteps(p: Pool): int { Sum(sk => StepsLeft(sk, |p.patterns|), p.seekers) }
  function AllSends(p: Pool): int { Sum(sk => SendsLeft(sk, |p.patterns|), p.seekers) }

  lemma BoundsAreNat(eng: Engine, n: nat, sk: Seeker, polled: nat)
    requires SeekerOk(eng, n, sk)
    ensures StepsLeft(sk, polled) >= 0 && SendsLeft(sk, polled) >= 0
  {
  }

  lemma {:induction false} SumNonNegative<T>(f: T -> int, xs: seq<T>)
    requires forall i :: 0 <= i < |xs| ==> f(xs[i]) >= 0
    ensures Sum(f, xs) >= 0
  {
    if xs != [] { SumNonNegative(f, xs[1..]); }
  }

  lemma AllBoundsAreNat(eng: Engine, p: Pool)
    requires Inv(eng, p)
    ensures AllSteps(p) >= 0 && AllSends(p) >= 0
  {
    forall n | 0 <= n < |p.seekers|
      ensures StepsLeft(p.seekers[n], |p.patterns|) >= 0 && SendsLeft(p.seekers[n], |p.patterns|) >= 0
    {
      BoundsAreNat(eng, n, p.seekers[n], |p.patterns|);
    }
    SumNonNegative(sk => StepsLeft(sk, |p.patterns|), p.seekers);
    SumNonNegative(sk => SendsLeft(sk, |p.patterns|), p.seekers);
  }

  /** The move uses up at least one of the seeker's steps, and each send one of its sends. */
  ghost predicate SeekerProgress(p: Pool, n: nat, q: Pool)
    requires n < |p.seekers|
  {
    var polled := |p.patterns|;
    && Waiting(q) && q.patterns == p.patterns
    && |q.seekers| == |p.seekers| && q.seekers == p.seekers[n := q.seekers[n]]
    && StepsLeft(q.seekers[n], polled) < StepsLeft(p.seekers[n], polled)
    && (|q.sent| - |p.sent|) + SendsLeft(q.seekers[n], polled) <= SendsLeft(p.seekers[n], polled)
  }

  lemma PollProgress(eng: Engine, p: Pool, n: nat, choice: Choice)
    requires Waiting(p) && n < |p.seekers| && SeekerOk(eng, n, p.seekers[n])
    requires p.seekers[n].pc.Top? || p.seekers[n].pc.Load? || p.seekers[n].pc.Refresh?
    requires StepSeeker(eng, p, n, choice).Some?
    ensures SeekerProgress(p, n, StepSeeker(eng, p, n, choice).value)
  {
  }

  lemma GenerateProgress(eng: Engine, p: Pool, n: nat, choice: Choice)
    requires Waiting(p) && n < |p.seekers| && SeekerOk(eng, n, p.seekers[n])
    requires p.seekers[n].pc.Generate? || p.seekers[n].pc.Bump?
    requires StepSeeker(eng, p, n, choice).Some?
    ensures SeekerProgress(p, n, StepSeeker(eng, p, n, choice).value)
  {
  }

  lemma TestProgress(eng: Engine, p: Pool, n: nat, choice: Choice)
    requires Waiting(p) && n < |p.seekers| && SeekerOk(eng, n, p.seekers[n])
    requires p.seekers[n].pc.Test?
    requires StepSeeker(eng, p, n, choice).Some?
    ensures SeekerProgress(p, n, StepSeeker(eng, p, n, choice).value)
  {
  }

  lemma SendProgress(eng: Engine, p: Pool, n: nat, choice: Choice)
    requires Waiting(p) && n < |p.seekers| && SeekerOk(eng, n, p.seekers[n])
    requires p.seekers[n].pc.SendMatch? || p.seekers[n].pc.SendTick?
    requires StepSeeker(eng, p, n, choice).Some?
    ensures SeekerProgress(p, n, StepSeeker(eng, p, n, choice).value)
  {
  }

  lemma ResetProgress(eng: Engine, p: Pool, n: nat, choice: Choice)
    requires Waiting(p) && n < |p.seekers| && SeekerOk(eng, n, p.seekers[n])
    requires p.seekers[n].pc.ResetMatch? || p.seekers[n].pc.ResetTick? || p.seekers[n].pc.Tick?
    requires StepSeeker(eng, p, n, choice).Some?
    ensures SeekerProgress(p, n, StepSeeker(eng, p, n, choice).value)
  {
  }

  lemma SeekerStepDecreases(eng: Engine, p: Pool, n: nat, choice: Choice)
    requires Waiting(p) && n < |p.seekers| && SeekerOk(eng, n, p.seekers[n])
    requires StepSeeker(eng, p, n, choice).Some?
    ensures SeekerProgress(p, n, StepSeeker(eng, p, n, choice).value)
  {
    var pc := p.seekers[n].pc;
    if pc.Top? || pc.Load? || pc.Refresh? { PollProgress(eng, p, n, choice); }
    if pc.Generate? || pc.Bump? { GenerateProgress(eng, p, n, choice); }
    if pc.Test? { TestProgress(eng, p, n, choice); }
    if pc.SendMatch? || pc.SendTick? { SendProgress(eng, p, n, choice); }
    if pc.ResetMatch? || pc.ResetTick? || pc.Tick? { ResetProgress(eng, p, n, choice); }
  }

  lemma StepDecreases(eng: Engine, p: Pool, a: Action)
    requires Inv(eng, p) && Waiting(p) && Step(eng, p, a).Some?
    ensures var q := Step(eng, p, a).value;
            && Waiting(q) && AllSteps(q) < AllSteps(p)
            && (|q.sent| - |p.sent|) + AllSends(q) <= AllSends(p)
  {
    var q := Step(eng, p, a).value;
    SeekerStepDecreases(eng, p, a.n, a.choice);
    SumUpdate(sk => StepsLeft(sk, |p.patterns|), p.seekers, a.n, q.seekers[a.n]);
    SumUpdate(sk => SendsLeft(sk, |p.patterns|), p.seekers, a.n, q.seekers[a.n]);
    assert AllSteps(q) == Sum(sk => StepsLeft(sk, |p.patterns|), q.seekers);
    assert AllSends(q) == Sum(sk => SendsLeft(sk, |p.patterns|), q.seekers);
  }

  /** No schedule of the waiting phase is longer than the bound, nor sends more. */
  lemma {:induction false} ShutdownBounded(eng: Engine, p: Pool, actions: seq<Action>)
    requires Inv(eng, p) && Waiting(p) && Run(eng, p, actions).Some?
    ensures var q := Run(eng, p, actions).value;
            && Inv(eng, q) && Waiting(q)
            && |actions| <= AllSteps(p) - AllSteps(q)
            && |q.sent| - |p.sent| <= AllSends(p) - AllSends(q)
            && AllSteps(q) >= 0 && AllSends(q) >= 0
    decreases |actions|
  {
    if actions == [] {
      AllBoundsAreNat(eng, p);
    } else {
      StepKeepsInv(eng, p, actions[0]);
      StepDecreases(eng, p, actions[0]);
      ShutdownBounded(eng, Step(eng, p, actions[0]).value, actions[1..]);
    }
  }

  /** A seeker that has not returned can always move, whatever the channel holds. */
  lemma NeverStuck(eng: Engine, p: Pool, n: nat)
    requires p.cancelled && n < |p.seekers| && !p.seekers[n].pc.Stopped?
    ensures exists choice :: StepSeeker(eng, p, n, choice).Some?
  {
    var pc := p.seekers[n].pc;
    if pc.SendMatch? || pc.SendTick? {
      assert StepSeeker(eng, p, n, GiveUp).Some?;
    } else if pc.Generate? {
      assert StepSeeker(eng, p, n, Fail).Some?;
    } else {
      assert StepSeeker(eng, p, n, Go).Some?;
    }
  }

  /** A schedule that cannot be extended has brought every seeker back. */
  lemma StoppedOrCanMove(eng: Engine, p: Pool)
    requires p.cancelled
    ensures AllStopped(p) || exists a :: Step(eng, p, a).Some?
  {
    if n :| 0 <= n < |p.seekers| && !p.seekers[n].pc.Stopped? {
      NeverStuck(eng, p, n);
      var choice :| StepSeeker(eng, p, n, choice).Some?;
      assert Step(eng, p, Seek(n, choice)).Some?;
    }
  }

  /** Waiting for the seekers terminates: after any run of the client and any further
      schedule of the waiting phase, that schedule is bounded by the state it started in,
      it sends at most the remaining patterns plus one per seeker, and if it is maximal
      every seeker has returned. */
  lemma ShutdownCompletes(eng: Engine, patterns: seq<CompiledPattern>, seekers: nat, before: seq<Action>,
                          after: seq<Action>)
    requires Run(eng, Start(patterns, seekers), before).Some?
    requires Waiting(Run(eng, Start(patterns, seekers), before).value)
    requires Run(eng, Run(eng, Start(patterns, seekers), before).value, after).Some?
    ensures var p := Run(eng, Start(patterns, seekers), before).value;
            var q := Run(eng, p, after).value;
            && |after| <= AllSteps(p)
            && |q.sent| - |p.sent| <= AllSends(p)
            && (AllStopped(q) || exists a :: Step(eng, q, a).Some?)
  {
    StartOk(eng, patterns, seekers);
    RunKeepsInv(eng, Start(patterns, seekers), before);
    var p := Run(eng, Start(patterns, seekers), before).value;
    ShutdownBounded(eng, p, after);
    var q := Run(eng, p, after).value;
    StoppedOrCanMove(eng, q);
  }
}
