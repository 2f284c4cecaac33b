/** The client is never idle for good: every seeker can be brought to test a key against the
    list fetched last, and the whole client can be brought to stop. */
module PoolProgress {
  import opened Basics
  import opened RegexMatch
  import opened Model
  import opened PatternCache
  import opened Pool
  import opened PoolKeys
  import opened PoolReports
  import opened PoolShutdown

  // ---- Schedules ------------------------------------------------------------------------------

  lemma {:induction false} RunAppend(eng: Engine, p: Pool, a: seq<Action>, b: seq<Action>)
    requires Run(eng, p, a).Some?
    ensures Run(eng, p, a + b) == Run(eng, Run(eng, p, a).value, b)
    decreases |a|
  {
    if a == [] {
      assert a + b == b;
    } else {
      assert (a + b)[0] == a[0] && (a + b)[1..] == a[1..] + b;
      RunAppend(eng, Step(eng, p, a[0]).value, a[1..], b);
    }
  }

  lemma RunThen(eng: Engine, p: Pool, first: Action, q: Pool, rest: seq<Action>, r: Pool)
    requires Step(eng, p, first) == Some(q) && Run(eng, q, rest) == Some(r)
    ensures Run(eng, p, [first] + rest) == Some(r)
  {
    assert ([first] + rest)[1..] == rest;
  }

  /** Steps of seeker `n` that generate no key, and takings by the main loop. */
  predicate Serves(a: Action, n: nat) {
    a.Receive? || (a.Seek? && a.n == n && !a.choice.Key?)
  }

  ghost predicate AllServe(actions: seq<Action>, n: nat) {
    forall a :: a in actions ==> Serves(a, n)
  }

  /** A client at work, with seeker `n` in place. */
  ghost predicate AtWork(eng: Engine, p: Pool, n: nat) {
    Inv(eng, p) && p.running && !p.cancelled && n < |p.seekers| && p.capacity > 0
  }

  /** What serving steps leave as it is. */
  ghost predicate SameRun(p: Pool, q: Pool) {
    && q.patterns == p.patterns && q.running == p.running && q.cancelled == p.cancelled
    && q.capacity == p.capacity && |q.seekers| == |p.seekers|
  }

  lemma ServeKeeps(eng: Engine, p: Pool, a: Action, n: nat)
    requires Step(eng, p, a).Some? && Serves(a, n)
    ensures SameRun(p, Step(eng, p, a).value)
  {
    if a.Seek? { SeekKeeps(eng, p, a.n, a.choice); }
  }

  lemma SeekKeeps(eng: Engine, p: Pool, n: nat, choice: Choice)
    requires n < |p.seekers| && StepSeeker(eng, p, n, choice).Some?
    ensures SameRun(p, StepSeeker(eng, p, n, choice).value)
  {
    if p.seekers[n].pc.SendMatch? || p.seekers[n].pc.SendTick? { SendKeeps(eng, p, n, choice); }
  }

  lemma SendKeeps(eng: Engine, p: Pool, n: nat, choice: Choice)
    requires n < |p.seekers| && (p.seekers[n].pc.SendMatch? || p.seekers[n].pc.SendTick?)
    requires StepSeeker(eng, p, n, choice).Some?
    ensures SameRun(p, StepSeeker(eng, p, n, choice).value)
  {
  }

  /** One serving step. */
  lemma Serve(eng: Engine, p: Pool, n: nat, a: Action, q: Pool)
    requires AtWork(eng, p, n) && Serves(a, n) && Step(eng, p, a) == Some(q)
    ensures AtWork(eng, q, n) && SameRun(p, q)
  {
    StepKeepsInv(eng, p, a);
    ServeKeeps(eng, p, a, n);
  }

  /** Making room takes one status off a full channel, and touches no seeker. */
  lemma MakeRoom(eng: Engine, p: Pool, n: nat) returns (actions: seq<Action>, q: Pool)
    requires AtWork(eng, p, n)
    ensures Run(eng, p, actions) == Some(q) && AllServe(actions, n)
    ensures AtWork(eng, q, n) && SameRun(p, q) && q.seekers == p.seekers && q.sent == p.sent
    ensures |q.channel| < q.capacity
  {
    if |p.channel| < p.capacity {
      actions, q := [], p;
    } else {
      q := Step(eng, p, Receive).value;
      Serve(eng, p, n, Receive, q);
      actions := [Receive] + [];
      RunThen(eng, p, Receive, q, [], q);
    }
  }

  /** A blocked send gets through once the main loop has made room. */
  lemma SendThrough(eng: Engine, p: Pool, n: nat) returns (actions: seq<Action>, q: Pool)
    requires AtWork(eng, p, n) && (p.seekers[n].pc.SendMatch? || p.seekers[n].pc.SendTick?)
    ensures Run(eng, p, actions) == Some(q) && AllServe(actions, n)
    ensures AtWork(eng, q, n) && SameRun(p, q)
    ensures var sk := p.seekers[n];
            q.seekers[n] == sk.(pc := if sk.pc.SendMatch? then ResetMatch(sk.pc.next) else ResetTick)
    ensures q.sent == p.sent + [p.seekers[n].pc.s]
  {
    var room, r := MakeRoom(eng, p, n);
    var deliver := Seek(n, Deliver);
    q := Step(eng, r, deliver).value;
    Serve(eng, r, n, deliver, q);
    actions := room + [deliver];
    RunThen(eng, r, deliver, q, [], q);
    assert [deliver] + [] == [deliver];
    RunAppend(eng, p, room, [deliver]);
  }

  /** A seeker at one of its own steps goes on. */
  lemma GoOn(eng: Engine, p: Pool, n: nat) returns (q: Pool)
    requires AtWork(eng, p, n)
    requires var pc := p.seekers[n].pc; !pc.SendMatch? && !pc.SendTick? && !pc.Generate? && !pc.Stopped?
    ensures Step(eng, p, Seek(n, Go)) == Some(q) && AtWork(eng, q, n) && SameRun(p, q)
  {
    q := Step(eng, p, Seek(n, Go)).value;
    Serve(eng, p, n, Seek(n, Go), q);
  }

  /** From its test of pattern `i` a seeker comes to the ticker, one pattern at a time. */
  lemma {:induction false} FinishTests(eng: Engine, p: Pool, n: nat, i: nat) returns (actions: seq<Action>, q: Pool)
    requires AtWork(eng, p, n) && p.seekers[n].pc == Test(i)
    ensures Run(eng, p, actions) == Some(q) && AllServe(actions, n)
    ensures AtWork(eng, q, n) && SameRun(p, q) && q.seekers[n].pc.Tick?
    decreases |p.seekers[n].compiled| - i, 2
  {
    var sk := p.seekers[n];
    var r := GoOn(eng, p, n);
    if i >= |sk.compiled| {
      actions, q := [Seek(n, Go)] + [], r;
      RunThen(eng, p, Seek(n, Go), r, [], r);
    } else {
      TestOutcome(eng, p, n, i, r);
      var rest: seq<Action>;
      if r.seekers[n].pc.Test? {
        rest, q := FinishTests(eng, r, n, i + 1);
      } else {
        rest, q := FinishMatch(eng, r, n, i);
      }
      actions := [Seek(n, Go)] + rest;
      RunThen(eng, p, Seek(n, Go), r, rest, q);
    }
  }

  lemma TestOutcome(eng: Engine, p: Pool, n: nat, i: nat, q: Pool)
    requires n < |p.seekers| && p.seekers[n].pc == Test(i) && i < |p.seekers[n].compiled|
    requires Step(eng, p, Seek(n, Go)) == Some(q)
    ensures |q.seekers| == |p.seekers| && q.seekers[n].compiled == p.seekers[n].compiled
    ensures q.seekers[n].pc == Test(i + 1) || (q.seekers[n].pc.SendMatch? && q.seekers[n].pc.next == i)
  {
  }

  lemma {:induction false} FinishMatch(eng: Engine, p: Pool, n: nat, i: nat) returns (actions: seq<Action>, q: Pool)
    requires AtWork(eng, p, n) && p.seekers[n].pc.SendMatch? && p.seekers[n].pc.next == i < |p.seekers[n].compiled|
    ensures Run(eng, p, actions) == Some(q) && AllServe(actions, n)
    ensures AtWork(eng, q, n) && SameRun(p, q) && q.seekers[n].pc.Tick?
    decreases |p.seekers[n].compiled| - i, 1
  {
    var sent, r := SendThrough(eng, p, n);
    var rest;
    rest, q := FinishReset(eng, r, n, i);
    actions := sent + rest;
    RunAppend(eng, p, sent, rest);
  }

  lemma {:induction false} FinishReset(eng: Engine, p: Pool, n: nat, i: nat) returns (actions: seq<Action>, q: Pool)
    requires AtWork(eng, p, n) && p.seekers[n].pc == ResetMatch(i) && i < |p.seekers[n].compiled|
    ensures Run(eng, p, actions) == Some(q) && AllServe(actions, n)
    ensures AtWork(eng, q, n) && SameRun(p, q) && q.seekers[n].pc.Tick?
    decreases |p.seekers[n].compiled| - i, 0
  {
    var r := GoOn(eng, p, n);
    var rest;
    rest, q := FinishTests(eng, r, n, i + 1);
    actions := [Seek(n, Go)] + rest;
    RunThen(eng, p, Seek(n, Go), r, rest, q);
  }

  /** Once a key is generated the seeker comes to the ticker with it. */
  lemma FinishKey(eng: Engine, p: Pool, n: nat) returns (actions: seq<Action>, q: Pool)
    requires AtWork(eng, p, n) && p.seekers[n].pc.Bump?
    ensures Run(eng, p, actions) == Some(q) && AllServe(actions, n)
    ensures AtWork(eng, q, n) && SameRun(p, q) && q.seekers[n].pc.Tick?
  {
    var r := GoOn(eng, p, n);
    var rest;
    rest, q := FinishTests(eng, r, n, 0);
    actions := [Seek(n, Go)] + rest;
    RunThen(eng, p, Seek(n, Go), r, rest, q);
  }

  // ---- From polling to the generator ------------------------------------------------------------

  /** Some pattern of the list compiles. */
  ghost predicate Usable(eng: Engine, patterns: seq<CompiledPattern>) {
    exists p :: p in patterns && eng.Compile(p.pattern).Some?
  }

  lemma UsableIsKept(eng: Engine, patterns: seq<CompiledPattern>)
    requires Usable(eng, patterns)
    ensures patterns != [] && FreshCompile(eng, patterns) != []
  {
    var p :| p in patterns && eng.Compile(p.pattern).Some?;
    var e := CachedPattern(p.pattern, eng.Compile(p.pattern).value, p.matchFingerprint, p.matchAuthorizedKey);
    InFreshCompile(eng, patterns, e);
  }

  lemma PollStep(eng: Engine, p: Pool, n: nat) returns (q: Pool)
    requires AtWork(eng, p, n) && p.seekers[n].pc.Top?
    ensures Step(eng, p, Seek(n, Go)) == Some(q) && AtWork(eng, q, n) && SameRun(p, q)
    ensures q.seekers[n] == p.seekers[n].(pc := Load) && q.sent == p.sent
  {
    q := GoOn(eng, p, n);
  }

  lemma LoadStep(eng: Engine, p: Pool, n: nat) returns (q: Pool)
    requires AtWork(eng, p, n) && p.seekers[n].pc.Load? && p.patterns != []
    ensures Step(eng, p, Seek(n, Go)) == Some(q) && AtWork(eng, q, n) && SameRun(p, q)
    ensures q.seekers[n] == p.seekers[n].(pc := Refresh, snapshot := p.patterns) && q.sent == p.sent
  {
    q := GoOn(eng, p, n);
  }

  lemma RefreshStep(eng: Engine, p: Pool, n: nat) returns (q: Pool)
    requires AtWork(eng, p, n) && p.seekers[n].pc.Refresh? && FreshCompile(eng, p.seekers[n].snapshot) != []
    ensures Step(eng, p, Seek(n, Go)) == Some(q) && AtWork(eng, q, n) && SameRun(p, q)
    ensures q.seekers[n] == p.seekers[n].(pc := Generate, compiled := FreshCompile(eng, p.seekers[n].snapshot))
    ensures q.sent == p.sent
  {
    RefreshIsFresh(eng, p.seekers[n].compiled, p.seekers[n].snapshot);
    q := GoOn(eng, p, n);
  }

  lemma RunThree(eng: Engine, p: Pool, a: Action, p1: Pool, p2: Pool, q: Pool)
    requires Step(eng, p, a) == Some(p1) && Step(eng, p1, a) == Some(p2) && Step(eng, p2, a) == Some(q)
    ensures Run(eng, p, [a, a, a]) == Some(q)
  {
    RunThen(eng, p2, a, q, [], q);
    RunThen(eng, p1, a, p2, [a] + [], q);
    RunThen(eng, p, a, p1, [a] + ([a] + []), q);
    assert [a, a, a] == [a] + ([a] + ([a] + []));
  }

  /** A seeker that polls a usable list goes on to generate a key for it. */
  lemma PollsUsable(eng: Engine, p: Pool, n: nat) returns (actions: seq<Action>, q: Pool)
    requires AtWork(eng, p, n) && p.seekers[n].pc.Top? && Usable(eng, p.patterns)
    ensures Run(eng, p, actions) == Some(q) && AllServe(actions, n)
    ensures AtWork(eng, q, n) && SameRun(p, q) && q.seekers[n].pc.Generate?
    ensures q.seekers[n].snapshot == p.patterns && q.seekers[n].keyCount == p.seekers[n].keyCount
    ensures q.sent == p.sent
  {
    UsableIsKept(eng, p.patterns);
    var p1 := PollStep(eng, p, n);
    var p2 := LoadStep(eng, p1, n);
    q := RefreshStep(eng, p2, n);
    RunThree(eng, p, Seek(n, Go), p1, p2, q);
    actions := [Seek(n, Go), Seek(n, Go), Seek(n, Go)];
  }

  // ---- Back to polling -----------------------------------------------------------------------------

  /** From the ticker, the reset after it, or the read of the list, the seeker polls again. */
  lemma TickToTop(eng: Engine, p: Pool, n: nat) returns (actions: seq<Action>, q: Pool)
    requires AtWork(eng, p, n) && (p.seekers[n].pc.Tick? || p.seekers[n].pc.ResetTick?)
    ensures Run(eng, p, actions) == Some(q) && AllServe(actions, n)
    ensures AtWork(eng, q, n) && SameRun(p, q) && q.seekers[n].pc.Top?
  {
    q := GoOn(eng, p, n);
    actions := [Seek(n, Go)] + [];
    RunThen(eng, p, Seek(n, Go), q, [], q);
  }

  lemma GenerateToTop(eng: Engine, p: Pool, n: nat) returns (actions: seq<Action>, q: Pool)
    requires AtWork(eng, p, n) && p.seekers[n].pc.Generate?
    ensures Run(eng, p, actions) == Some(q) && AllServe(actions, n)
    ensures AtWork(eng, q, n) && SameRun(p, q) && q.seekers[n].pc.Top?
  {
    q := Step(eng, p, Seek(n, Fail)).value;
    Serve(eng, p, n, Seek(n, Fail), q);
    actions := [Seek(n, Fail)] + [];
    RunThen(eng, p, Seek(n, Fail), q, [], q);
  }

  lemma LoadToTop(eng: Engine, p: Pool, n: nat) returns (actions: seq<Action>, q: Pool)
    requires AtWork(eng, p, n) && (p.seekers[n].pc.Load? || p.seekers[n].pc.Refresh?)
    ensures Run(eng, p, actions) == Some(q) && AllServe(actions, n)
    ensures AtWork(eng, q, n) && SameRun(p, q) && q.seekers[n].pc.Top?
    decreases if p.seekers[n].pc.Load? then 1 else 0
  {
    var r := GoOn(eng, p, n);
    var rest;
    if r.seekers[n].pc.Top? {
      rest, q := [], r;
    } else if r.seekers[n].pc.Refresh? {
      rest, q := LoadToTop(eng, r, n);
    } else {
      rest, q := GenerateToTop(eng, r, n);
    }
    actions := [Seek(n, Go)] + rest;
    RunThen(eng, p, Seek(n, Go), r, rest, q);
  }

  /** What is left of the current key, if the seeker is busy with one. */
  lemma KeyToTick(eng: Engine, p: Pool, n: nat) returns (actions: seq<Action>, q: Pool)
    requires AtWork(eng, p, n) && Busy(p.seekers[n].pc)
    ensures Run(eng, p, actions) == Some(q) && AllServe(actions, n)
    ensures AtWork(eng, q, n) && SameRun(p, q) && q.seekers[n].pc.Tick?
  {
    match p.seekers[n].pc
    case Bump => actions, q := FinishKey(eng, p, n);
    case Test(i) => actions, q := FinishTests(eng, p, n, i);
    case SendMatch(i, _) => actions, q := FinishMatch(eng, p, n, i);
    case ResetMatch(i) => actions, q := FinishReset(eng, p, n, i);
  }

  /** Wherever a seeker stands, it comes back to polling. */
  lemma ReachTop(eng: Engine, p: Pool, n: nat) returns (actions: seq<Action>, q: Pool)
    requires AtWork(eng, p, n)
    ensures Run(eng, p, actions) == Some(q) && AllServe(actions, n)
    ensures AtWork(eng, q, n) && SameRun(p, q) && q.seekers[n].pc.Top?
  {
    var pc := p.seekers[n].pc;
    if pc.Top? {
      actions, q := [], p;
    } else if pc.Load? || pc.Refresh? {
      actions, q := LoadToTop(eng, p, n);
    } else if pc.Generate? {
      actions, q := GenerateToTop(eng, p, n);
    } else if pc.Tick? || pc.ResetTick? {
      actions, q := TickToTop(eng, p, n);
    } else {
      var before, r;
      if pc.SendTick? { before, r := SendThrough(eng, p, n); } else { before, r := KeyToTick(eng, p, n); }
      var rest;
      rest, q := TickToTop(eng, r, n);
      actions := before + rest;
      RunAppend(eng, p, before, rest);
    }
  }

  // ---- The two theorems --------------------------------------------------------------------------------

  lemma ReachableAtWork(eng: Engine, patterns: seq<CompiledPattern>, seekers: nat, before: seq<Action>, p: Pool, n: nat)
    requires Run(eng, Start(patterns, seekers), before) == Some(p) && !p.cancelled && n < |p.seekers|
    ensures AtWork(eng, p, n) && p.patterns == LatestSnapshot(patterns, before)
  {
    StartOk(eng, patterns, seekers);
    RunKeepsInv(eng, Start(patterns, seekers), before);
    TotalCountsKeys(eng, Start(patterns, seekers), before);
    PolledIsLatest(eng, Start(patterns, seekers), before);
  }

  /** Progress: in every reachable state that is not cancelled, when some pattern of the list
      fetched last compiles, every seeker comes round to polling and from there, by its own
      steps and takings by the main loop, to the ticker with any key it may be given, having
      sent exactly what that key is to be reported with under that list. */
  lemma EverySeekerTests(eng: Engine, patterns: seq<CompiledPattern>, seekers: nat, before: seq<Action>, p: Pool,
                         n: nat, key: KeyText)
    returns (round: seq<Action>, top: Pool, after: seq<Action>, q: Pool)
    requires Run(eng, Start(patterns, seekers), before) == Some(p) && !p.cancelled && n < |p.seekers|
    requires Usable(eng, LatestSnapshot(patterns, before)) && key.fingerprint != ""
    ensures p.seekers[n].pc.Top? ==> round == [] && top == p
    ensures Run(eng, p, round) == Some(top) && AllServe(round, n)
    ensures |top.seekers| == |p.seekers| && top.seekers[n].pc.Top?
    ensures Run(eng, top, after) == Some(q)
    ensures forall a :: a in after ==> Serves(a, n) || a == Seek(n, Key(key))
    ensures |q.seekers| == |p.seekers| && q.seekers[n].pc.Tick?
    ensures Reported(eng, q, n, |top.sent|, top.seekers[n].keyCount + 1, key, LatestSnapshot(patterns, before))
  {
    ReachableAtWork(eng, patterns, seekers, before, p, n);
    if p.seekers[n].pc.Top? {
      round, top := [], p;
    } else {
      round, top := ReachTop(eng, p, n);
    }
    after, q := TestsFromTop(eng, top, n, key);
  }

  /** One run, one step, and another run. */
  lemma RunStepRun(eng: Engine, p: Pool, before: seq<Action>, q: Pool, a: Action, r: Pool, after: seq<Action>, z: Pool)
    requires Run(eng, p, before) == Some(q) && Step(eng, q, a) == Some(r) && Run(eng, r, after) == Some(z)
    ensures Run(eng, p, before + ([a] + after)) == Some(z)
  {
    RunThen(eng, q, a, r, after, z);
    RunAppend(eng, p, before, [a] + after);
  }

  /** What seeker `n` has sent since `mark` is all that `key` is to be reported with. */
  ghost predicate Reported(eng: Engine, q: Pool, n: nat, mark: nat, count: nat, key: KeyText,
                           snapshot: seq<CompiledPattern>) {
    mark <= |q.sent| && SentBy(n, q.sent[mark..]) == KeyReports(eng, n, count, snapshot, key, snapshot)
  }

  lemma FinishGiven(eng: Engine, p: Pool, n: nat, mark: nat, count: nat, key: KeyText, snapshot: seq<CompiledPattern>)
    returns (actions: seq<Action>, q: Pool)
    requires AtWork(eng, p, n) && p.seekers[n].pc.Bump? && Reporting(eng, p, n, mark, count, key, snapshot)
    ensures Run(eng, p, actions) == Some(q) && AllServe(actions, n)
    ensures |q.seekers| == |p.seekers| && q.seekers[n].pc.Tick? && Reported(eng, q, n, mark, count, key, snapshot)
  {
    actions, q := FinishKey(eng, p, n);
    RunKeepsReporting(eng, p, actions, n, mark, count, key, snapshot);
    AllReported(eng, q, n, mark, count, key, snapshot);
  }

  lemma KeyGiven(eng: Engine, p: Pool, n: nat, mark: nat, count: nat, key: KeyText, snapshot: seq<CompiledPattern>)
    returns (q: Pool)
    requires AtWork(eng, p, n) && p.seekers[n].pc.Generate? && key.fingerprint != ""
    requires mark == |p.sent| && count == p.seekers[n].keyCount + 1 && snapshot == p.seekers[n].snapshot
    ensures Step(eng, p, Seek(n, Key(key))) == Some(q) && AtWork(eng, q, n) && SameRun(p, q)
    ensures q.seekers[n].pc.Bump? && Reporting(eng, q, n, mark, count, key, snapshot)
  {
    q := Step(eng, p, Seek(n, Key(key))).value;
    KeyStep(eng, p, n, key, q);
    KeyStarts(eng, p, n, key, q);
    SeekKeeps(eng, p, n, Key(key));
  }

  /** From polling, a seeker comes to the ticker with the key it is given, having reported it. */
  lemma TestsFromTop(eng: Engine, p: Pool, n: nat, key: KeyText) returns (actions: seq<Action>, q: Pool)
    requires AtWork(eng, p, n) && p.seekers[n].pc.Top? && Usable(eng, p.patterns) && key.fingerprint != ""
    ensures Run(eng, p, actions) == Some(q)
    ensures forall a :: a in actions ==> Serves(a, n) || a == Seek(n, Key(key))
    ensures |q.seekers| == |p.seekers| && q.seekers[n].pc.Tick?
    ensures Reported(eng, q, n, |p.sent|, p.seekers[n].keyCount + 1, key, p.patterns)
  {
    var mark, count, snapshot := |p.sent|, p.seekers[n].keyCount + 1, p.patterns;
    var poll, ready := PollsUsable(eng, p, n);
    var started := KeyGiven(eng, ready, n, mark, count, key, snapshot);
    var rest;
    rest, q := FinishGiven(eng, started, n, mark, count, key, snapshot);
    RunStepRun(eng, p, poll, ready, Seek(n, Key(key)), started, rest, q);
    actions := poll + ([Seek(n, Key(key))] + rest);
  }

  /** While the main loop runs, a new list can be published and is what is polled from then on. */
  lemma FetchTakesEffect(eng: Engine, patterns: seq<CompiledPattern>, seekers: nat, before: seq<Action>, p: Pool,
                         fetched: seq<CompiledPattern>)
    returns (q: Pool)
    requires Run(eng, Start(patterns, seekers), before) == Some(p) && !p.cancelled
    ensures Run(eng, Start(patterns, seekers), before + [Publish(fetched)]) == Some(q) && !q.cancelled
    ensures LatestSnapshot(patterns, before + [Publish(fetched)]) == fetched == q.patterns
  {
    StartOk(eng, patterns, seekers);
    RunKeepsInv(eng, Start(patterns, seekers), before);
    q := Step(eng, p, Publish(fetched)).value;
    RunThen(eng, p, Publish(fetched), q, [], q);
    assert [Publish(fetched)] + [] == [Publish(fetched)];
    RunAppend(eng, Start(patterns, seekers), before, [Publish(fetched)]);
    PolledIsLatest(eng, Start(patterns, seekers), before + [Publish(fetched)]);
  }

  lemma FireStep(eng: Engine, p: Pool, n: nat) returns (q: Pool)
    requires AtWork(eng, p, n) && p.seekers[n].pc.Tick?
    ensures Step(eng, p, Seek(n, Fire)) == Some(q) && AtWork(eng, q, n) && q.sent == p.sent
    ensures q.seekers[n].pc == SendTick(Status(n, p.seekers[n].keyCount, false, false, KeyText("", ""), []))
  {
    q := Step(eng, p, Seek(n, Fire)).value;
    Serve(eng, p, n, Seek(n, Fire), q);
  }

  lemma ResetStep(eng: Engine, p: Pool, n: nat) returns (q: Pool)
    requires AtWork(eng, p, n) && p.seekers[n].pc.ResetTick?
    ensures Step(eng, p, Seek(n, Go)) == Some(q) && AtWork(eng, q, n) && q.sent == p.sent
    ensures q.seekers[n].pc.Top? && q.seekers[n].keyCount == 0
  {
    q := GoOn(eng, p, n);
  }

  /** When the ticker has fired, the pending count of a seeker gets on the channel, and it
      polls again with nothing pending. */
  lemma TickerReports(eng: Engine, p: Pool, n: nat) returns (actions: seq<Action>, q: Pool)
    requires AtWork(eng, p, n) && p.seekers[n].pc.Tick?
    ensures Run(eng, p, actions) == Some(q) && AllServe(actions, n) && AtWork(eng, q, n)
    ensures q.sent == p.sent + [Status(n, p.seekers[n].keyCount, false, false, KeyText("", ""), [])]
    ensures q.seekers[n].pc.Top? && q.seekers[n].keyCount == 0
  {
    var fired := FireStep(eng, p, n);
    var sent, r := SendThrough(eng, fired, n);
    q := ResetStep(eng, r, n);
    RunThen(eng, r, Seek(n, Go), q, [], q);
    RunAppend(eng, fired, sent, [Seek(n, Go)] + []);
    actions := [Seek(n, Fire)] + (sent + ([Seek(n, Go)] + []));
    RunThen(eng, p, Seek(n, Fire), fired, sent + ([Seek(n, Go)] + []), q);
  }

  /** The main loop can take in everything that has been sent. */
  lemma {:induction false} Drains(eng: Engine, p: Pool) returns (actions: seq<Action>, q: Pool)
    requires Inv(eng, p) && p.running
    ensures Run(eng, p, actions) == Some(q) && forall a :: a in actions ==> a.Receive?
    ensures Inv(eng, q) && q.received == q.sent == p.sent && q.channel == [] && q.seekers == p.seekers
    ensures q.keyStat == Sum(StatusKeys, p.sent) && q.hitStat == Sum(StatusHits, p.sent)
    decreases |p.channel|
  {
    if p.channel == [] {
      actions, q := [], p;
      assert p.received + p.channel == p.received;
    } else {
      var r := Step(eng, p, Receive).value;
      StepKeepsInv(eng, p, Receive);
      var rest;
      rest, q := Drains(eng, r);
      actions := [Receive] + rest;
      RunThen(eng, p, Receive, r, rest, q);
    }
  }

  /** The waiting phase can always be brought to its end. */
  lemma {:induction false} Stops(eng: Engine, p: Pool) returns (actions: seq<Action>, q: Pool)
    requires Inv(eng, p) && Waiting(p)
    ensures Run(eng, p, actions) == Some(q) && AllStopped(q)
    decreases AllSteps(p)
  {
    AllBoundsAreNat(eng, p);
    StoppedOrCanMove(eng, p);
    if AllStopped(p) {
      actions, q := [], p;
    } else {
      var a :| Step(eng, p, a).Some?;
      var r := Step(eng, p, a).value;
      StepKeepsInv(eng, p, a);
      StepDecreases(eng, p, a);
      var rest;
      rest, q := Stops(eng, r);
      actions := [a] + rest;
      RunThen(eng, p, a, r, rest, q);
    }
  }

  /** From every reachable state the client can be cancelled and brought to a stop. */
  lemma CanAlwaysStop(eng: Engine, patterns: seq<CompiledPattern>, seekers: nat, before: seq<Action>, p: Pool)
    returns (after: seq<Action>, q: Pool)
    requires Run(eng, Start(patterns, seekers), before) == Some(p)
    ensures Run(eng, p, after) == Some(q) && AllStopped(q)
  {
    StartOk(eng, patterns, seekers);
    RunKeepsInv(eng, Start(patterns, seekers), before);
    after, q := StopsFrom(eng, p);
  }

  lemma StopsFrom(eng: Engine, p: Pool) returns (actions: seq<Action>, q: Pool)
    requires Inv(eng, p)
    ensures Run(eng, p, actions) == Some(q) && AllStopped(q)
    decreases if !p.cancelled then 2 else if p.running then 1 else 0
  {
    if Waiting(p) {
      actions, q := Stops(eng, p);
    } else {
      var a := if p.cancelled then LeaveLoop else Cancel;
      var r := Step(eng, p, a).value;
      StepKeepsInv(eng, p, a);
      var rest;
      rest, q := StopsFrom(eng, r);
      actions := [a] + rest;
      RunThen(eng, p, a, r, rest, q);
    }
  }
}
