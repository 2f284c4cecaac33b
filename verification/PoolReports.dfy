/** Every match report comes from testing a published pattern against the reported key. */
module PoolReports {
  import opened Basics
  import opened RegexMatch
  import opened Model
  import opened CompileMeaning
  import opened PatternCache
  import opened Pool

  /** reportMatch: the report the main loop posts for a status; seekers are numbered from 1. */
  function ReportMatch(clientId: string, hostname: string, s: Status): Match {
    Match("", "", clientId, "", hostname, s.sid + 1, "", s.matchedAuthorizedKey, s.matchedFingerprint, s.key)
  }

  /** The status is the outcome of testing one pattern against its key. */
  predicate OutcomeOf(eng: Engine, p: CompiledPattern, s: Status) {
    && (s.matchedFingerprint <==> PatternHits(eng, p, Fingerprint, s.key.fingerprint))
    && (s.matchedAuthorizedKey <==> PatternHits(eng, p, AuthorizedKey, s.key.authorized))
    && (s.matchedFingerprint || s.matchedAuthorizedKey)
  }

  /** The snapshots the seekers can have seen. */
  function Published(patterns: seq<CompiledPattern>, actions: seq<Action>): set<seq<CompiledPattern>> {
    {patterns} + set a | a in actions && a.Publish? :: a.patterns
  }

  ghost predicate Genuine(eng: Engine, published: set<seq<CompiledPattern>>, s: Status) {
    s.snapshot in published && exists p :: p in s.snapshot && OutcomeOf(eng, p, s)
  }

  ghost predicate AllGenuine(eng: Engine, published: set<seq<CompiledPattern>>, ss: seq<Status>) {
    forall i :: 0 <= i < |ss| && IsHit(ss[i]) ==> Genuine(eng, published, ss[i])
  }

  ghost predicate SeekerGenuine(eng: Engine, published: set<seq<CompiledPattern>>, sk: Seeker) {
    && (AfterRefresh(sk.pc) || sk.pc.Refresh? ==> sk.snapshot in published)
    && (sk.pc.SendMatch? ==> Genuine(eng, published, sk.pc.s))
    && (sk.pc.SendTick? ==> !IsHit(sk.pc.s))
  }

  ghost predicate ReportsInv(eng: Engine, published: set<seq<CompiledPattern>>, p: Pool) {
    && p.patterns in published
    && AllGenuine(eng, published, p.channel)
    && AllGenuine(eng, published, p.received)
    && forall n :: 0 <= n < |p.seekers| ==> SeekerGenuine(eng, published, p.seekers[n])
  }

  /** A test that finds something in a fresh list is the test of one of its patterns. */
  lemma TestIsGenuine(eng: Engine, published: set<seq<CompiledPattern>>, n: nat, sk: Seeker, i: nat)
    requires sk.snapshot in published && sk.compiled == FreshCompile(eng, sk.snapshot) && i < |sk.compiled|
    requires IsHit(TestStatus(eng, n, sk, sk.compiled[i]))
    ensures Genuine(eng, published, TestStatus(eng, n, sk, sk.compiled[i]))
  {
    var e := sk.compiled[i];
    InFreshCompile(eng, sk.snapshot, e);
    var p :| p in sk.snapshot && Stands(e, p) && eng.Compile(p.pattern) == Some(e.re);
    var s := TestStatus(eng, n, sk, e);
    assert PatternHits(eng, p, Fingerprint, s.key.fingerprint) <==> Finds(eng, e, Fingerprint, s.key.fingerprint);
    assert PatternHits(eng, p, AuthorizedKey, s.key.authorized) <==> Finds(eng, e, AuthorizedKey, s.key.authorized);
    assert OutcomeOf(eng, p, s);
  }

  /** What one seeker step does to the reports. */
  ghost predicate GenuineMove(eng: Engine, published: set<seq<CompiledPattern>>, p: Pool, n: nat, q: Pool)
    requires n < |p.seekers|
  {
    && q.patterns == p.patterns && q.received == p.received
    && |q.seekers| == |p.seekers| && q.seekers == p.seekers[n := q.seekers[n]]
    && SeekerGenuine(eng, published, q.seekers[n])
    && (q.channel == p.channel
        || exists s :: q.channel == p.channel + [s] && (IsHit(s) ==> Genuine(eng, published, s)))
  }

  lemma TestStepGenuine(eng: Engine, published: set<seq<CompiledPattern>>, p: Pool, n: nat, choice: Choice)
    requires n < |p.seekers| && p.seekers[n].pc.Test? && StepSeeker(eng, p, n, choice).Some?
    requires SeekerOk(eng, n, p.seekers[n]) && SeekerGenuine(eng, published, p.seekers[n])
    ensures GenuineMove(eng, published, p, n, StepSeeker(eng, p, n, choice).value)
  {
    var sk := p.seekers[n];
    if sk.pc.next < |sk.compiled| && IsHit(TestStatus(eng, n, sk, sk.compiled[sk.pc.next])) {
      TestIsGenuine(eng, published, n, sk, sk.pc.next);
    }
  }

  lemma SeekerStepGenuine(eng: Engine, published: set<seq<CompiledPattern>>, p: Pool, n: nat, choice: Choice)
    requires p.patterns in published && n < |p.seekers| && StepSeeker(eng, p, n, choice).Some?
    requires SeekerOk(eng, n, p.seekers[n]) && SeekerGenuine(eng, published, p.seekers[n])
    ensures GenuineMove(eng, published, p, n, StepSeeker(eng, p, n, choice).value)
  {
    if p.seekers[n].pc.Test? {
      TestStepGenuine(eng, published, p, n, choice);
    }
  }

  lemma StepKeepsReports(eng: Engine, published: set<seq<CompiledPattern>>, p: Pool, a: Action)
    requires Inv(eng, p) && ReportsInv(eng, published, p) && Step(eng, p, a).Some?
    requires a.Publish? ==> a.patterns in published
    ensures ReportsInv(eng, published, Step(eng, p, a).value)
  {
    if a.Seek? {
      SeekerStepGenuine(eng, published, p, a.n, a.choice);
    }
  }

  lemma {:induction false} RunKeepsReports(eng: Engine, published: set<seq<CompiledPattern>>, p: Pool,
                                           actions: seq<Action>)
    requires Inv(eng, p) && ReportsInv(eng, published, p) && Run(eng, p, actions).Some?
    requires forall a :: a in actions && a.Publish? ==> a.patterns in published
    ensures ReportsInv(eng, published, Run(eng, p, actions).value)
    decreases |actions|
  {
    if actions != [] {
      StepKeepsInv(eng, p, actions[0]);
      StepKeepsReports(eng, published, p, actions[0]);
      RunKeepsReports(eng, published, Step(eng, p, actions[0]).value, actions[1..]);
    }
  }

  /** In every run, each match status the main loop receives is the outcome of testing, against
      the key it carries, a pattern of the snapshot its seeker had read, a published one. */
  lemma ReceivedHitsAreGenuine(eng: Engine, patterns: seq<CompiledPattern>, seekers: nat, actions: seq<Action>,
                               s: Status)
    requires Run(eng, Start(patterns, seekers), actions).Some?
    requires s in Run(eng, Start(patterns, seekers), actions).value.received && IsHit(s)
    ensures s.snapshot in Published(patterns, actions)
    ensures exists p :: p in s.snapshot && OutcomeOf(eng, p, s)
  {
    StartOk(eng, patterns, seekers);
    RunKeepsReports(eng, Published(patterns, actions), Start(patterns, seekers), actions);
  }

  /** The snapshot most recently fetched. */
  function LatestSnapshot(patterns: seq<CompiledPattern>, actions: seq<Action>): seq<CompiledPattern>
    decreases |actions|
  {
    if actions == [] then patterns
    else LatestSnapshot(if actions[0].Publish? then actions[0].patterns else patterns, actions[1..])
  }

  /** What a seeker polls is always the snapshot most recently fetched. */
  lemma {:induction false} PolledIsLatest(eng: Engine, p: Pool, actions: seq<Action>)
    requires Run(eng, p, actions).Some?
    ensures Run(eng, p, actions).value.patterns == LatestSnapshot(p.patterns, actions)
    decreases |actions|
  {
    if actions != [] {
      PolledIsLatest(eng, Step(eng, p, actions[0]).value, actions[1..]);
    }
  }
}
