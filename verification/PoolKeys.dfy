/** What a seeker sends for one key: a status for each pattern that finds it, in list order,
    the first carrying the whole pending count. */
module PoolKeys {
  import opened Basics
  import opened RegexMatch
  import opened Model
  import opened CompileMeaning
  import opened PatternCache
  import opened Pool

  // ---- What should be sent -------------------------------------------------------------------

  /** The status of testing `p` on the key, as the pattern itself means it. */
  function PatternStatus(eng: Engine, n: nat, count: nat, snapshot: seq<CompiledPattern>, key: KeyText,
                         p: CompiledPattern): Status {
    Status(n, count, PatternHits(eng, p, Fingerprint, key.fingerprint),
           PatternHits(eng, p, AuthorizedKey, key.authorized), key, snapshot)
  }

  /** One status for each pattern of the list that finds the key, in list order; the first
      carries `count`, the others nothing. */
  function KeyReports(eng: Engine, n: nat, count: nat, snapshot: seq<CompiledPattern>, key: KeyText,
                      patterns: seq<CompiledPattern>): seq<Status> {
    if patterns == [] then []
    else
      var before := KeyReports(eng, n, count, snapshot, key, patterns[..|patterns| - 1]);
      var s := PatternStatus(eng, n, Pending(count, before), snapshot, key, patterns[|patterns| - 1]);
      if IsHit(s) then before + [s] else before
  }

  /** What is left of the count after some statuses have carried it off. */
  function Pending(count: nat, before: seq<Status>): nat { if before == [] then count else 0 }

  /** The statuses of seeker `n`, in order. */
  function SentBy(n: nat, ss: seq<Status>): seq<Status> {
    if ss == [] then []
    else SentBy(n, ss[..|ss| - 1]) + if ss[|ss| - 1].sid == n then [ss[|ss| - 1]] else []
  }

  lemma SentBySnoc(n: nat, ss: seq<Status>, s: Status)
    ensures SentBy(n, ss + [s]) == SentBy(n, ss) + if s.sid == n then [s] else []
  {
    assert (ss + [s])[..|ss|] == ss;
  }

  // ---- The same over the compiled list ---------------------------------------------------------

  function EntryStatus(eng: Engine, n: nat, count: nat, snapshot: seq<CompiledPattern>, key: KeyText,
                       e: CachedPattern): Status {
    Status(n, count, Finds(eng, e, Fingerprint, key.fingerprint), Finds(eng, e, AuthorizedKey, key.authorized),
           key, snapshot)
  }

  function EntryReports(eng: Engine, n: nat, count: nat, snapshot: seq<CompiledPattern>, key: KeyText,
                        compiled: seq<CachedPattern>): seq<Status> {
    if compiled == [] then []
    else
      var before := EntryReports(eng, n, count, snapshot, key, compiled[..|compiled| - 1]);
      var s := EntryStatus(eng, n, Pending(count, before), snapshot, key, compiled[|compiled| - 1]);
      if IsHit(s) then before + [s] else before
  }

  lemma EntryReportsAppend(eng: Engine, n: nat, count: nat, snapshot: seq<CompiledPattern>, key: KeyText,
                           init: seq<CachedPattern>, e: CachedPattern)
    ensures EntryReports(eng, n, count, snapshot, key, init + [e])
         == var before := EntryReports(eng, n, count, snapshot, key, init);
            var s := EntryStatus(eng, n, Pending(count, before), snapshot, key, e);
            if IsHit(s) then before + [s] else before
  {
    assert (init + [e])[..|init|] == init;
  }

  lemma EntryReportsSnoc(eng: Engine, n: nat, count: nat, snapshot: seq<CompiledPattern>, key: KeyText,
                         compiled: seq<CachedPattern>, i: nat)
    requires i < |compiled|
    ensures EntryReports(eng, n, count, snapshot, key, compiled[..i + 1])
         == var before := EntryReports(eng, n, count, snapshot, key, compiled[..i]);
            var s := EntryStatus(eng, n, Pending(count, before), snapshot, key, compiled[i]);
            if IsHit(s) then before + [s] else before
  {
    assert compiled[..i + 1] == compiled[..i] + [compiled[i]];
    EntryReportsAppend(eng, n, count, snapshot, key, compiled[..i], compiled[i]);
  }

  /** A pattern that does not compile finds nothing. */
  lemma UncompiledFindsNothing(eng: Engine, n: nat, count: nat, snapshot: seq<CompiledPattern>, key: KeyText,
                               p: CompiledPattern)
    requires eng.Compile(p.pattern).None?
    ensures !IsHit(PatternStatus(eng, n, count, snapshot, key, p))
  {
  }

  lemma SameTest(eng: Engine, n: nat, count: nat, snapshot: seq<CompiledPattern>, key: KeyText,
                 e: CachedPattern, p: CompiledPattern)
    requires Stands(e, p) && eng.Compile(p.pattern) == Some(e.re)
    ensures EntryStatus(eng, n, count, snapshot, key, e) == PatternStatus(eng, n, count, snapshot, key, p)
  {
  }

  /** Compiling a list changes nothing in what it reports: what does not compile finds nothing. */
  lemma {:induction false} FreshReports(eng: Engine, n: nat, count: nat, snapshot: seq<CompiledPattern>, key: KeyText,
                                        patterns: seq<CompiledPattern>)
    ensures EntryReports(eng, n, count, snapshot, key, FreshCompile(eng, patterns))
         == KeyReports(eng, n, count, snapshot, key, patterns)
  {
    if patterns != [] {
      var init, p := patterns[..|patterns| - 1], patterns[|patterns| - 1];
      FreshReports(eng, n, count, snapshot, key, init);
      var before := KeyReports(eng, n, count, snapshot, key, init);
      match eng.Compile(p.pattern) {
        case None =>
          assert FreshCompile(eng, patterns) == FreshCompile(eng, init);
          UncompiledFindsNothing(eng, n, Pending(count, before), snapshot, key, p);
        case Some(re) =>
          var e := CachedPattern(p.pattern, re, p.matchFingerprint, p.matchAuthorizedKey);
          assert FreshCompile(eng, patterns) == FreshCompile(eng, init) + [e];
          EntryReportsAppend(eng, n, count, snapshot, key, FreshCompile(eng, init), e);
          SameTest(eng, n, Pending(count, before), snapshot, key, e, p);
      }
    }
  }

  // ---- What is sent, step by step ---------------------------------------------------------------

  /** How far seeker `n` is with the key it generated when `mark` statuses had been sent and
      `count` keys, this one included, were pending. */
  ghost predicate Reporting(eng: Engine, p: Pool, n: nat, mark: nat, count: nat, key: KeyText,
                            snapshot: seq<CompiledPattern>)
    requires n < |p.seekers|
  {
    && mark <= |p.sent|
    && var sk := p.seekers[n];
       var reported := SentBy(n, p.sent[mark..]);
       match sk.pc
       case Bump => sk.key == key && sk.snapshot == snapshot && sk.keyCount + 1 == count && reported == []
       case Test(i) => HasReported(eng, sk, n, count, key, snapshot, i, reported)
       case SendMatch(i, _) => HasReported(eng, sk, n, count, key, snapshot, i, reported)
       case ResetMatch(i) =>
         && sk.key == key && sk.snapshot == snapshot && i < |sk.compiled|
         && reported == EntryReports(eng, n, count, snapshot, key, sk.compiled[..i + 1]) != []
       case Tick => HasReported(eng, sk, n, count, key, snapshot, |sk.compiled|, reported)
       case _ => true
  }

  /** The first `i` patterns of the list are reported, and the count is gone with the first of them. */
  ghost predicate HasReported(eng: Engine, sk: Seeker, n: nat, count: nat, key: KeyText,
                              snapshot: seq<CompiledPattern>, i: nat, reported: seq<Status>) {
    && sk.key == key && sk.snapshot == snapshot && i <= |sk.compiled|
    && reported == EntryReports(eng, n, count, snapshot, key, sk.compiled[..i])
    && sk.keyCount == Pending(count, reported)
  }

  lemma QuietSends(eng: Engine, p: Pool, m: nat, choice: Choice)
    requires m < |p.seekers| && StepSeeker(eng, p, m, choice).Some?
    requires var pc := p.seekers[m].pc; !pc.SendMatch? && !pc.SendTick?
    ensures var q := StepSeeker(eng, p, m, choice).value;
            q.sent == p.sent && |q.seekers| == |p.seekers| && q.seekers == p.seekers[m := q.seekers[m]]
  {
  }

  lemma SendSends(eng: Engine, p: Pool, m: nat, choice: Choice)
    requires m < |p.seekers| && SeekerOk(eng, m, p.seekers[m]) && StepSeeker(eng, p, m, choice).Some?
    requires var pc := p.seekers[m].pc; pc.SendMatch? || pc.SendTick?
    ensures var q := StepSeeker(eng, p, m, choice).value;
            var s := p.seekers[m].pc.s;
            && |q.seekers| == |p.seekers| && q.seekers == p.seekers[m := q.seekers[m]] && s.sid == m
            && q.sent == p.sent + if choice.Deliver? then [s] else []
  {
  }

  /** What a step sends: nothing, or one status of the seeker that moves. */
  lemma StepSends(eng: Engine, p: Pool, m: nat, choice: Choice)
    requires m < |p.seekers| && SeekerOk(eng, m, p.seekers[m]) && StepSeeker(eng, p, m, choice).Some?
    ensures var q := StepSeeker(eng, p, m, choice).value;
            && |q.seekers| == |p.seekers| && q.seekers == p.seekers[m := q.seekers[m]]
            && (q.sent == p.sent || exists s :: q.sent == p.sent + [s] && s.sid == m)
  {
    var pc := p.seekers[m].pc;
    if pc.SendMatch? || pc.SendTick? { SendSends(eng, p, m, choice); } else { QuietSends(eng, p, m, choice); }
  }

  /** A step of another seeker leaves this one and its statuses alone. */
  lemma OtherLeavesAlone(eng: Engine, p: Pool, m: nat, choice: Choice, n: nat, mark: nat)
    requires m < |p.seekers| && n < |p.seekers| && m != n && mark <= |p.sent|
    requires SeekerOk(eng, m, p.seekers[m]) && StepSeeker(eng, p, m, choice).Some?
    ensures var q := StepSeeker(eng, p, m, choice).value;
            && |q.seekers| == |p.seekers| && q.seekers[n] == p.seekers[n] && mark <= |q.sent|
            && SentBy(n, q.sent[mark..]) == SentBy(n, p.sent[mark..])
  {
    var q := StepSeeker(eng, p, m, choice).value;
    StepSends(eng, p, m, choice);
    if q.sent != p.sent {
      var s :| q.sent == p.sent + [s] && s.sid == m;
      assert q.sent[mark..] == p.sent[mark..] + [s];
      SentBySnoc(n, p.sent[mark..], s);
    }
  }

  lemma BumpKeepsReporting(eng: Engine, p: Pool, n: nat, choice: Choice, mark: nat, count: nat, key: KeyText,
                           snapshot: seq<CompiledPattern>)
    requires n < |p.seekers| && p.seekers[n].pc.Bump? && Reporting(eng, p, n, mark, count, key, snapshot)
    requires StepSeeker(eng, p, n, choice).Some?
    ensures |StepSeeker(eng, p, n, choice).value.seekers| == |p.seekers|
    ensures Reporting(eng, StepSeeker(eng, p, n, choice).value, n, mark, count, key, snapshot)
  {
    assert p.seekers[n].compiled[..0] == [];
  }

  /** A pattern that finds the key adds its status to the reports. */
  lemma HitReported(eng: Engine, sk: Seeker, n: nat, count: nat, key: KeyText, snapshot: seq<CompiledPattern>,
                    i: nat, sent: seq<Status>, mark: nat, s: Status)
    requires mark <= |sent| && HasReported(eng, sk, n, count, key, snapshot, i, SentBy(n, sent[mark..]))
    requires i < |sk.compiled| && s == TestStatus(eng, n, sk, sk.compiled[i]) && IsHit(s)
    ensures SentBy(n, (sent + [s])[mark..]) == EntryReports(eng, n, count, snapshot, key, sk.compiled[..i + 1]) != []
  {
    EntryReportsSnoc(eng, n, count, snapshot, key, sk.compiled, i);
    assert (sent + [s])[mark..] == sent[mark..] + [s];
    SentBySnoc(n, sent[mark..], s);
  }

  /** A pattern that does not find it adds none. */
  lemma MissReported(eng: Engine, sk: Seeker, n: nat, count: nat, key: KeyText, snapshot: seq<CompiledPattern>,
                     i: nat, reported: seq<Status>, pc: Pc)
    requires HasReported(eng, sk, n, count, key, snapshot, i, reported) && i < |sk.compiled|
    requires !IsHit(TestStatus(eng, n, sk, sk.compiled[i]))
    ensures HasReported(eng, sk.(pc := pc), n, count, key, snapshot, i + 1, reported)
  {
    EntryReportsSnoc(eng, n, count, snapshot, key, sk.compiled, i);
  }

  lemma TestKeepsReporting(eng: Engine, p: Pool, n: nat, choice: Choice, mark: nat, count: nat, key: KeyText,
                           snapshot: seq<CompiledPattern>)
    requires n < |p.seekers| && p.seekers[n].pc.Test? && SeekerOk(eng, n, p.seekers[n])
    requires Reporting(eng, p, n, mark, count, key, snapshot) && StepSeeker(eng, p, n, choice).Some?
    ensures |StepSeeker(eng, p, n, choice).value.seekers| == |p.seekers|
    ensures Reporting(eng, StepSeeker(eng, p, n, choice).value, n, mark, count, key, snapshot)
  {
    var sk := p.seekers[n];
    var i := sk.pc.next;
    if i < |sk.compiled| && !IsHit(TestStatus(eng, n, sk, sk.compiled[i])) {
      MissReported(eng, sk, n, count, key, snapshot, i, SentBy(n, p.sent[mark..]), Test(i + 1));
    }
  }

  /** The outcome of trying to send a match. */
  lemma SendOutcome(eng: Engine, p: Pool, n: nat, choice: Choice)
    requires n < |p.seekers| && p.seekers[n].pc.SendMatch? && StepSeeker(eng, p, n, choice).Some?
    ensures var q := StepSeeker(eng, p, n, choice).value;
            var sk := p.seekers[n];
            && |q.seekers| == |p.seekers|
            && (|| (q.seekers[n] == sk.(pc := ResetMatch(sk.pc.next)) && q.sent == p.sent + [sk.pc.s])
                || (q.seekers[n].pc.Stopped? && q.sent == p.sent))
  {
  }

  lemma SendKeepsReporting(eng: Engine, p: Pool, n: nat, choice: Choice, mark: nat, count: nat, key: KeyText,
                           snapshot: seq<CompiledPattern>)
    requires n < |p.seekers| && p.seekers[n].pc.SendMatch? && SeekerOk(eng, n, p.seekers[n])
    requires Reporting(eng, p, n, mark, count, key, snapshot) && StepSeeker(eng, p, n, choice).Some?
    ensures |StepSeeker(eng, p, n, choice).value.seekers| == |p.seekers|
    ensures Reporting(eng, StepSeeker(eng, p, n, choice).value, n, mark, count, key, snapshot)
  {
    var sk := p.seekers[n];
    SendOutcome(eng, p, n, choice);
    HitReported(eng, sk, n, count, key, snapshot, sk.pc.next, p.sent, mark, sk.pc.s);
  }

  lemma ResetKeepsReporting(eng: Engine, p: Pool, n: nat, choice: Choice, mark: nat, count: nat, key: KeyText,
                            snapshot: seq<CompiledPattern>)
    requires n < |p.seekers| && p.seekers[n].pc.ResetMatch? && StepSeeker(eng, p, n, choice).Some?
    requires Reporting(eng, p, n, mark, count, key, snapshot)
    ensures |StepSeeker(eng, p, n, choice).value.seekers| == |p.seekers|
    ensures Reporting(eng, StepSeeker(eng, p, n, choice).value, n, mark, count, key, snapshot)
  {
  }

  /** The seeker is at work on the key it generated last. */
  predicate Busy(pc: Pc) { pc.Bump? || pc.Test? || pc.SendMatch? || pc.ResetMatch? }

  /** A seeker that is not busy with a key only comes back to one by generating it. */
  lemma IdleStaysIdle(eng: Engine, p: Pool, n: nat, choice: Choice)
    requires n < |p.seekers| && SeekerOk(eng, n, p.seekers[n]) && !choice.Key? && !Busy(p.seekers[n].pc)
    requires StepSeeker(eng, p, n, choice).Some?
    ensures var q := StepSeeker(eng, p, n, choice).value;
            && |q.seekers| == |p.seekers| && |q.sent| >= |p.sent|
            && !Busy(q.seekers[n].pc) && !q.seekers[n].pc.Tick?
  {
    StepSends(eng, p, n, choice);
  }

  lemma OwnStepKeepsReporting(eng: Engine, p: Pool, choice: Choice, n: nat, mark: nat, count: nat, key: KeyText,
                              snapshot: seq<CompiledPattern>)
    requires n < |p.seekers| && SeekerOk(eng, n, p.seekers[n]) && !choice.Key?
    requires Reporting(eng, p, n, mark, count, key, snapshot) && StepSeeker(eng, p, n, choice).Some?
    ensures |StepSeeker(eng, p, n, choice).value.seekers| == |p.seekers|
    ensures Reporting(eng, StepSeeker(eng, p, n, choice).value, n, mark, count, key, snapshot)
  {
    match p.seekers[n].pc
    case Bump => BumpKeepsReporting(eng, p, n, choice, mark, count, key, snapshot);
    case Test(_) => TestKeepsReporting(eng, p, n, choice, mark, count, key, snapshot);
    case SendMatch(_, _) => SendKeepsReporting(eng, p, n, choice, mark, count, key, snapshot);
    case ResetMatch(_) => ResetKeepsReporting(eng, p, n, choice, mark, count, key, snapshot);
    case _ => IdleStaysIdle(eng, p, n, choice);
  }

  lemma StepKeepsReporting(eng: Engine, p: Pool, a: Action, n: nat, mark: nat, count: nat, key: KeyText,
                           snapshot: seq<CompiledPattern>)
    requires n < |p.seekers| && Inv(eng, p) && Reporting(eng, p, n, mark, count, key, snapshot)
    requires Step(eng, p, a).Some? && !IsKeyOf(a, n)
    ensures |Step(eng, p, a).value.seekers| == |p.seekers|
    ensures Reporting(eng, Step(eng, p, a).value, n, mark, count, key, snapshot)
  {
    if a.Seek? {
      if a.n == n {
        OwnStepKeepsReporting(eng, p, a.choice, n, mark, count, key, snapshot);
      } else {
        OtherLeavesAlone(eng, p, a.n, a.choice, n, mark);
      }
    }
  }

  /** Seeker `n` generates a key. */
  predicate IsKeyOf(a: Action, n: nat) { a.Seek? && a.n == n && a.choice.Key? }

  lemma {:induction false} RunKeepsReporting(eng: Engine, p: Pool, actions: seq<Action>, n: nat, mark: nat, count: nat,
                                             key: KeyText, snapshot: seq<CompiledPattern>)
    requires n < |p.seekers| && Inv(eng, p) && Reporting(eng, p, n, mark, count, key, snapshot)
    requires Run(eng, p, actions).Some? && forall a :: a in actions ==> !IsKeyOf(a, n)
    ensures Inv(eng, Run(eng, p, actions).value) && n < |Run(eng, p, actions).value.seekers|
    ensures Reporting(eng, Run(eng, p, actions).value, n, mark, count, key, snapshot)
    decreases |actions|
  {
    if actions != [] {
      StepKeepsInv(eng, p, actions[0]);
      StepKeepsReporting(eng, p, actions[0], n, mark, count, key, snapshot);
      RunKeepsReporting(eng, Step(eng, p, actions[0]).value, actions[1..], n, mark, count, key, snapshot);
    }
  }

  lemma KeyStep(eng: Engine, p: Pool, n: nat, key: KeyText, q: Pool)
    requires Step(eng, p, Seek(n, Key(key))) == Some(q)
    ensures n < |p.seekers| && q.sent == p.sent
    ensures q.seekers == p.seekers[n := p.seekers[n].(pc := Bump, key := key)]
  {
    assert p.seekers[n].pc.Generate?;
  }

  lemma KeyStarts(eng: Engine, p: Pool, n: nat, key: KeyText, q: Pool)
    requires Inv(eng, p) && Step(eng, p, Seek(n, Key(key))) == Some(q)
    ensures Inv(eng, q) && n < |p.seekers| == |q.seekers|
    ensures Reporting(eng, q, n, |p.sent|, p.seekers[n].keyCount + 1, key, p.seekers[n].snapshot)
  {
    StepKeepsInv(eng, p, Seek(n, Key(key)));
    KeyStep(eng, p, n, key, q);
    assert q.sent[|p.sent|..] == [];
  }

  /** At the ticker the whole list is reported. */
  lemma AllReported(eng: Engine, q: Pool, n: nat, mark: nat, count: nat, key: KeyText, snapshot: seq<CompiledPattern>)
    requires n < |q.seekers| && SeekerOk(eng, n, q.seekers[n]) && q.seekers[n].pc.Tick?
    requires Reporting(eng, q, n, mark, count, key, snapshot)
    ensures SentBy(n, q.sent[mark..]) == KeyReports(eng, n, count, snapshot, key, snapshot)
    ensures q.seekers[n].keyCount == Pending(count, SentBy(n, q.sent[mark..]))
  {
    var done := q.seekers[n].compiled;
    assert done[..|done|] == done;
    FreshReports(eng, n, count, snapshot, key, snapshot);
  }

  /** What a seeker has sent for its key by the time it is done with it: since it generated
      `key` in state `p`, exactly one status for each pattern of the snapshot it had read that
      finds the key, in list order; the first carries all its pending keys, the others none,
      and what is still pending is what no status has carried off. */
  ghost predicate KeyReported(eng: Engine, p: Pool, n: nat, key: KeyText, q: Pool) {
    && n < |p.seekers| && n < |q.seekers| && |p.sent| <= |q.sent|
    && var sk := p.seekers[n];
       var reported := SentBy(n, q.sent[|p.sent|..]);
       && reported == KeyReports(eng, n, sk.keyCount + 1, sk.snapshot, key, sk.snapshot)
       && q.seekers[n].keyCount == Pending(sk.keyCount + 1, reported)
  }

  lemma ReportedFrom(eng: Engine, p: Pool, n: nat, key: KeyText, started: Pool, after: seq<Action>, q: Pool)
    requires Inv(eng, started) && n < |p.seekers| && n < |started.seekers|
    requires Reporting(eng, started, n, |p.sent|, p.seekers[n].keyCount + 1, key, p.seekers[n].snapshot)
    requires Run(eng, started, after) == Some(q) && forall a :: a in after ==> !IsKeyOf(a, n)
    requires n < |q.seekers| && q.seekers[n].pc.Tick?
    ensures KeyReported(eng, p, n, key, q)
  {
    var count, snapshot := p.seekers[n].keyCount + 1, p.seekers[n].snapshot;
    RunKeepsReporting(eng, started, after, n, |p.sent|, count, key, snapshot);
    AllReported(eng, q, n, |p.sent|, count, key, snapshot);
  }

  /** In every interleaving, a seeker that has come to the ticker with a key has reported it so. */
  lemma KeyReportedExactly(eng: Engine, patterns: seq<CompiledPattern>, seekers: nat, before: seq<Action>,
                           p: Pool, n: nat, key: KeyText, started: Pool, after: seq<Action>, q: Pool)
    requires Run(eng, Start(patterns, seekers), before) == Some(p)
    requires Step(eng, p, Seek(n, Key(key))) == Some(started)
    requires Run(eng, started, after) == Some(q) && forall a :: a in after ==> !IsKeyOf(a, n)
    requires n < |q.seekers| && q.seekers[n].pc.Tick?
    ensures KeyReported(eng, p, n, key, q)
  {
    StartOk(eng, patterns, seekers);
    RunKeepsInv(eng, Start(patterns, seekers), before);
    KeyStarts(eng, p, n, key, started);
    ReportedFrom(eng, p, n, key, started, after, q);
  }
}
