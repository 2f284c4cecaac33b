/** The client: seekers sharing a pattern snapshot and a key counter, reporting through a
    bounded channel to the main loop. Every shared access is one atomic step, and a run is
    any interleaving of steps. */
module Pool {
  import opened Basics
  import opened RegexMatch
  import opened Model
  import opened PatternCache

  /** A report on the channel; a ticker report carries the zero key. `snapshot` (history) is the
      pattern list the seeker had read, empty on a ticker report. */
  datatype Status = Status(
    sid: nat, keyCount: nat, matchedFingerprint: bool, matchedAuthorizedKey: bool, key: KeyText,
    snapshot: seq<CompiledPattern>)

  const ZERO_KEY := KeyText("", "")

  /** Where a seeker stands in its loop. */
  datatype Pc =
    | Top                                // about to poll the context
    | Load                               // about to read the shared snapshot
    | Refresh                            // about to bring the compiled list up to date
    | Generate                           // about to generate a key
    | Bump                               // shared counter raised, local one not yet
    | Test(next: nat)                    // about to test the key against compiled[next]
    | SendMatch(next: nat, s: Status)    // blocked sending a match found by compiled[next]
    | ResetMatch(next: nat)              // match sent, local count not yet cleared
    | Tick                               // about to poll the ticker
    | SendTick(s: Status)                // blocked sending the running count
    | ResetTick                          // count sent, local count not yet cleared
    | Stopped                            // returned

  /** A seeker's locals. */
  datatype Seeker = Seeker(
    pc: Pc, keyCount: nat, snapshot: seq<CompiledPattern>, compiled: seq<CachedPattern>, key: KeyText)

  /** Shared state, the main loop's statistics, and (last four fields) the history of the run. */
  datatype Pool = Pool(
    patterns: seq<CompiledPattern>, total: nat, channel: seq<Status>, capacity: nat, seekers: seq<Seeker>,
    keyStat: nat, hitStat: nat, cancelled: bool, running: bool,
    received: seq<Status>, sent: seq<Status>, found: nat, abandoned: nat)

  /** How a step resolves what the program leaves open. */
  datatype Choice = Go | Fail | Key(k: KeyText) | Fire | Deliver | GiveUp

  datatype Action =
    | Cancel                                       // the context is cancelled
    | Publish(patterns: seq<CompiledPattern>)      // fetchTargets stores a new snapshot
    | Receive                                      // the main loop takes one status
    | LeaveLoop                                    // the main loop sees the cancellation
    | Seek(n: nat, choice: Choice)                 // seeker n takes one step

  predicate IsHit(s: Status) { s.matchedFingerprint || s.matchedAuthorizedKey }

  predicate Finds(eng: Engine, e: CachedPattern, side: Side, s: string) {
    && (match side case Fingerprint => e.matchFingerprint case AuthorizedKey => e.matchAuthorizedKey)
    && eng.MatchString(e.re, s)
  }

  /** The status one test of the current key produces. */
  function TestStatus(eng: Engine, n: nat, sk: Seeker, e: CachedPattern): Status {
    Status(n, sk.keyCount, Finds(eng, e, Fingerprint, sk.key.fingerprint),
           Finds(eng, e, AuthorizedKey, sk.key.authorized), sk.key, sk.snapshot)
  }

  /** The status of the ticker. */
  function TickStatus(n: nat, sk: Seeker): Status { Status(n, sk.keyCount, false, false, ZERO_KEY, []) }

  function WithSeeker(p: Pool, n: nat, sk: Seeker): Pool
    requires n < |p.seekers|
  {
    p.(seekers := p.seekers[n := sk])
  }

  /** A blocking send: into a channel with room, or abandoned once cancelled. */
  function Send(p: Pool, n: nat, s: Status, choice: Choice, after: Pc): Option<Pool>
    requires n < |p.seekers|
  {
    var sk := p.seekers[n];
    match choice
    case Deliver =>
      if |p.channel| < p.capacity
      then Some(WithSeeker(p, n, sk.(pc := after)).(channel := p.channel + [s], sent := p.sent + [s]))
      else None
    case GiveUp =>
      if p.cancelled
      then Some(WithSeeker(p, n, sk.(pc := Stopped)).(abandoned := p.abandoned + if IsHit(s) then 1 else 0))
      else None
    case _ => None
  }

  /** One step of seeker `n`; None when the choice does not apply. */
  function StepSeeker(eng: Engine, p: Pool, n: nat, choice: Choice): Option<Pool>
    requires n < |p.seekers|
  {
    var sk := p.seekers[n];
    match sk.pc
    case Top =>
      if choice != Go then None
      else Some(WithSeeker(p, n, sk.(pc := if p.cancelled then Stopped else Load)))
    case Load =>
      if choice != Go then None
      else Some(WithSeeker(p, n, sk.(pc := if p.patterns == [] then Top else Refresh, snapshot := p.patterns)))
    case Refresh =>
      if choice != Go then None
      else
        var compiled := Refreshed(eng, sk.compiled, sk.snapshot);
        Some(WithSeeker(p, n, sk.(pc := if compiled == [] then Top else Generate, compiled := compiled)))
    case Generate =>
      (match choice
       case Fail => Some(WithSeeker(p, n, sk.(pc := Top)))
       case Key(k) =>
         if k.fingerprint == "" then None
         else Some(WithSeeker(p, n, sk.(pc := Bump, key := k)).(total := p.total + 1))
       case _ => None)
    case Bump =>
      if choice != Go then None
      else Some(WithSeeker(p, n, sk.(pc := Test(0), keyCount := sk.keyCount + 1)))
    case Test(i) =>
      if choice != Go then None
      else if i >= |sk.compiled| then Some(WithSeeker(p, n, sk.(pc := Tick)))
      else
        var s := TestStatus(eng, n, sk, sk.compiled[i]);
        if IsHit(s) then Some(WithSeeker(p, n, sk.(pc := SendMatch(i, s))).(found := p.found + 1))
        else Some(WithSeeker(p, n, sk.(pc := Test(i + 1))))
    case SendMatch(i, s) => Send(p, n, s, choice, ResetMatch(i))
    case ResetMatch(i) =>
      if choice != Go then None
      else Some(WithSeeker(p, n, sk.(pc := Test(i + 1), keyCount := 0)))
    case Tick =>
      (match choice
       case Fire => Some(WithSeeker(p, n, sk.(pc := SendTick(TickStatus(n, sk)))))
       case Go => Some(WithSeeker(p, n, sk.(pc := Top)))
       case _ => None)
    case SendTick(s) => Send(p, n, s, choice, ResetTick)
    case ResetTick =>
      if choice != Go then None
      else Some(WithSeeker(p, n, sk.(pc := Top, keyCount := 0)))
    case Stopped => None
  }

  /** One step of the client; None when the action is not enabled. */
  function Step(eng: Engine, p: Pool, a: Action): Option<Pool> {
    match a
    case Cancel => if p.cancelled then None else Some(p.(cancelled := true))
    case Publish(patterns) => if p.running then Some(p.(patterns := patterns)) else None
    case Receive =>
      if p.running && p.channel != [] then
        var s := p.channel[0];
        Some(p.(channel := p.channel[1..], keyStat := p.keyStat + s.keyCount,
                hitStat := p.hitStat + (if s.key.fingerprint != "" then 1 else 0),
                received := p.received + [s]))
      else None
    case LeaveLoop => if p.running && p.cancelled then Some(p.(running := false)) else None
    case Seek(n, choice) => if n < |p.seekers| then StepSeeker(eng, p, n, choice) else None
  }

  function Run(eng: Engine, p: Pool, actions: seq<Action>): Option<Pool>
    decreases |actions|
  {
    if actions == [] then Some(p)
    else
      match Step(eng, p, actions[0])
      case None => None
      case Some(q) => Run(eng, q, actions[1..])
  }

  function NewSeeker(): Seeker { Seeker(Top, 0, [], [], ZERO_KEY) }

  /** The client as Run starts it, after the first fetch. */
  function Start(patterns: seq<CompiledPattern>, seekers: nat): Pool {
    Pool(patterns, 0, [], seekers * 2, seq(seekers, _ => NewSeeker()), 0, 0, false, true, [], [], 0, 0)
  }

  // ---- What is conserved -----------------------------------------------------------------

  function StatusKeys(s: Status): int { s.keyCount }
  function StatusHits(s: Status): int { if IsHit(s) then 1 else 0 }

  /** Keys a seeker has generated and not yet put on the channel. */
  function UnsentKeys(sk: Seeker): int {
    match sk.pc
    case Bump => sk.keyCount + 1
    case ResetMatch(_) => 0
    case ResetTick => 0
    case _ => sk.keyCount
  }

  /** Hits a seeker has found and is still trying to send. */
  function UnsentHits(sk: Seeker): int {
    match sk.pc
    case SendMatch(_, _) => 1
    case _ => 0
  }

  ghost predicate KeysConserved(p: Pool) {
    p.total == p.keyStat + Sum(StatusKeys, p.channel) + Sum(UnsentKeys, p.seekers)
  }

  ghost predicate HitsConserved(p: Pool) {
    p.found == p.hitStat + Sum(StatusHits, p.channel) + Sum(UnsentHits, p.seekers) + p.abandoned
  }

  ghost predicate StatsMatchReceived(p: Pool) {
    p.keyStat == Sum(StatusKeys, p.received) && p.hitStat == Sum(StatusHits, p.received)
  }

  /** A status is a hit exactly when it carries a key. */
  predicate StatusOk(s: Status) { IsHit(s) <==> s.key.fingerprint != "" }

  predicate AfterRefresh(pc: Pc) {
    pc.Generate? || pc.Bump? || pc.Test? || pc.SendMatch? || pc.ResetMatch? || pc.Tick? || pc.SendTick? || pc.ResetTick?
  }

  ghost predicate SeekerOk(eng: Engine, n: nat, sk: Seeker) {
    && Sound(eng, sk.compiled)
    // Whenever keys are tested, the list is the fresh compilation of the snapshot just read.
    && (AfterRefresh(sk.pc) ==> sk.compiled == FreshCompile(eng, sk.snapshot))
    && (match sk.pc
        case Bump => sk.key.fingerprint != ""
        case Test(i) => i <= |sk.compiled| && sk.key.fingerprint != ""
        case SendMatch(i, s) =>
          && i < |sk.compiled| && sk.key.fingerprint != ""
          && s == TestStatus(eng, n, sk, sk.compiled[i]) && IsHit(s)
        case ResetMatch(i) => i < |sk.compiled| && sk.key.fingerprint != ""
        case SendTick(s) => s == TickStatus(n, sk)
        case _ => true)
  }

  ghost predicate Inv(eng: Engine, p: Pool) {
    && KeysConserved(p) && HitsConserved(p) && StatsMatchReceived(p)
    && |p.channel| <= p.capacity && p.sent == p.received + p.channel
    && (!p.running ==> p.cancelled)
    && (forall n :: 0 <= n < |p.seekers| && p.seekers[n].pc.Stopped? ==> p.cancelled)
    && (forall i :: 0 <= i < |p.channel| ==> StatusOk(p.channel[i]))
    && (forall n :: 0 <= n < |p.seekers| ==> SeekerOk(eng, n, p.seekers[n]))
  }

  lemma {:induction false} SumFresh(n: nat)
    ensures Sum(UnsentKeys, seq(n, _ => NewSeeker())) == 0
    ensures Sum(UnsentHits, seq(n, _ => NewSeeker())) == 0
  {
    if n > 0 {
      SumFresh(n - 1);
      assert seq(n, _ => NewSeeker())[1..] == seq(n - 1, _ => NewSeeker());
    }
  }

  lemma StartOk(eng: Engine, patterns: seq<CompiledPattern>, seekers: nat)
    ensures Inv(eng, Start(patterns, seekers))
  {
    SumFresh(seekers);
  }

  /** Replacing one seeker moves the two sums by its own contribution. */
  lemma SeekerSums(p: Pool, n: nat, sk: Seeker)
    requires n < |p.seekers|
    ensures var q := WithSeeker(p, n, sk);
            && Sum(UnsentKeys, q.seekers) == Sum(UnsentKeys, p.seekers) - UnsentKeys(p.seekers[n]) + UnsentKeys(sk)
            && Sum(UnsentHits, q.seekers) == Sum(UnsentHits, p.seekers) - UnsentHits(p.seekers[n]) + UnsentHits(sk)
  {
    SumUpdate(UnsentKeys, p.seekers, n, sk);
    SumUpdate(UnsentHits, p.seekers, n, sk);
  }

  /** A seeker about to send `s`, and where it goes on after the send. */
  ghost predicate Sending(eng: Engine, n: nat, sk: Seeker, s: Status, after: Pc) {
    && StatusOk(s) && s.keyCount == sk.keyCount == UnsentKeys(sk) && UnsentHits(sk) == StatusHits(s)
    && UnsentKeys(sk.(pc := after)) == 0 && UnsentHits(sk.(pc := after)) == 0
    && !after.Stopped? && SeekerOk(eng, n, sk) && SeekerOk(eng, n, sk.(pc := after))
  }

  lemma MatchSending(eng: Engine, n: nat, sk: Seeker)
    requires SeekerOk(eng, n, sk) && sk.pc.SendMatch?
    ensures Sending(eng, n, sk, sk.pc.s, ResetMatch(sk.pc.next))
  {
  }

  lemma TickSending(eng: Engine, n: nat, sk: Seeker)
    requires SeekerOk(eng, n, sk) && sk.pc.SendTick?
    ensures Sending(eng, n, sk, sk.pc.s, ResetTick)
  {
  }

  lemma DeliverKeepsInv(eng: Engine, p: Pool, n: nat, s: Status, after: Pc)
    requires Inv(eng, p) && n < |p.seekers| && Sending(eng, n, p.seekers[n], s, after)
    requires Send(p, n, s, Deliver, after).Some?
    ensures Inv(eng, Send(p, n, s, Deliver, after).value)
  {
    SeekerSums(p, n, p.seekers[n].(pc := after));
    SumSnoc(StatusKeys, p.channel, s);
    SumSnoc(StatusHits, p.channel, s);
    assert p.received + (p.channel + [s]) == (p.received + p.channel) + [s];
  }

  lemma GiveUpKeepsInv(eng: Engine, p: Pool, n: nat, s: Status, after: Pc)
    requires Inv(eng, p) && n < |p.seekers| && Sending(eng, n, p.seekers[n], s, after)
    requires Send(p, n, s, GiveUp, after).Some?
    ensures Inv(eng, Send(p, n, s, GiveUp, after).value)
  {
    SeekerSums(p, n, p.seekers[n].(pc := Stopped));
  }

  lemma SendKeepsInv(eng: Engine, p: Pool, n: nat, s: Status, choice: Choice, after: Pc)
    requires Inv(eng, p) && n < |p.seekers| && Sending(eng, n, p.seekers[n], s, after)
    requires Send(p, n, s, choice, after).Some?
    ensures Inv(eng, Send(p, n, s, choice, after).value)
  {
    if choice.Deliver? {
      DeliverKeepsInv(eng, p, n, s, after);
    } else {
      GiveUpKeepsInv(eng, p, n, s, after);
    }
  }

  /** A step of seeker `n` that does not touch the channel. */
  ghost predicate QuietMove(eng: Engine, p: Pool, n: nat, q: Pool)
    requires n < |p.seekers|
  {
    && |q.seekers| == |p.seekers| && q.seekers == p.seekers[n := q.seekers[n]]
    && SeekerOk(eng, n, q.seekers[n])
    && q.total - p.total == UnsentKeys(q.seekers[n]) - UnsentKeys(p.seekers[n])
    && q.found - p.found == UnsentHits(q.seekers[n]) - UnsentHits(p.seekers[n])
    && q.channel == p.channel && q.capacity == p.capacity && q.abandoned == p.abandoned
    && q.keyStat == p.keyStat && q.hitStat == p.hitStat && q.received == p.received && q.sent == p.sent
    && q.cancelled == p.cancelled && q.running == p.running
    && (q.seekers[n].pc.Stopped? ==> q.cancelled)
  }

  lemma QuietPoll(eng: Engine, p: Pool, n: nat, choice: Choice)
    requires n < |p.seekers| && SeekerOk(eng, n, p.seekers[n]) && (p.seekers[n].pc.Top? || p.seekers[n].pc.Load?)
    requires StepSeeker(eng, p, n, choice).Some?
    ensures QuietMove(eng, p, n, StepSeeker(eng, p, n, choice).value)
  {
  }

  lemma QuietRefresh(eng: Engine, p: Pool, n: nat, choice: Choice)
    requires n < |p.seekers| && SeekerOk(eng, n, p.seekers[n]) && p.seekers[n].pc.Refresh?
    requires StepSeeker(eng, p, n, choice).Some?
    ensures QuietMove(eng, p, n, StepSeeker(eng, p, n, choice).value)
  {
    var sk := p.seekers[n];
    RefreshIsFresh(eng, sk.compiled, sk.snapshot);
  }

  lemma QuietGenerate(eng: Engine, p: Pool, n: nat, choice: Choice)
    requires n < |p.seekers| && SeekerOk(eng, n, p.seekers[n]) && (p.seekers[n].pc.Generate? || p.seekers[n].pc.Bump?)
    requires StepSeeker(eng, p, n, choice).Some?
    ensures QuietMove(eng, p, n, StepSeeker(eng, p, n, choice).value)
  {
  }

  lemma QuietHit(eng: Engine, p: Pool, n: nat, i: nat)
    requires n < |p.seekers| && SeekerOk(eng, n, p.seekers[n]) && p.seekers[n].pc == Test(i)
    requires i < |p.seekers[n].compiled| && IsHit(TestStatus(eng, n, p.seekers[n], p.seekers[n].compiled[i]))
    ensures var sk := p.seekers[n];
            var s := TestStatus(eng, n, sk, sk.compiled[i]);
            QuietMove(eng, p, n, WithSeeker(p, n, sk.(pc := SendMatch(i, s))).(found := p.found + 1))
  {
  }

  lemma QuietMiss(eng: Engine, p: Pool, n: nat, i: nat)
    requires n < |p.seekers| && SeekerOk(eng, n, p.seekers[n]) && p.seekers[n].pc == Test(i)
    requires i < |p.seekers[n].compiled| && !IsHit(TestStatus(eng, n, p.seekers[n], p.seekers[n].compiled[i]))
    ensures QuietMove(eng, p, n, WithSeeker(p, n, p.seekers[n].(pc := Test(i + 1))))
  {
  }

  lemma QuietLast(eng: Engine, p: Pool, n: nat)
    requires n < |p.seekers| && SeekerOk(eng, n, p.seekers[n]) && p.seekers[n].pc == Test(|p.seekers[n].compiled|)
    ensures QuietMove(eng, p, n, WithSeeker(p, n, p.seekers[n].(pc := Tick)))
  {
  }

  lemma QuietTest(eng: Engine, p: Pool, n: nat, choice: Choice)
    requires n < |p.seekers| && SeekerOk(eng, n, p.seekers[n]) && p.seekers[n].pc.Test?
    requires StepSeeker(eng, p, n, choice).Some?
    ensures QuietMove(eng, p, n, StepSeeker(eng, p, n, choice).value)
  {
    var sk := p.seekers[n];
    var i := sk.pc.next;
    if i == |sk.compiled| {
      QuietLast(eng, p, n);
    } else if IsHit(TestStatus(eng, n, sk, sk.compiled[i])) {
      QuietHit(eng, p, n, i);
    } else {
      QuietMiss(eng, p, n, i);
    }
  }

  lemma QuietReset(eng: Engine, p: Pool, n: nat, choice: Choice)
    requires n < |p.seekers| && SeekerOk(eng, n, p.seekers[n])
    requires p.seekers[n].pc.ResetMatch? || p.seekers[n].pc.ResetTick?
    requires StepSeeker(eng, p, n, choice).Some?
    ensures QuietMove(eng, p, n, StepSeeker(eng, p, n, choice).value)
  {
  }

  lemma QuietTick(eng: Engine, p: Pool, n: nat, choice: Choice)
    requires n < |p.seekers| && SeekerOk(eng, n, p.seekers[n]) && p.seekers[n].pc.Tick?
    requires StepSeeker(eng, p, n, choice).Some?
    ensures QuietMove(eng, p, n, StepSeeker(eng, p, n, choice).value)
  {
  }

  lemma QuietStep(eng: Engine, p: Pool, n: nat, choice: Choice)
    requires n < |p.seekers| && SeekerOk(eng, n, p.seekers[n])
    requires !p.seekers[n].pc.SendMatch? && !p.seekers[n].pc.SendTick?
    requires StepSeeker(eng, p, n, choice).Some?
    ensures QuietMove(eng, p, n, StepSeeker(eng, p, n, choice).value)
  {
    var pc := p.seekers[n].pc;
    if pc.Top? || pc.Load? { QuietPoll(eng, p, n, choice); }
    if pc.Refresh? { QuietRefresh(eng, p, n, choice); }
    if pc.Generate? || pc.Bump? { QuietGenerate(eng, p, n, choice); }
    if pc.Test? { QuietTest(eng, p, n, choice); }
    if pc.ResetMatch? || pc.ResetTick? { QuietReset(eng, p, n, choice); }
    if pc.Tick? { QuietTick(eng, p, n, choice); }
  }

  lemma QuietMoveKeepsInv(eng: Engine, p: Pool, n: nat, q: Pool)
    requires Inv(eng, p) && n < |p.seekers| && QuietMove(eng, p, n, q)
    ensures Inv(eng, q)
  {
    SeekerSums(p, n, q.seekers[n]);
  }

  lemma SeekerStepKeepsInv(eng: Engine, p: Pool, n: nat, choice: Choice)
    requires Inv(eng, p) && n < |p.seekers| && StepSeeker(eng, p, n, choice).Some?
    ensures Inv(eng, StepSeeker(eng, p, n, choice).value)
  {
    var sk := p.seekers[n];
    if sk.pc.SendMatch? {
      MatchSending(eng, n, sk);
      SendKeepsInv(eng, p, n, sk.pc.s, choice, ResetMatch(sk.pc.next));
    } else if sk.pc.SendTick? {
      TickSending(eng, n, sk);
      SendKeepsInv(eng, p, n, sk.pc.s, choice, ResetTick);
    } else {
      QuietStep(eng, p, n, choice);
      QuietMoveKeepsInv(eng, p, n, StepSeeker(eng, p, n, choice).value);
    }
  }

  lemma StepKeepsInv(eng: Engine, p: Pool, a: Action)
    requires Inv(eng, p) && Step(eng, p, a).Some?
    ensures Inv(eng, Step(eng, p, a).value)
  {
    if a.Seek? {
      SeekerStepKeepsInv(eng, p, a.n, a.choice);
    } else if a.Receive? {
      ReceiveKeepsInv(eng, p);
    }
  }

  lemma ReceiveKeepsInv(eng: Engine, p: Pool)
    requires Inv(eng, p) && Step(eng, p, Receive).Some?
    ensures Inv(eng, Step(eng, p, Receive).value)
  {
    var s := p.channel[0];
    assert StatusOk(s);
    SumSnoc(StatusKeys, p.received, s);
    SumSnoc(StatusHits, p.received, s);
    assert p.received + p.channel == p.received + [s] + p.channel[1..];
  }

  lemma {:induction false} RunKeepsInv(eng: Engine, p: Pool, actions: seq<Action>)
    requires Inv(eng, p) && Run(eng, p, actions).Some?
    ensures Inv(eng, Run(eng, p, actions).value)
    decreases |actions|
  {
    if actions != [] {
      StepKeepsInv(eng, p, actions[0]);
      RunKeepsInv(eng, Step(eng, p, actions[0]).value, actions[1..]);
    }
  }

  function KeysGenerated(a: Action): int {
    if a.Seek? && a.choice.Key? then 1 else 0
  }

  lemma StepCountsKeys(eng: Engine, p: Pool, a: Action)
    requires Step(eng, p, a).Some?
    ensures var q := Step(eng, p, a).value;
            q.total == p.total + KeysGenerated(a) && q.capacity == p.capacity && |q.seekers| == |p.seekers|
  {
    if a.Seek? {
      if p.seekers[a.n].pc.SendMatch? || p.seekers[a.n].pc.SendTick? {
        SendCountsKeys(eng, p, a.n, a.choice);
      } else {
        MoveCountsKeys(eng, p, a.n, a.choice);
      }
    }
  }

  lemma SendCountsKeys(eng: Engine, p: Pool, n: nat, choice: Choice)
    requires n < |p.seekers| && (p.seekers[n].pc.SendMatch? || p.seekers[n].pc.SendTick?)
    requires StepSeeker(eng, p, n, choice).Some?
    ensures var q := StepSeeker(eng, p, n, choice).value;
            q.total == p.total && !choice.Key? && q.capacity == p.capacity && |q.seekers| == |p.seekers|
  {
  }

  lemma MoveCountsKeys(eng: Engine, p: Pool, n: nat, choice: Choice)
    requires n < |p.seekers| && !p.seekers[n].pc.SendMatch? && !p.seekers[n].pc.SendTick?
    requires StepSeeker(eng, p, n, choice).Some?
    ensures var q := StepSeeker(eng, p, n, choice).value;
            && q.total == p.total + (if choice.Key? then 1 else 0)
            && q.capacity == p.capacity && |q.seekers| == |p.seekers|
  {
  }

  /** The shared total counts generated keys, one each, however many patterns they match; the
      number of seekers and the channel's capacity never change. */
  lemma {:induction false} TotalCountsKeys(eng: Engine, p: Pool, actions: seq<Action>)
    requires Run(eng, p, actions).Some?
    ensures Run(eng, p, actions).value.total == p.total + Sum(KeysGenerated, actions)
    ensures Run(eng, p, actions).value.capacity == p.capacity
    ensures |Run(eng, p, actions).value.seekers| == |p.seekers|
    decreases |actions|
  {
    if actions != [] {
      StepCountsKeys(eng, p, actions[0]);
      TotalCountsKeys(eng, Step(eng, p, actions[0]).value, actions[1..]);
    }
  }

  /** In every interleaving: the shared total is the number of keys generated, and is what the
      main loop has counted, plus what is buffered, plus what seekers hold; every hit found is
      counted, buffered, being sent or given up at shutdown; and the hit statistic counts the
      match statuses received. */
  lemma CountsConserved(eng: Engine, patterns: seq<CompiledPattern>, seekers: nat, actions: seq<Action>)
    requires Run(eng, Start(patterns, seekers), actions).Some?
    ensures var p := Run(eng, Start(patterns, seekers), actions).value;
            && p.total == Sum(KeysGenerated, actions)
            && KeysConserved(p) && HitsConserved(p) && StatsMatchReceived(p)
            && p.sent == p.received + p.channel && |p.channel| <= 2 * seekers
  {
    StartOk(eng, patterns, seekers);
    RunKeepsInv(eng, Start(patterns, seekers), actions);
    TotalCountsKeys(eng, Start(patterns, seekers), actions);
  }

  lemma ReachableSeeker(eng: Engine, patterns: seq<CompiledPattern>, seekers: nat, actions: seq<Action>, n: nat)
    requires Run(eng, Start(patterns, seekers), actions).Some?
    requires n < |Run(eng, Start(patterns, seekers), actions).value.seekers|
    ensures var p := Run(eng, Start(patterns, seekers), actions).value;
            SeekerOk(eng, n, p.seekers[n]) && (p.seekers[n].pc.Stopped? ==> p.cancelled)
  {
    StartOk(eng, patterns, seekers);
    RunKeepsInv(eng, Start(patterns, seekers), actions);
  }

  /** In every interleaving, a status goes onto the channel exactly while fewer than two per
      seeker are buffered, and is given up only after cancellation. */
  lemma SendsWhileRoom(eng: Engine, patterns: seq<CompiledPattern>, seekers: nat, actions: seq<Action>, n: nat)
    requires Run(eng, Start(patterns, seekers), actions).Some?
    requires n < |Run(eng, Start(patterns, seekers), actions).value.seekers|
    requires var pc := Run(eng, Start(patterns, seekers), actions).value.seekers[n].pc; pc.SendMatch? || pc.SendTick?
    ensures var p := Run(eng, Start(patterns, seekers), actions).value;
            && (Step(eng, p, Seek(n, Deliver)).Some? <==> |p.channel| < 2 * seekers)
            && (Step(eng, p, Seek(n, GiveUp)).Some? <==> p.cancelled)
  {
    TotalCountsKeys(eng, Start(patterns, seekers), actions);
  }

  /** In every interleaving, a seeker that is testing a key tests it against exactly the
      fresh compilation of the snapshot it read, and it returns only after cancellation. */
  lemma SeekerTestsFreshList(eng: Engine, patterns: seq<CompiledPattern>, seekers: nat, actions: seq<Action>, n: nat)
    requires Run(eng, Start(patterns, seekers), actions).Some?
    requires n < |Run(eng, Start(patterns, seekers), actions).value.seekers|
    ensures var p := Run(eng, Start(patterns, seekers), actions).value;
            var sk := p.seekers[n];
            && (AfterRefresh(sk.pc) ==> sk.compiled == FreshCompile(eng, sk.snapshot))
            && (sk.pc.Stopped? ==> p.cancelled)
  {
    ReachableSeeker(eng, patterns, seekers, actions, n);
  }
}
