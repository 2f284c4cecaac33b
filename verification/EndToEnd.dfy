/** From the pattern list a client polls to the match row the server writes. */
module EndToEnd {
  import opened RegexMatch
  import opened Model
  import opened Rfc3339
  import opened Compile
  import opened CompileMeaning
  import opened Attribution
  import opened Pool
  import opened PoolReports
  import opened Store
  import Handlers
  import HandlerEffects

  /** The snapshot was compiled from targets that are all still active. */
  ghost predicate CompiledFromSome(affixes: Affixes, snapshot: seq<CompiledPattern>, active: seq<Target>) {
    exists targets :: snapshot == Compiled(targets, affixes) && forall t :: t in targets ==> t in active
  }

  /** The row tells who found the key, which key it is, and on which sides it matched. */
  predicate Stored(row: Match, clientId: string, hostname: string, s: Status) {
    && row.clientId == clientId && row.hostname == hostname && row.seekerId == s.sid + 1
    && row.key.fingerprint == s.key.fingerprint && row.key.authorized == s.key.authorized
    && row.matchedFingerprint == s.matchedFingerprint && row.matchedAuthorizedKey == s.matchedAuthorizedKey
  }

  /** Any run of the client, any run of the server: a match the client's main loop receives is
      stored as found (by whom, in which key, on which sides), under a non-empty target ID that
      names a target then in the store, one that claims it, if the snapshot its seeker had read
      was compiled from targets still active when the report arrives; whatever became of the
      other snapshots. */
  lemma EveryHitIsAttributed(
    eng: Engine, affixes: Affixes,
    patterns: seq<CompiledPattern>, seekers: nat, actions: seq<Action>, s: Status, clientId: string, hostname: string,
    events: seq<Handlers.Event>, active: seq<Target>, now: Moment, freshId: string)
    requires Strayless(affixes)
    requires Run(eng, Start(patterns, seekers), actions).Some?
    requires s in Run(eng, Start(patterns, seekers), actions).value.received && IsHit(s)
    requires Handlers.PossibleRun(eng, events) && IsActiveListing(Handlers.After(eng, events), active)
    requires CompiledFromSome(affixes, s.snapshot, active)
    requires freshId !in Handlers.After(eng, events).matches
    ensures
      var db := Handlers.After(eng, events);
      var report := ReportMatch(clientId, hostname, s);
      var after := Handlers.Step(eng, db, Handlers.Post(report, active, now, freshId));
      && freshId in after.matches
      && var row := after.matches[freshId];
         && row.targetId != "" && row.targetId in after.targets
         && (exists t :: t in active && t.id == row.targetId && Claims(eng, t, report))
         && Stored(row, clientId, hostname, s) && row.timestamp == Format(now)
  {
    var db := Handlers.After(eng, events);
    var m := ReportMatch(clientId, hostname, s);
    ReceivedHitsAreGenuine(eng, patterns, seekers, actions, s);
    var p :| p in s.snapshot && OutcomeOf(eng, p, s);
    assert ReportOf(eng, p, m);
    Handlers.ReachableStoreOk(eng, events);
    GenuineIsAttributed(eng, affixes, s.snapshot, p, m, db, active);
    StoredAsFound(eng, db, s, clientId, hostname, active, now, freshId);
  }

  lemma StoredAsFound(eng: Engine, db: Db, s: Status, clientId: string, hostname: string, active: seq<Target>,
                      now: Moment, freshId: string)
    requires freshId !in db.matches
    ensures var report := ReportMatch(clientId, hostname, s);
            var after := Handlers.Step(eng, db, Handlers.Post(report, active, now, freshId));
            && freshId in after.matches && after.targets == db.targets
            && Stored(after.matches[freshId], clientId, hostname, s)
            && after.matches[freshId].timestamp == Format(now)
            && after.matches[freshId].targetId == FirstClaimant(eng, active, report)
  {
    var report := ReportMatch(clientId, hostname, s);
    HandlerEffects.PostedIsRecorded(eng, db, report, active, now, freshId,
                                    Handlers.Step(eng, db, Handlers.Post(report, active, now, freshId)));
  }

  lemma GenuineIsAttributed(eng: Engine, affixes: Affixes, snapshot: seq<CompiledPattern>, p: CompiledPattern,
                            m: Match, db: Db, active: seq<Target>)
    requires Strayless(affixes) && p in snapshot && ReportOf(eng, p, m)
    requires CompiledFromSome(affixes, snapshot, active)
    requires Handlers.StoreOk(db) && IsActiveListing(db, active)
    ensures FirstClaimant(eng, active, m) != "" && FirstClaimant(eng, active, m) in db.targets
    ensures exists t :: t in active && t.id == FirstClaimant(eng, active, m) && Claims(eng, t, m)
  {
    var targets :| snapshot == Compiled(targets, affixes) && forall t :: t in targets ==> t in active;
    var id := FirstClaimant(eng, active, m);
    EarliestClaimantUnique(eng, active, m, id);
    AttributionComplete(eng, affixes, targets, active, p, m, id);
    var i :| 0 <= i < |active| && active[i].id == id && Claims(eng, active[i], m);
    assert active[i] in active;
  }

  /** The handler step edits or deletes the target. */
  predicate Touches(e: Handlers.Event, id: string) {
    (e.Update? || e.Delete?) && e.id == id
  }

  predicate HasRow(db: Db, id: string, row: TargetRow) { id in db.targets && db.targets[id] == row }

  lemma StepLeavesUntouched(eng: Engine, db: Db, e: Handlers.Event, id: string, row: TargetRow)
    requires HasRow(db, id, row) && !Touches(e, id)
    ensures HasRow(Handlers.Step(eng, db, e), id, row)
  {
    match e
    case Seed(t, now, freshId) =>
    case Create(t, now, freshId) =>
    case Update(other, t) =>
    case Delete(other) =>
    case Post(m, active, now, freshId) =>
  }

  /** The row is there after the first `k` steps. */
  ghost predicate RowAfter(eng: Engine, events: seq<Handlers.Event>, id: string, row: TargetRow, k: nat)
    requires k <= |events|
  {
    HasRow(Handlers.After(eng, events[..k]), id, row)
  }

  lemma NextLeavesUntouched(eng: Engine, events: seq<Handlers.Event>, id: string, row: TargetRow, k: nat)
    requires k < |events| && !Touches(events[k], id) && RowAfter(eng, events, id, row, k)
    ensures RowAfter(eng, events, id, row, k + 1)
  {
    assert events[..k + 1] == events[..k] + [events[k]];
    Handlers.AfterSnoc(eng, events[..k], events[k]);
    StepLeavesUntouched(eng, Handlers.After(eng, events[..k]), events[k], id, row);
  }

  lemma {:induction false} UntouchedRowStays(eng: Engine, events: seq<Handlers.Event>, id: string, row: TargetRow,
                                             k: nat)
    requires k <= |events| && RowAfter(eng, events, id, row, k)
    requires forall i :: k <= i < |events| ==> !Touches(events[i], id)
    ensures RowAfter(eng, events, id, row, |events|)
    decreases |events| - k
  {
    if k < |events| {
      NextLeavesUntouched(eng, events, id, row, k);
      UntouchedRowStays(eng, events, id, row, k + 1);
    }
  }

  /** A list served to clients after `k` steps stays current while no target it was compiled
      from is edited or deleted, whatever is created or reported meanwhile. */
  lemma ServedStaysCurrent(eng: Engine, affixes: Affixes, events: seq<Handlers.Event>, k: nat,
                           listed: seq<Target>, active: seq<Target>)
    requires k <= |events| && IsActiveListing(Handlers.After(eng, events[..k]), listed)
    requires IsActiveListing(Handlers.After(eng, events), active)
    requires forall t, i :: t in listed && k <= i < |events| ==> !Touches(events[i], t.id)
    ensures CompiledFromSome(affixes, Compiled(listed, affixes), active)
  {
    assert events[..|events|] == events;
    forall t | t in listed
      ensures t in active
    {
      ListedStaysListed(eng, events, k, listed, active, t);
    }
  }

  lemma ListedStaysListed(eng: Engine, events: seq<Handlers.Event>, k: nat, listed: seq<Target>, active: seq<Target>,
                          t: Target)
    requires k <= |events| && IsActiveListing(Handlers.After(eng, events[..k]), listed) && t in listed
    requires IsActiveListing(Handlers.After(eng, events[..|events|]), active)
    requires forall i :: k <= i < |events| ==> !Touches(events[i], t.id)
    ensures t in active
  {
    var row := Handlers.After(eng, events[..k]).targets[t.id];
    assert RowAfter(eng, events, t.id, row, k);
    UntouchedRowStays(eng, events, t.id, row, k);
    StillListed(Handlers.After(eng, events[..|events|]), active, t.id, row);
  }

  lemma StillListed(db: Db, active: seq<Target>, id: string, row: TargetRow)
    requires IsActiveListing(db, active) && HasRow(db, id, row) && row.active
    ensures ReadTarget(id, row) in active
  {
  }

  /** Since the listing puts newer targets first and text order is time order, in every
      reachable state a match goes to a newest claimant: no other claiming target was created
      in a later second. */
  lemma AttributedToNewest(eng: Engine, events: seq<Handlers.Event>, active: seq<Target>, m: Match, t: Target)
    requires Handlers.PossibleRun(eng, events) && IsActiveListing(Handlers.After(eng, events), active)
    requires t in active && Claims(eng, t, m)
    ensures var targets := Handlers.After(eng, events).targets;
            var credited := FirstClaimant(eng, active, m);
            && credited in targets && t.id in targets
            && IsTimeText(targets[credited].createdAt) && IsTimeText(targets[t.id].createdAt)
            && WrittenSecond(targets[credited].createdAt) >= WrittenSecond(targets[t.id].createdAt)
  {
    Handlers.ReachableStoreOk(eng, events);
    var i, w := ClaimantAtOrBefore(eng, active, m, t);
    ListedRow(Handlers.After(eng, events), active, i);
    ListedRow(Handlers.After(eng, events), active, w);
    ListedNewestFirst(active, i, w);
  }

  lemma ListedRow(db: Db, active: seq<Target>, i: nat)
    requires Handlers.Dated(db) && IsActiveListing(db, active) && i < |active|
    ensures active[i].id in db.targets && db.targets[active[i].id].createdAt == active[i].createdAt
    ensures IsTimeText(active[i].createdAt)
  {
    assert active[i] in active;
  }

  lemma ListedNewestFirst(active: seq<Target>, i: nat, w: nat)
    requires NewestFirst(active) && i <= w < |active|
    requires IsTimeText(active[i].createdAt) && IsTimeText(active[w].createdAt)
    ensures WrittenSecond(active[i].createdAt) >= WrittenSecond(active[w].createdAt)
  {
    if i < w { WrittenOrder(active[i].createdAt, active[w].createdAt); }
  }

  lemma ClaimantAtOrBefore(eng: Engine, active: seq<Target>, m: Match, t: Target) returns (i: nat, w: nat)
    requires t in active && Claims(eng, t, m)
    ensures i <= w < |active| && active[w] == t && FirstClaimant(eng, active, m) == active[i].id
  {
    var id := FirstClaimant(eng, active, m);
    EarliestClaimantUnique(eng, active, m, id);
    w :| 0 <= w < |active| && active[w] == t;
    i :| 0 <= i < |active| && Claims(eng, active[i], m) && id == active[i].id
         && forall j :: 0 <= j < i ==> !Claims(eng, active[j], m);
  }
}
