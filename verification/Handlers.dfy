/** The request handlers that change targets and matches, and what every run of them keeps. */
module Handlers {
  import opened Ascii
  import opened RegexMatch
  import opened Model
  import opened Compile
  import opened CompileMeaning
  import opened Attribution
  import opened CaseModes
  import opened Rfc3339
  import opened Store

  // ---- Validation ----------------------------------------------------------------------------

  const UPPER_CHARS := "ABCDEFGHIJKLMNOPQRSTUVWXYZ"
  const LOWER_CHARS := "abcdefghijklmnopqrstuvwxyz"
  const BASE64_CHARS := UPPER_CHARS + LOWER_CHARS + "0123456789+/="

  predicate IsBase64Char(c: char) { IsAlnum(c) || c == '+' || c == '/' || c == '=' }

  lemma UpperChars(c: char)
    ensures c in UPPER_CHARS <==> IsUpper(c)
  {
    if IsUpper(c) { assert UPPER_CHARS[c as int - 65] == c; }
  }

  lemma LowerChars(c: char)
    ensures c in LOWER_CHARS <==> IsLower(c)
  {
    if IsLower(c) { assert LOWER_CHARS[c as int - 97] == c; }
  }

  /** The test is membership in the base64 alphabet. */
  lemma Base64Alphabet(c: char)
    ensures IsBase64Char(c) <==> c in BASE64_CHARS
  {
    UpperChars(c);
    LowerChars(c);
    var rest := "0123456789+/=";
    if '0' <= c <= '9' { assert rest[c as int - 48] == c; }
    if c == '+' { assert rest[10] == c; }
    if c == '/' { assert rest[11] == c; }
    if c == '=' { assert rest[12] == c; }
    assert c in BASE64_CHARS <==> c in UPPER_CHARS + LOWER_CHARS || c in rest;
  }

  /** validateWordPattern. */
  predicate ValidWordPattern(word: string) { forall i :: 0 <= i < |word| ==> IsBase64Char(word[i]) }

  predicate AllowedType(typ: string) { typ == "word" || typ == "regex" }
  predicate AllowedScope(scope: string) { scope == "fingerprint" || scope == "pubkey" || scope == "both" }

  predicate KnownModes(modes: seq<string>) {
    forall i :: 0 <= i < |modes| ==> KnownMode(modes[i])
  }

  /** validateTargetEnums: empty values are tolerated. */
  predicate ValidEnums(t: Target) {
    && (t.typ == "" || AllowedType(t.typ))
    && (t.matchScope == "" || AllowedScope(t.matchScope))
    && KnownModes(t.caseModes)
  }

  /** The pattern check for the target's type. */
  predicate ValidPattern(eng: Engine, t: Target) {
    if t.typ == "word" then ValidWordPattern(t.pattern) else eng.Compile(t.pattern).Some?
  }

  predicate AcceptsCreate(eng: Engine, t: Target) {
    t.pattern != "" && ValidEnums(t) && ValidPattern(eng, t)
  }

  predicate AcceptsUpdate(eng: Engine, t: Target) {
    t.typ != "" && t.pattern != "" && ValidEnums(t) && ValidPattern(eng, t)
  }

  // ---- Handlers as steps ------------------------------------------------------------------------

  /** The state after POST /api/targets. */
  function Created(eng: Engine, db: Db, t: Target, now: string, freshId: string): Db {
    if AcceptsCreate(eng, t) then
      match InsertTarget(db, freshId, NewRow(t.(createdAt := ""), now))
      case Some(next) => next
      case None => db
    else db
  }

  /** The state after PUT /api/targets/{id}. */
  function Updated(eng: Engine, db: Db, id: string, t: Target): Db {
    if id in db.targets && AcceptsUpdate(eng, t)
    then db.(targets := db.targets[id := UpdatedRow(t, db.targets[id])])
    else db
  }

  /** The match POST /api/matches records: server-owned fields replaced. */
  ghost function AttributedMatch(eng: Engine, active: seq<Target>, m: Match, now: string, freshId: string): Match {
    m.(id := freshId, timestamp := now, targetId := FirstClaimant(eng, active, m))
  }

  /** The two matches tell of the same find: who found it, what was found, and where. */
  predicate SameReport(a: Match, b: Match) {
    && a.clientId == b.clientId && a.hostname == b.hostname && a.seekerId == b.seekerId
    && a.matchString == b.matchString && a.key.fingerprint == b.key.fingerprint
    && a.key.authorized == b.key.authorized
    && a.matchedFingerprint == b.matchedFingerprint && a.matchedAuthorizedKey == b.matchedAuthorizedKey
  }

  ghost function Posted(eng: Engine, db: Db, active: seq<Target>, m: Match, now: string, freshId: string): Db {
    match InsertMatch(db, AttributedMatch(eng, active, m, now, freshId))
    case Some(next) => next
    case None => db
  }

  // ---- The handlers themselves ---------------------------------------------------------------------

  class Api {
    const store: Tables
    const attributor: Attributor

    constructor (eng: Engine)
      ensures fresh(store) && fresh(attributor)
      ensures attributor.Valid() && attributor.eng == eng && store.Contents() == Db(map[], map[])
    {
      store := new Tables();
      attributor := new Attributor(eng);
    }

    method HandleCreateTarget(body: Target, now: Moment, freshId: string) returns (code: nat)
      requires freshId != ""
      modifies store
      ensures store.Contents() == Created(attributor.eng, old(store.Contents()), body, Format(now), freshId)
      ensures code == if !AcceptsCreate(attributor.eng, body) then 400
                      else if freshId in old(store.targets) then 500 else 201
    {
      var t := body.(id := "", createdAt := "");
      if t.pattern == "" {
        return 400;
      }
      if !ValidEnums(t) {
        return 400;
      }
      if t.typ == "word" {
        if !ValidWordPattern(t.pattern) {
          return 400;
        }
      } else {
        if attributor.eng.Compile(t.pattern).None? {
          return 400;
        }
      }
      assert AcceptsCreate(attributor.eng, body);
      assert NewRow(t, Format(now)) == NewRow(body.(createdAt := ""), Format(now));
      var ok, _ := store.CreateTarget(t, Format(now), freshId);
      code := if ok then 201 else 500;
    }

    method HandleUpdateTarget(id: string, body: Target) returns (code: nat)
      modifies store
      ensures store.Contents() == Updated(attributor.eng, old(store.Contents()), id, body)
      ensures code == if id !in old(store.targets) then 404
                      else if !AcceptsUpdate(attributor.eng, body) then 400 else 200
    {
      if id !in store.targets {
        return 404;
      }
      var existing := store.targets[id];
      var t := body.(id := id, createdAt := existing.createdAt);
      if t.typ == "" || t.pattern == "" {
        return 400;
      }
      if !ValidEnums(t) {
        return 400;
      }
      if t.typ == "word" {
        if !ValidWordPattern(t.pattern) {
          return 400;
        }
      } else {
        if attributor.eng.Compile(t.pattern).None? {
          return 400;
        }
      }
      assert AcceptsUpdate(attributor.eng, body);
      assert UpdatedRow(t, existing) == UpdatedRow(body, existing);
      store.UpdateTarget(t);
      code := 200;
    }

    method HandleDeleteTarget(id: string) returns (code: nat)
      modifies store
      ensures store.Contents() == Deleted(old(store.Contents()), id)
      ensures code == if id in old(store.targets) then 204 else 404
    {
      var _, targetDeleted := store.DeleteTarget(id);
      if !targetDeleted {
        return 404;
      }
      return 204;
    }

    /** handleGetActiveTargets: the patterns of some listing the query may return. */
    method HandleGetActiveTargets(affixes: Affixes) returns (compiled: seq<CompiledPattern>)
      ensures exists active :: IsActiveListing(store.Contents(), active) && compiled == Compiled(active, affixes)
    {
      var active := store.ListActiveTargets();
      compiled := CompilePatterns(active, affixes);
    }

    /** handlePostMatch: attributed over some listing the query may return. */
    method HandlePostMatch(body: Match, now: Moment, freshId: string) returns (code: nat)
      requires attributor.Valid() && freshId != ""
      modifies store, attributor
      ensures attributor.Valid()
      ensures exists active :: IsActiveListing(old(store.Contents()), active)
                && store.Contents() == Posted(attributor.eng, old(store.Contents()), active, body, Format(now), freshId)
      ensures code == if freshId in old(store.matches) then 500 else 201
      ensures code == 201 ==>
                && freshId in store.matches && store.matches[freshId].id == freshId
                && SameReport(store.matches[freshId], body) && store.matches[freshId].timestamp == Format(now)
                && store.matches == old(store.matches)[freshId := store.matches[freshId]]
                && store.targets == old(store.targets)
    {
      var m := body.(id := "", timestamp := "", targetId := "");
      var active := store.ListActiveTargets();
      var tid := attributor.AttributeMatch(active, m);
      EarliestClaimantUnique(attributor.eng, active, m, tid);
      SameClaims(attributor.eng, active, m, body);
      if tid != "" {
        m := m.(targetId := tid);
      }
      var ok, recorded := store.RecordMatch(m, Format(now), freshId);
      assert recorded == AttributedMatch(attributor.eng, active, body, Format(now), freshId);
      code := if ok then 201 else 500;
    }
  }

  /** seedDefaultTarget. */
  method SeedDefaultTarget(store: Tables, flagPattern: string, envPattern: string, now: Moment,
                           freshIds: seq<string>)
    requires |freshIds| == |SeedTargets(flagPattern, envPattern)|
    modifies store
    ensures store.Contents()
         == if old(store.targets) != map[] then old(store.Contents())
            else Seeded(old(store.Contents()), SeedTargets(flagPattern, envPattern), Format(now), freshIds)
    ensures StoreOk(old(store.Contents())) && (forall i :: 0 <= i < |freshIds| ==> freshIds[i] != "") ==>
              StoreOk(store.Contents())
  {
    if StoreOk(store.Contents()) && forall i :: 0 <= i < |freshIds| ==> freshIds[i] != "" {
      FormatIsTimeText(now);
      SeededStoreOk(store.Contents(), flagPattern, envPattern, Format(now), freshIds);
    }
    if store.targets != map[] {
      return;
    }
    var targets := SeedTargets(flagPattern, envPattern);
    for n := 0 to |targets|
      invariant Seeded(store.Contents(), targets[n..], Format(now), freshIds[n..])
             == Seeded(old(store.Contents()), targets, Format(now), freshIds)
    {
      assert targets[n..][1..] == targets[n + 1..] && freshIds[n..][1..] == freshIds[n + 1..];
      var ok, _ := store.CreateTarget(targets[n].(id := freshIds[n]), Format(now), "");
      assert NewRow(targets[n].(id := freshIds[n]), Format(now)) == NewRow(targets[n], Format(now));
      if !ok {
        return;
      }
    }
  }

  lemma ClaimsAgree(eng: Engine, t: Target, m: Match, n: Match)
    requires m.key == n.key && m.matchedFingerprint == n.matchedFingerprint
    requires m.matchedAuthorizedKey == n.matchedAuthorizedKey
    ensures Claims(eng, t, m) <==> Claims(eng, t, n)
  {
    forall side
      ensures ClaimsOnSide(eng, t, m, side) <==> ClaimsOnSide(eng, t, n, side)
    {
      assert SideText(m.key, side) == SideText(n.key, side);
    }
  }

  /** Attribution looks at the key and the flags only. */
  lemma {:induction false} SameClaims(eng: Engine, active: seq<Target>, m: Match, n: Match)
    requires m.key == n.key && m.matchedFingerprint == n.matchedFingerprint
    requires m.matchedAuthorizedKey == n.matchedAuthorizedKey
    ensures FirstClaimant(eng, active, m) == FirstClaimant(eng, active, n)
  {
    if active != [] {
      ClaimsAgree(eng, active[0], m, n);
      SameClaims(eng, active[1..], m, n);
    }
  }

  // ---- Runs --------------------------------------------------------------------------------------

  const DEFAULT_WORDS: seq<string> := [
    "nugget", "slacker", "wheelsdown", "hollowoak",
    "ferrari", "porsche", "gt3rs", "portofino",
    "longhorn", "miata", "equiraptor"]

  /** A target seedDefaultTarget inserts: a default word, or a regex given at start-up. */
  predicate IsSeed(t: Target) {
    && t.caseModes == [] && t.matchScope == "" && t.active
    && ((t.typ == "word" && t.pattern in DEFAULT_WORDS) || (t.typ == "regex" && t.pattern != ""))
  }

  datatype Event =
    | Seed(t: Target, now: Moment, freshId: string)
    | Create(t: Target, now: Moment, freshId: string)
    | Update(id: string, t: Target)
    | Delete(id: string)
    | Post(m: Match, active: seq<Target>, now: Moment, freshId: string)

  /** What the surroundings guarantee about a step: generated IDs are not empty (but may
      clash), seeds are the program's own, and listings are answers to the query. */
  ghost predicate Possible(db: Db, e: Event) {
    match e
    case Seed(t, _, freshId) => IsSeed(t) && freshId != ""
    case Create(_, _, freshId) => freshId != ""
    case Update(_, _) => true
    case Delete(_) => true
    case Post(_, active, _, freshId) => IsActiveListing(db, active) && freshId != ""
  }

  ghost function Step(eng: Engine, db: Db, e: Event): Db {
    match e
    case Seed(t, now, freshId) =>
      (match InsertTarget(db, freshId, NewRow(t.(createdAt := ""), Format(now)))
       case Some(next) => next
       case None => db)
    case Create(t, now, freshId) => Created(eng, db, t, Format(now), freshId)
    case Update(id, t) => Updated(eng, db, id, t)
    case Delete(id) => Deleted(db, id)
    case Post(m, active, now, freshId) => Posted(eng, db, active, m, Format(now), freshId)
  }

  ghost function After(eng: Engine, events: seq<Event>): Db {
    if events == [] then Db(map[], map[]) else Step(eng, After(eng, events[..|events| - 1]), events[|events| - 1])
  }

  lemma AfterSnoc(eng: Engine, events: seq<Event>, e: Event)
    ensures After(eng, events + [e]) == Step(eng, After(eng, events), e)
  {
    assert (events + [e])[..|events|] == events;
  }

  ghost predicate PossibleRun(eng: Engine, events: seq<Event>) {
    forall n :: 0 <= n < |events| ==> Possible(After(eng, events[..n]), events[n])
  }

  /** The targets seedDefaultTarget inserts into an empty database. */
  function SeedTargets(flagPattern: string, envPattern: string): seq<Target> {
    if flagPattern != "" then [Target("", "regex", flagPattern, "Default", true, [], "", "")]
    else if envPattern != "" then [Target("", "regex", envPattern, "Default", true, [], "", "")]
    else seq(|DEFAULT_WORDS|, i requires 0 <= i < |DEFAULT_WORDS| =>
               Target("", "word", DEFAULT_WORDS[i], DEFAULT_WORDS[i], true, [], "", ""))
  }

  /** Inserting targets one by one, stopping at the first error. */
  function Seeded(db: Db, targets: seq<Target>, now: string, freshIds: seq<string>): Db
    requires |freshIds| == |targets|
    decreases |targets|
  {
    if targets == [] then db
    else
      match InsertTarget(db, freshIds[0], NewRow(targets[0], now))
      case None => db
      case Some(next) => Seeded(next, targets[1..], now, freshIds[1..])
  }

  // ---- What every run keeps -------------------------------------------------------------------------

  /** The target a row reads back as is well-formed. */
  predicate WellFormed(t: Target) {
    && t.pattern != "" && AllowedType(t.typ)
    && (t.typ == "word" ==> ValidWordPattern(t.pattern))
    && t.caseModes != [] && KnownModes(t.caseModes)
    && (t.matchScope == "" || AllowedScope(t.matchScope))
  }

  ghost predicate StoreOk(db: Db) {
    && Integrity(db)
    && (forall id :: id in db.targets ==> id != "" && WellFormed(ReadTarget(id, db.targets[id])))
    && Dated(db)
  }

  /** Every creation time is the text of an instant. */
  ghost predicate Dated(db: Db) {
    forall id :: id in db.targets ==> IsTimeText(db.targets[id].createdAt)
  }

  lemma KnownModesReadBack(modes: seq<string>)
    requires KnownModes(modes)
    ensures SplitCaseModes(JoinCaseModes(modes)) == if modes == [] then ["insensitive"] else modes
  {
    forall i | 0 <= i < |modes|
      ensures NoComma(modes[i])
    {
      KnownModeNoComma(modes[i]);
    }
    CaseModesRoundTrip(modes);
    assert !KnownMode("");
  }

  lemma KnownModeNoComma(mode: string)
    requires KnownMode(mode)
    ensures NoComma(mode)
  {
    assert NoComma("insensitive") && NoComma("sensitive") && NoComma("capitalized");
  }

  lemma DefaultWordsValid(word: string)
    requires word in DEFAULT_WORDS
    ensures word != "" && ValidWordPattern(word)
  {
    assert ValidWordPattern("nugget") && ValidWordPattern("slacker") && ValidWordPattern("wheelsdown");
    assert ValidWordPattern("hollowoak") && ValidWordPattern("ferrari") && ValidWordPattern("porsche");
    assert ValidWordPattern("gt3rs") && ValidWordPattern("portofino") && ValidWordPattern("longhorn");
    assert ValidWordPattern("miata") && ValidWordPattern("equiraptor");
  }

  /** Whatever known modes are stored, the column reads back as a non-empty list of known modes. */
  lemma KnownModesStayKnown(modes: seq<string>)
    requires KnownModes(modes)
    ensures SplitCaseModes(JoinCaseModes(modes)) != [] && KnownModes(SplitCaseModes(JoinCaseModes(modes)))
  {
    KnownModesReadBack(modes);
  }

  lemma NewRowWellFormed(t: Target, now: string, id: string)
    requires t.pattern != "" && ValidEnums(t) && (t.typ == "word" ==> ValidWordPattern(t.pattern))
    ensures WellFormed(ReadTarget(id, NewRow(t, now)))
  {
    if t.caseModes == [] {
      KnownModesStayKnown(["insensitive"]);
    } else {
      KnownModesStayKnown(t.caseModes);
    }
  }

  lemma UpdatedRowWellFormed(eng: Engine, t: Target, row: TargetRow, id: string)
    requires AcceptsUpdate(eng, t)
    ensures WellFormed(ReadTarget(id, UpdatedRow(t, row)))
  {
    KnownModesStayKnown(t.caseModes);
  }

  lemma InsertKeepsOk(db: Db, t: Target, now: string, freshId: string)
    requires StoreOk(db) && freshId != "" && IsTimeText(now)
    requires t.pattern != "" && ValidEnums(t) && (t.typ == "word" ==> ValidWordPattern(t.pattern))
    ensures match InsertTarget(db, freshId, NewRow(t.(createdAt := ""), now))
            case Some(next) => StoreOk(next)
            case None => true
  {
    NewRowWellFormed(t.(createdAt := ""), now, freshId);
  }

  lemma {:induction false} FirstClaimantListed(eng: Engine, active: seq<Target>, m: Match)
    ensures FirstClaimant(eng, active, m) == ""
         || exists t :: t in active && t.id == FirstClaimant(eng, active, m)
  {
    if active != [] {
      if Claims(eng, active[0], m) {
        assert active[0] in active;
      } else {
        FirstClaimantListed(eng, active[1..], m);
        assert forall t :: t in active[1..] ==> t in active;
      }
    }
  }

  lemma PostKeepsOk(eng: Engine, db: Db, active: seq<Target>, m: Match, now: string, freshId: string)
    requires StoreOk(db) && IsActiveListing(db, active)
    ensures StoreOk(Posted(eng, db, active, m, now, freshId))
  {
    FirstClaimantListed(eng, active, m);
    var recorded := AttributedMatch(eng, active, m, now, freshId);
    if InsertMatch(db, recorded).Some? {
      RecordKeepsIntegrityExactly(db, recorded);
    }
  }

  lemma SeedStepKeepsOk(eng: Engine, db: Db, t: Target, now: Moment, freshId: string)
    requires StoreOk(db) && Possible(db, Seed(t, now, freshId))
    ensures StoreOk(Step(eng, db, Seed(t, now, freshId)))
  {
    FormatIsTimeText(now);
    if t.typ == "word" { DefaultWordsValid(t.pattern); }
    InsertKeepsOk(db, t, Format(now), freshId);
  }

  lemma CreateKeepsOk(eng: Engine, db: Db, t: Target, now: Moment, freshId: string)
    requires StoreOk(db) && freshId != ""
    ensures StoreOk(Created(eng, db, t, Format(now), freshId))
  {
    FormatIsTimeText(now);
    if AcceptsCreate(eng, t) { InsertKeepsOk(db, t, Format(now), freshId); }
  }

  lemma UpdateKeepsOk(eng: Engine, db: Db, id: string, t: Target)
    requires StoreOk(db)
    ensures StoreOk(Updated(eng, db, id, t))
  {
    if id in db.targets && AcceptsUpdate(eng, t) { UpdatedRowWellFormed(eng, t, db.targets[id], id); }
  }

  lemma StepKeepsOk(eng: Engine, db: Db, e: Event)
    requires StoreOk(db) && Possible(db, e)
    ensures StoreOk(Step(eng, db, e))
  {
    match e {
      case Seed(t, now, freshId) => SeedStepKeepsOk(eng, db, t, now, freshId);
      case Create(t, now, freshId) => CreateKeepsOk(eng, db, t, now, freshId);
      case Update(id, t) => UpdateKeepsOk(eng, db, id, t);
      case Delete(id) => DeletedExactly(db, id);
      case Post(m, active, now, freshId) => PostKeepsOk(eng, db, active, m, Format(now), freshId);
    }
  }

  /** In every run of handlers, each one step: every match is unattributed or names an existing
      target, and every stored target reads back well-formed. */
  lemma {:induction false} ReachableStoreOk(eng: Engine, events: seq<Event>)
    requires PossibleRun(eng, events)
    ensures StoreOk(After(eng, events))
  {
    if events != [] {
      var init := events[..|events| - 1];
      forall n | 0 <= n < |init|
        ensures Possible(After(eng, init[..n]), init[n])
      {
        assert events[..n] == init[..n];
      }
      ReachableStoreOk(eng, init);
      StepKeepsOk(eng, After(eng, init), events[|events| - 1]);
    }
  }

  /** "Not found" means nothing changed: in every reachable state, deleting a target that is
      not there (under a non-empty ID) leaves the tables as they are. */
  lemma DeleteNotFoundHarmless(eng: Engine, events: seq<Event>, id: string)
    requires PossibleRun(eng, events) && id != "" && id !in After(eng, events).targets
    ensures Step(eng, After(eng, events), Delete(id)) == After(eng, events)
  {
    ReachableStoreOk(eng, events);
    NotFoundChangesNothing(After(eng, events), id);
  }

  /** No active word target of a reachable store is dropped by compilation: on every side of
      its scope and for every one of its modes, the key text ending in its word is found. */
  lemma NoActiveWordDropped(eng: Engine, events: seq<Event>, active: seq<Target>, t: Target, mode: string, side: Side)
    requires PossibleRun(eng, events) && IsActiveListing(After(eng, events), active)
    requires t in active && t.typ == "word" && mode in t.caseModes
    requires SearchedOn(t, side)
    ensures t.caseModes != []
    ensures ListHits(eng, DEFAULT_AFFIXES, active, side, "/" + ModeSpelling(t.pattern, mode))
  {
    ReachableStoreOk(eng, events);
    assert WellFormed(t);
    WordTargetNotDropped(eng, active, t, mode, side);
  }

  /** What inserting a target asks of it. */
  predicate Insertable(t: Target) {
    t.pattern != "" && ValidEnums(t) && (t.typ == "word" ==> ValidWordPattern(t.pattern)) && t.createdAt == ""
  }

  ghost predicate AllInsertable(targets: seq<Target>, freshIds: seq<string>) {
    |freshIds| == |targets| && forall i :: 0 <= i < |targets| ==> Insertable(targets[i]) && freshIds[i] != ""
  }

  /** Inserting targets one by one, stopping at the first error, leaves a store that satisfies
      everything handlers rely on. */
  lemma {:induction false} SeedingKeepsOk(db: Db, targets: seq<Target>, now: string, freshIds: seq<string>)
    requires StoreOk(db) && AllInsertable(targets, freshIds) && IsTimeText(now)
    ensures StoreOk(Seeded(db, targets, now, freshIds))
    decreases |targets|
  {
    if targets != [] {
      assert targets[0].(createdAt := "") == targets[0];
      InsertKeepsOk(db, targets[0], now, freshIds[0]);
      var next := InsertTarget(db, freshIds[0], NewRow(targets[0], now));
      if next.Some? {
        assert AllInsertable(targets[1..], freshIds[1..]);
        SeedingKeepsOk(next.value, targets[1..], now, freshIds[1..]);
      }
    }
  }

  lemma SeedInsertable(t: Target)
    requires IsSeed(t) && t.createdAt == ""
    ensures Insertable(t)
  {
    if t.typ == "word" { DefaultWordsValid(t.pattern); }
  }

  /** Whatever the flag and the environment hold, seeding a store the handlers can rely on,
      such as an empty one, leaves one. */
  lemma SeededStoreOk(db: Db, flagPattern: string, envPattern: string, now: string, freshIds: seq<string>)
    requires StoreOk(db) && |freshIds| == |SeedTargets(flagPattern, envPattern)|
    requires IsTimeText(now) && forall i :: 0 <= i < |freshIds| ==> freshIds[i] != ""
    ensures StoreOk(Seeded(db, SeedTargets(flagPattern, envPattern), now, freshIds))
  {
    var targets := SeedTargets(flagPattern, envPattern);
    SeedTargetsAreSeeds(flagPattern, envPattern);
    forall i | 0 <= i < |targets|
      ensures Insertable(targets[i])
    {
      assert targets[i] in targets;
      SeedInsertable(targets[i]);
    }
    SeedingKeepsOk(db, targets, now, freshIds);
  }

  lemma SeedTargetsAreSeeds(flagPattern: string, envPattern: string)
    ensures forall t :: t in SeedTargets(flagPattern, envPattern) ==> IsSeed(t) && t.createdAt == ""
  {
  }
}
