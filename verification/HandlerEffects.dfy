/** What a request leaves behind, said of the tables and listings a later request sees. */
module HandlerEffects {
  import opened RegexMatch
  import opened Model
  import opened Compile
  import opened CompileMeaning
  import opened Attribution
  import opened Rfc3339
  import opened Store
  import opened Handlers

  // ---- What is accepted ------------------------------------------------------------------------

  ghost predicate PlainEnums(t: Target) {
    && t.matchScope in {"", "fingerprint", "pubkey", "both"}
    && forall mode :: mode in t.caseModes ==> mode in {"insensitive", "sensitive", "capitalized"}
  }

  /** A word of letters, digits, `+`, `/` and `=`, or a regular expression that compiles. */
  ghost predicate PlainPattern(eng: Engine, t: Target) {
    && t.pattern != ""
    && if t.typ == "word" then
         forall c :: c in t.pattern ==>
           c in "ABCDEFGHIJKLMNOPQRSTUVWXYZ" || c in "abcdefghijklmnopqrstuvwxyz" || c in "0123456789+/="
       else eng.Compile(t.pattern).Some?
  }

  lemma ValidEnumsMeaning(t: Target)
    ensures ValidEnums(t) <==> t.typ in {"", "word", "regex"} && PlainEnums(t)
  {
    if PlainEnums(t) { assert forall i :: 0 <= i < |t.caseModes| ==> t.caseModes[i] in t.caseModes; }
    if KnownModes(t.caseModes) {
      forall mode | mode in t.caseModes
        ensures KnownMode(mode)
      {
        var i :| 0 <= i < |t.caseModes| && t.caseModes[i] == mode;
      }
    }
  }

  lemma ValidPatternMeaning(eng: Engine, t: Target)
    ensures t.pattern != "" && ValidPattern(eng, t) <==> PlainPattern(eng, t)
  {
    forall c
      ensures IsBase64Char(c)
         <==> c in "ABCDEFGHIJKLMNOPQRSTUVWXYZ" || c in "abcdefghijklmnopqrstuvwxyz" || c in "0123456789+/="
    {
      Base64Alphabet(c);
    }
    if PlainPattern(eng, t) { assert forall i :: 0 <= i < |t.pattern| ==> t.pattern[i] in t.pattern; }
    if t.typ == "word" && ValidWordPattern(t.pattern) {
      forall c | c in t.pattern
        ensures IsBase64Char(c)
      {
        var i :| 0 <= i < |t.pattern| && t.pattern[i] == c;
      }
    }
  }

  /** Exactly the bodies a create accepts, and exactly those an update accepts. */
  lemma AcceptedExactly(eng: Engine, t: Target)
    ensures AcceptsCreate(eng, t)
       <==> t.typ in {"", "word", "regex"} && PlainEnums(t) && PlainPattern(eng, t)
    ensures AcceptsUpdate(eng, t)
       <==> t.typ in {"word", "regex"} && PlainEnums(t) && PlainPattern(eng, t)
  {
    ValidEnumsMeaning(t);
    ValidPatternMeaning(eng, t);
  }

  // ---- Targets -------------------------------------------------------------------------------------

  /** The listed target shows the body, with the defaults for what it leaves out. */
  predicate Shows(t: Target, body: Target) {
    && t.active && t.pattern == body.pattern && t.title == body.title
    && t.typ == (if body.typ == "" then "regex" else body.typ)
    && t.caseModes == (if body.caseModes == [] then ["insensitive"] else body.caseModes)
  }

  /** Between two listings of active targets nothing but target `id` has changed. */
  ghost predicate OnlyChanged(before: seq<Target>, after: seq<Target>, id: string) {
    forall t: Target :: t.id != id ==> (t in before <==> t in after)
  }

  /** Listings hold exactly what the active rows read back as. */
  lemma InListing(db: Db, list: seq<Target>, t: Target)
    requires IsActiveListing(db, list)
    ensures t in list
       <==> t.id in db.targets && db.targets[t.id].active && t == ReadTarget(t.id, db.targets[t.id])
  {
  }

  lemma OnlyRowChanged(db: Db, before: seq<Target>, after: Db, active: seq<Target>, id: string)
    requires IsActiveListing(db, before) && IsActiveListing(after, active)
    requires forall x :: x != id ==> (x in db.targets <==> x in after.targets)
    requires forall x :: x != id && x in db.targets ==> after.targets[x] == db.targets[x]
    ensures OnlyChanged(before, active, id)
  {
    forall t: Target | t.id != id
      ensures t in before <==> t in active
    {
      InListing(db, before, t);
      InListing(after, active, t);
    }
  }

  /** The one row under `id` is listed exactly when it is active, as it reads back. */
  lemma RowListed(db: Db, list: seq<Target>, id: string)
    requires IsActiveListing(db, list) && id in db.targets
    ensures (exists t :: t in list && t.id == id) <==> db.targets[id].active
    ensures forall t :: t in list && t.id == id ==> t == ReadTarget(id, db.targets[id])
  {
    InListing(db, list, ReadTarget(id, db.targets[id]));
  }

  /** What a created row reads back as. */
  lemma CreatedRowShows(body: Target, now: string, id: string)
    requires KnownModes(body.caseModes)
    ensures var row := NewRow(body.(createdAt := ""), now);
            var t := ReadTarget(id, row);
            && row.active == body.active && (body.active ==> Shows(t, body)) && t.createdAt == now
            && t.matchScope == if body.matchScope == "" then "both" else body.matchScope
  {
    KnownModesReadBack(if body.caseModes == [] then ["insensitive"] else body.caseModes);
  }

  lemma CreateInserts(eng: Engine, db: Db, body: Target, now: Moment, freshId: string, after: Db)
    requires AcceptsCreate(eng, body) && freshId !in db.targets
    requires after == Step(eng, db, Create(body, now, freshId))
    ensures after == Db(db.targets[freshId := NewRow(body.(createdAt := ""), Format(now))], db.matches)
  {
  }

  /** An accepted create with an unused ID: every listing holds the target exactly when the body
      is active, showing the body, its scope or "both", and its creation time; no other target
      and no match is touched. */
  lemma CreatedIsListed(eng: Engine, db: Db, body: Target, now: Moment, freshId: string,
                        before: seq<Target>, after: Db, active: seq<Target>)
    requires AcceptsCreate(eng, body) && freshId !in db.targets
    requires after == Step(eng, db, Create(body, now, freshId))
    requires IsActiveListing(db, before) && IsActiveListing(after, active)
    ensures (exists t :: t in active && t.id == freshId) <==> body.active
    ensures forall t :: t in active && t.id == freshId ==>
              && Shows(t, body) && t.createdAt == Format(now)
              && t.matchScope == if body.matchScope == "" then "both" else body.matchScope
    ensures OnlyChanged(before, active, freshId) && after.matches == db.matches
  {
    CreateInserts(eng, db, body, now, freshId, after);
    InsertedIsListed(db, body, Format(now), freshId, after, active);
    OnlyRowChanged(db, before, after, active, freshId);
  }

  lemma InsertedIsListed(db: Db, body: Target, now: string, id: string, after: Db, active: seq<Target>)
    requires KnownModes(body.caseModes) && id !in db.targets
    requires after == Db(db.targets[id := NewRow(body.(createdAt := ""), now)], db.matches)
    requires IsActiveListing(after, active)
    ensures (exists t :: t in active && t.id == id) <==> body.active
    ensures forall t :: t in active && t.id == id ==>
              && Shows(t, body) && t.createdAt == now
              && t.matchScope == if body.matchScope == "" then "both" else body.matchScope
  {
    RowListed(after, active, id);
    CreatedRowShows(body, now, id);
  }

  /** An active word created so is searched for: the list served finds its word, in each of its
      spellings, on every side its scope covers. */
  lemma CreatedWordIsServed(eng: Engine, db: Db, body: Target, now: Moment, freshId: string, after: Db,
                            active: seq<Target>, mode: string, side: Side)
    requires AcceptsCreate(eng, body) && freshId !in db.targets && body.typ == "word" && body.active
    requires after == Step(eng, db, Create(body, now, freshId)) && IsActiveListing(after, active)
    requires mode in (if body.caseModes == [] then ["insensitive"] else body.caseModes)
    requires body.matchScope != match side case Fingerprint => "pubkey" case AuthorizedKey => "fingerprint"
    ensures ListHits(eng, DEFAULT_AFFIXES, active, side,
                     "/" + if mode == "capitalized" then Capitalized(body.pattern) else body.pattern)
  {
    CreateInserts(eng, db, body, now, freshId, after);
    InsertedIsListed(db, body, Format(now), freshId, after, active);
    ModeIsKnown(body, mode);
    ShownWordIsServed(eng, active, body, freshId, mode, side);
  }

  lemma ShownWordIsServed(eng: Engine, active: seq<Target>, body: Target, id: string, mode: string, side: Side)
    requires exists t :: t in active && t.id == id
    requires forall t :: t in active && t.id == id ==>
               Shows(t, body) && t.matchScope == if body.matchScope == "" then "both" else body.matchScope
    requires body.typ == "word" && KnownMode(mode)
    requires mode in (if body.caseModes == [] then ["insensitive"] else body.caseModes)
    requires body.matchScope != match side case Fingerprint => "pubkey" case AuthorizedKey => "fingerprint"
    ensures ListHits(eng, DEFAULT_AFFIXES, active, side,
                     "/" + if mode == "capitalized" then Capitalized(body.pattern) else body.pattern)
  {
    var t :| t in active && t.id == id;
    WordTargetNotDropped(eng, active, t, mode, side);
  }

  lemma ModeIsKnown(body: Target, mode: string)
    requires KnownModes(body.caseModes)
    requires mode in (if body.caseModes == [] then ["insensitive"] else body.caseModes)
    ensures KnownMode(mode)
  {
    if body.caseModes != [] {
      var i :| 0 <= i < |body.caseModes| && body.caseModes[i] == mode;
    }
  }

  /** An accepted update of a stored target: every listing holds it exactly when the body is
      active, showing the body and the creation time it had; no other target and no match is
      touched. A scope left out stays out, which reads as both sides. */
  lemma UpdatedIsListed(eng: Engine, db: Db, id: string, body: Target, before: seq<Target>, after: Db,
                        active: seq<Target>)
    requires id in db.targets && AcceptsUpdate(eng, body)
    requires after == Step(eng, db, Update(id, body))
    requires IsActiveListing(db, before) && IsActiveListing(after, active)
    ensures (exists t :: t in active && t.id == id) <==> body.active
    ensures forall t :: t in active && t.id == id ==>
              Shows(t, body) && t.matchScope == body.matchScope && t.createdAt == db.targets[id].createdAt
    ensures forall t, u :: t in active && u in before && t.id == u.id == id ==> t.createdAt == u.createdAt
    ensures OnlyChanged(before, active, id) && after.matches == db.matches
  {
    RowListed(db, before, id);
    RowListed(after, active, id);
    KnownModesReadBack(body.caseModes);
    OnlyRowChanged(db, before, after, active, id);
  }

  /** A deleted target is listed no more; the other targets stay. */
  lemma DeletedIsNotListed(eng: Engine, db: Db, id: string, before: seq<Target>, after: Db, active: seq<Target>)
    requires after == Step(eng, db, Delete(id))
    requires IsActiveListing(db, before) && IsActiveListing(after, active)
    ensures forall t :: t in active ==> t.id != id
    ensures OnlyChanged(before, active, id)
  {
    OnlyRowChanged(db, before, after, active, id);
  }

  // ---- Matches --------------------------------------------------------------------------------------

  /** A posted match is stored under its new ID as it was posted, credited over the listing; no
      other match and no target is touched. A taken ID changes nothing. */
  lemma PostedIsRecorded(eng: Engine, db: Db, body: Match, active: seq<Target>, now: Moment, freshId: string, after: Db)
    requires after == Step(eng, db, Post(body, active, now, freshId))
    ensures freshId !in db.matches ==>
              && freshId in after.matches && after.matches[freshId].id == freshId
              && SameReport(after.matches[freshId], body) && after.matches[freshId].timestamp == Format(now)
              && after.matches[freshId].targetId == FirstClaimant(eng, active, body)
    ensures forall id :: id != freshId ==> (id in after.matches <==> id in db.matches)
    ensures forall id :: id in db.matches ==> id in after.matches && after.matches[id] == db.matches[id]
    ensures after.targets == db.targets
  {
  }

  // ---- Seeding ---------------------------------------------------------------------------------------

  ghost predicate Distinct(ids: seq<string>) { forall i, j :: 0 <= i < j < |ids| ==> ids[i] != ids[j] }

  /** The rows are inserted under their IDs and nothing else is touched. */
  ghost predicate Inserted(db: Db, targets: seq<Target>, now: string, ids: seq<string>, after: Db)
    requires |ids| == |targets|
  {
    && (forall i :: 0 <= i < |ids| ==> ids[i] in after.targets && after.targets[ids[i]] == NewRow(targets[i], now))
    && (forall id :: id in after.targets <==> id in db.targets || id in ids)
    && (forall id :: id in db.targets ==> after.targets[id] == db.targets[id])
    && after.matches == db.matches
  }

  lemma {:induction false} SeededRows(db: Db, targets: seq<Target>, now: string, ids: seq<string>)
    requires |ids| == |targets| && Distinct(ids) && forall i :: 0 <= i < |ids| ==> ids[i] !in db.targets
    ensures Inserted(db, targets, now, ids, Seeded(db, targets, now, ids))
    decreases |targets|
  {
    if targets != [] {
      var next := InsertTarget(db, ids[0], NewRow(targets[0], now)).value;
      SeededRows(next, targets[1..], now, ids[1..]);
      InsertedOneMore(db, targets, now, ids, next, Seeded(next, targets[1..], now, ids[1..]));
    }
  }

  lemma InsertedOneMore(db: Db, targets: seq<Target>, now: string, ids: seq<string>, next: Db, after: Db)
    requires |ids| == |targets| && ids != [] && Distinct(ids) && ids[0] !in db.targets
    requires next == Db(db.targets[ids[0] := NewRow(targets[0], now)], db.matches)
    requires Inserted(next, targets[1..], now, ids[1..], after)
    ensures Inserted(db, targets, now, ids, after)
  {
    forall i | 0 <= i < |ids|
      ensures ids[i] in after.targets && after.targets[ids[i]] == NewRow(targets[i], now)
    {
      if i > 0 { assert ids[i] == ids[1..][i - 1] && targets[i] == targets[1..][i - 1]; }
    }
    assert forall id :: id in ids <==> id == ids[0] || id in ids[1..];
  }

  /** A seed as it is listed: on both sides and, for words, whatever the case. */
  predicate ShowsSeed(t: Target, seed: Target, now: string) {
    && t.active && t.typ == seed.typ && t.pattern == seed.pattern && t.title == seed.title
    && t.matchScope == "both" && t.caseModes == ["insensitive"] && t.createdAt == now
  }

  /** Active, with everything else left to the defaults. */
  predicate PlainSeed(t: Target) {
    t.active && t.typ != "" && t.caseModes == [] && t.matchScope == "" && t.createdAt == ""
  }

  lemma SeedRowShows(seed: Target, now: string, id: string)
    requires PlainSeed(seed)
    ensures NewRow(seed, now).active && ShowsSeed(ReadTarget(id, NewRow(seed, now)), seed, now)
  {
    KnownModesReadBack(["insensitive"]);
  }

  ghost predicate SeedListed(active: seq<Target>, id: string, seed: Target, now: string) {
    exists t :: t in active && t.id == id && ShowsSeed(t, seed, now)
  }

  lemma SeedIsListed(db: Db, targets: seq<Target>, now: string, ids: seq<string>, after: Db, active: seq<Target>,
                     i: nat)
    requires i < |ids| == |targets| && PlainSeed(targets[i])
    requires Inserted(db, targets, now, ids, after) && IsActiveListing(after, active)
    ensures SeedListed(active, ids[i], targets[i], now)
    ensures forall t :: t in active && t.id == ids[i] ==> ShowsSeed(t, targets[i], now)
  {
    SeedRowShows(targets[i], now, ids[i]);
    RowListed(after, active, ids[i]);
  }

  /** On an empty table with unused IDs, each seed is listed under its ID, and nothing else is. */
  lemma SeedsAreListed(targets: seq<Target>, now: string, ids: seq<string>, matches: map<string, Match>,
                       active: seq<Target>)
    requires |ids| == |targets| && Distinct(ids) && forall i :: 0 <= i < |targets| ==> PlainSeed(targets[i])
    requires IsActiveListing(Seeded(Db(map[], matches), targets, now, ids), active)
    ensures forall i :: 0 <= i < |ids| ==> SeedListed(active, ids[i], targets[i], now)
    ensures forall t :: t in active ==> exists i :: 0 <= i < |ids| && t.id == ids[i] && ShowsSeed(t, targets[i], now)
  {
    var after := Seeded(Db(map[], matches), targets, now, ids);
    SeededRows(Db(map[], matches), targets, now, ids);
    forall i | 0 <= i < |ids|
      ensures SeedListed(active, ids[i], targets[i], now)
      ensures forall t :: t in active && t.id == ids[i] ==> ShowsSeed(t, targets[i], now)
    {
      SeedIsListed(Db(map[], matches), targets, now, ids, after, active, i);
    }
    assert forall t :: t in active ==> t.id in ids;
  }

  /** A start on an empty table, with unused IDs, lists the regular expression of the flag, or
      else that of the environment. */
  lemma SeededRegexIsListed(flagPattern: string, envPattern: string, now: string, ids: seq<string>,
                            matches: map<string, Match>, active: seq<Target>)
    requires |ids| == |SeedTargets(flagPattern, envPattern)| && Distinct(ids)
    requires IsActiveListing(Seeded(Db(map[], matches), SeedTargets(flagPattern, envPattern), now, ids), active)
    requires flagPattern != "" || envPattern != ""
    ensures active != []
    ensures forall t :: t in active ==>
              && t.typ == "regex" && t.pattern == (if flagPattern != "" then flagPattern else envPattern)
              && t.title == "Default"
              && t.matchScope == "both" && t.createdAt == now
  {
    var targets := SeedTargets(flagPattern, envPattern);
    SeedsAreListed(targets, now, ids, matches, active);
    assert SeedListed(active, ids[0], targets[0], now);
  }

  /** With neither given it lists exactly the default words, on both sides and whatever the case. */
  lemma SeededWordsAreListed(now: string, ids: seq<string>, matches: map<string, Match>, active: seq<Target>)
    requires |ids| == |SeedTargets("", "")| && Distinct(ids)
    requires IsActiveListing(Seeded(Db(map[], matches), SeedTargets("", ""), now, ids), active)
    ensures forall t :: t in active ==>
              && t.typ == "word" && t.pattern in DEFAULT_WORDS && t.title == t.pattern
              && t.matchScope == "both" && t.caseModes == ["insensitive"] && t.createdAt == now
    ensures forall w :: w in DEFAULT_WORDS ==> exists t :: t in active && t.pattern == w
  {
    var targets := SeedTargets("", "");
    SeedsAreListed(targets, now, ids, matches, active);
    forall w | w in DEFAULT_WORDS
      ensures exists t :: t in active && t.pattern == w
    {
      var i :| 0 <= i < |DEFAULT_WORDS| && DEFAULT_WORDS[i] == w;
      assert SeedListed(active, ids[i], targets[i], now);
    }
    forall t | t in active
      ensures t.pattern in DEFAULT_WORDS
    {
      var i :| 0 <= i < |ids| && t.id == ids[i] && ShowsSeed(t, targets[i], now);
      assert t.pattern == DEFAULT_WORDS[i];
    }
  }
}
