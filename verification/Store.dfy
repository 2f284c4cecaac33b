/** The tables of targets and matches, each statement atomic. */
module Store {
  import opened Basics
  import opened Model
  import opened Rfc3339
  import opened CaseModes

  /** A row of the targets table; the case modes are one joined column. */
  datatype TargetRow = TargetRow(
    typ: string, pattern: string, title: string, active: bool, caseModes: string, matchScope: string,
    createdAt: string)

  datatype Db = Db(targets: map<string, TargetRow>, matches: map<string, Match>)

  /** What scanning a row gives. */
  function ReadTarget(id: string, row: TargetRow): Target {
    Target(id, row.typ, row.pattern, row.title, row.active, SplitCaseModes(row.caseModes), row.matchScope,
           row.createdAt)
  }

  /** The defaults CreateTarget applies, and the row it inserts. */
  function NewRow(t: Target, now: string): TargetRow {
    TargetRow(if t.typ == "" then "regex" else t.typ, t.pattern, t.title, t.active,
              JoinCaseModes(if t.caseModes == [] then ["insensitive"] else t.caseModes),
              if t.matchScope == "" then "both" else t.matchScope,
              if t.createdAt == "" then now else t.createdAt)
  }

  /** The row UpdateTarget leaves; no defaults, and the creation time stays. */
  function UpdatedRow(t: Target, row: TargetRow): TargetRow {
    TargetRow(t.typ, t.pattern, t.title, t.active, JoinCaseModes(t.caseModes), t.matchScope, row.createdAt)
  }

  /** INSERT of a target; a taken ID is an error and changes nothing. */
  function InsertTarget(db: Db, id: string, row: TargetRow): Option<Db> {
    if id in db.targets then None else Some(db.(targets := db.targets[id := row]))
  }

  function InsertMatch(db: Db, m: Match): Option<Db> {
    if m.id in db.matches then None else Some(db.(matches := db.matches[m.id := m]))
  }

  function MatchesOf(db: Db, targetId: string): set<string> {
    set id | id in db.matches && db.matches[id].targetId == targetId
  }

  /** The two statements of the delete transaction. */
  function Deleted(db: Db, id: string): Db {
    Db(db.targets - {id}, db.matches - MatchesOf(db, id))
  }

  /** `list` is a possible answer of ListActiveTargets: the active rows, newest first by the
      text of their creation time, ties in any order. */
  ghost predicate IsActiveListing(db: Db, list: seq<Target>) {
    && (forall i, j :: 0 <= i < j < |list| ==> list[i].id != list[j].id)
    && (forall t :: t in list ==>
          t.id in db.targets && db.targets[t.id].active && t == ReadTarget(t.id, db.targets[t.id]))
    && (forall id :: id in db.targets && db.targets[id].active ==> ReadTarget(id, db.targets[id]) in list)
    && NewestFirst(list)
  }

  /** Every match is unattributed or names an existing target. */
  ghost predicate Integrity(db: Db) {
    forall id :: id in db.matches ==> db.matches[id].targetId == "" || db.matches[id].targetId in db.targets
  }

  ghost predicate NewestFirst(list: seq<Target>) {
    forall i, j :: 0 <= i < j < |list| ==> !Less(list[i].createdAt, list[j].createdAt)
  }

  /** The first position whose entry is older. */
  method PlaceFor(createdAt: string, list: seq<Target>) returns (at: nat)
    ensures at <= |list|
    ensures forall i :: 0 <= i < at ==> !Less(list[i].createdAt, createdAt)
    ensures at < |list| ==> Less(list[at].createdAt, createdAt)
  {
    at := 0;
    while at < |list| && !Less(list[at].createdAt, createdAt)
      invariant at <= |list|
      invariant forall i :: 0 <= i < at ==> !Less(list[i].createdAt, createdAt)
    {
      at := at + 1;
    }
  }

  lemma PlacedNewestFirst(list: seq<Target>, t: Target, at: nat)
    requires NewestFirst(list) && at <= |list|
    requires forall i :: 0 <= i < at ==> !Less(list[i].createdAt, t.createdAt)
    requires at < |list| ==> Less(list[at].createdAt, t.createdAt)
    ensures NewestFirst(list[..at] + [t] + list[at..])
  {
    forall j | at <= j < |list|
      ensures !Less(t.createdAt, list[j].createdAt)
    {
      LessTotal(t.createdAt, list[at].createdAt);
      if Less(t.createdAt, list[j].createdAt) {
        LessTransitive(list[at].createdAt, t.createdAt, list[j].createdAt);
      }
    }
  }

  /** One more active row, put in its place, keeps the listing. */
  lemma ListingGrows(db: Db, list: seq<Target>, after: Db, t: Target, at: nat)
    requires IsActiveListing(db, list) && at <= |list|
    requires t.id !in db.targets && after.targets.Keys == db.targets.Keys + {t.id}
    requires forall id :: id in db.targets ==> after.targets[id] == db.targets[id]
    requires after.targets[t.id].active && t == ReadTarget(t.id, after.targets[t.id])
    requires forall i :: 0 <= i < at ==> !Less(list[i].createdAt, t.createdAt)
    requires at < |list| ==> Less(list[at].createdAt, t.createdAt)
    ensures IsActiveListing(after, list[..at] + [t] + list[at..])
  {
    PlacedNewestFirst(list, t, at);
    PlacedMembers(list, t, at);
    PlacedDistinct(list, t, at);
  }

  lemma PlacedMembers(list: seq<Target>, t: Target, at: nat)
    requires at <= |list|
    ensures forall x :: x in list[..at] + [t] + list[at..] <==> x in list || x == t
  {
    assert list == list[..at] + list[at..];
  }

  lemma PlacedDistinct(list: seq<Target>, t: Target, at: nat)
    requires at <= |list|
    requires forall i, j :: 0 <= i < j < |list| ==> list[i].id != list[j].id
    requires forall x :: x in list ==> x.id != t.id
    ensures var grown := list[..at] + [t] + list[at..];
            forall i, j :: 0 <= i < j < |grown| ==> grown[i].id != grown[j].id
  {
    assert forall i :: 0 <= i < |list| ==> list[i] in list;
  }

  class Tables {
    var targets: map<string, TargetRow>
    var matches: map<string, Match>

    constructor ()
      ensures Contents() == Db(map[], map[])
    {
      targets, matches := map[], map[];
    }

    ghost function Contents(): Db
      reads this
    {
      Db(targets, matches)
    }

    /** CreateTarget fills defaults into the target it is given and inserts it; `now` is the
        clock's reading as it is written. */
    method CreateTarget(given: Target, now: string, freshId: string) returns (ok: bool, t: Target)
      modifies this
      ensures t.id == if given.id == "" then freshId else given.id
      ensures ok <==> t.id !in old(targets)
      ensures ok ==> Contents() == InsertTarget(old(Contents()), t.id, NewRow(given, now)).value
      ensures ok ==>
                && targets[t.id].pattern == given.pattern && targets[t.id].title == given.title
                && targets[t.id].active == given.active
                && targets[t.id].typ == (if given.typ == "" then "regex" else given.typ)
                && targets[t.id].matchScope == (if given.matchScope == "" then "both" else given.matchScope)
                && targets[t.id].createdAt == if given.createdAt == "" then now else given.createdAt
      ensures !ok ==> Contents() == old(Contents())
    {
      t := given;
      if t.id == "" {
        t := t.(id := freshId);
      }
      if t.typ == "" {
        t := t.(typ := "regex");
      }
      if |t.caseModes| == 0 {
        t := t.(caseModes := ["insensitive"]);
      }
      if t.matchScope == "" {
        t := t.(matchScope := "both");
      }
      if t.createdAt == "" {
        t := t.(createdAt := now);
      }
      ok := t.id !in targets;
      if ok {
        targets := targets[t.id := TargetRow(t.typ, t.pattern, t.title, t.active, JoinCaseModes(t.caseModes),
                                             t.matchScope, t.createdAt)];
      }
    }

    method UpdateTarget(t: Target)
      modifies this`targets
      ensures Contents()
           == if t.id in old(targets)
              then old(Contents()).(targets := old(targets)[t.id := UpdatedRow(t, old(targets)[t.id])])
              else old(Contents())
    {
      if t.id in targets {
        var row := targets[t.id].(typ := t.typ, pattern := t.pattern, title := t.title, active := t.active,
                                  caseModes := JoinCaseModes(t.caseModes), matchScope := t.matchScope);
        targets := targets[t.id := row];
      }
    }

    /** DeleteTarget: both deletions commit together. */
    method DeleteTarget(id: string) returns (matchesDeleted: nat, targetDeleted: bool)
      modifies this
      ensures Contents() == Deleted(old(Contents()), id)
      ensures matchesDeleted == |MatchesOf(old(Contents()), id)|
      ensures targetDeleted <==> id in old(targets)
    {
      var doomed := set m | m in matches && matches[m].targetId == id;
      assert doomed == MatchesOf(Contents(), id);
      matches := matches - doomed;
      matchesDeleted := |doomed|;
      targetDeleted := id in targets;
      targets := targets - {id};
    }

    /** ListActiveTargets: the rows that are active, each put behind those not older. */
    method ListActiveTargets() returns (list: seq<Target>)
      ensures IsActiveListing(Contents(), list)
    {
      list := [];
      var todo := targets.Keys;
      while todo != {}
        invariant todo <= targets.Keys
        invariant IsActiveListing(Db(targets - todo, matches), list)
      {
        var id :| id in todo;
        ghost var seen := targets - todo;
        todo := todo - {id};
        assert targets - todo == seen[id := targets[id]];
        if targets[id].active {
          var row := ReadTarget(id, targets[id]);
          var at := PlaceFor(row.createdAt, list);
          ListingGrows(Db(seen, matches), list, Db(targets - todo, matches), row, at);
          list := list[..at] + [row] + list[at..];
        }
      }
      assert targets - todo == targets;
    }

    /** RecordMatch: an empty ID or timestamp is filled in before the insert. */
    method RecordMatch(given: Match, now: string, freshId: string) returns (ok: bool, m: Match)
      modifies this`matches
      ensures m == given.(id := if given.id == "" then freshId else given.id,
                          timestamp := if given.timestamp == "" then now else given.timestamp)
      ensures ok <==> m.id !in old(matches)
      ensures ok ==> Contents() == InsertMatch(old(Contents()), m).value
      ensures !ok ==> Contents() == old(Contents())
    {
      m := given;
      if m.id == "" {
        m := m.(id := freshId);
      }
      if m.timestamp == "" {
        m := m.(timestamp := now);
      }
      ok := m.id !in matches;
      if ok {
        matches := matches[m.id := m];
      }
    }
  }

  // ---- Deletion and integrity -----------------------------------------------------------------

  /** Deleting removes exactly the target and its matches, and the count is what disappeared. */
  lemma DeletedExactly(db: Db, id: string)
    ensures var after := Deleted(db, id);
            && (forall t :: t in after.targets <==> t in db.targets && t != id)
            && (forall m :: m in after.matches <==> m in db.matches && db.matches[m].targetId != id)
            && (forall t :: t in after.targets ==> after.targets[t] == db.targets[t])
            && (forall m :: m in after.matches ==> after.matches[m] == db.matches[m])
            && |MatchesOf(db, id)| == |db.matches| - |after.matches|
            && (Integrity(db) ==> Integrity(after))
  {
    DeletedCount(db, id);
  }

  lemma DeletedCount(db: Db, id: string)
    ensures |MatchesOf(db, id)| == |db.matches| - |Deleted(db, id).matches|
  {
    var after := Deleted(db, id);
    assert db.matches.Keys == after.matches.Keys + MatchesOf(db, id);
    assert |db.matches| == |db.matches.Keys| && |after.matches| == |after.matches.Keys|;
  }

  /** Under integrity, deleting a missing target changes nothing, exactly unless it is the
      empty ID and unattributed matches exist. */
  lemma NotFoundChangesNothing(db: Db, id: string)
    requires Integrity(db) && id !in db.targets
    ensures Deleted(db, id) == db <==> id != "" || MatchesOf(db, "") == {}
  {
    var after := Deleted(db, id);
    assert after.targets == db.targets;
    if id != "" || MatchesOf(db, "") == {} {
      assert MatchesOf(db, id) == {};
      assert after.matches == db.matches;
    } else {
      var m :| m in MatchesOf(db, "");
      assert m in db.matches && m !in after.matches;
    }
  }

  /** Recording a match keeps integrity exactly when its target is empty or still there. */
  lemma RecordKeepsIntegrityExactly(db: Db, m: Match)
    requires Integrity(db) && InsertMatch(db, m).Some?
    ensures Integrity(InsertMatch(db, m).value) <==> m.targetId == "" || m.targetId in db.targets
  {
    var after := InsertMatch(db, m).value;
    assert after.matches[m.id] == m;
  }

  /** The race between listing and recording: when a delete of the attributed target falls in
      between, the recorded match names a target that is gone. */
  lemma DeleteBetweenListAndRecord(db: Db, t: string, m: Match)
    requires Integrity(db) && t in db.targets && t != "" && m.targetId == t && m.id !in db.matches
    ensures InsertMatch(Deleted(db, t), m).Some? && !Integrity(InsertMatch(Deleted(db, t), m).value)
  {
    DeletedExactly(db, t);
    RecordKeepsIntegrityExactly(Deleted(db, t), m);
  }
}
