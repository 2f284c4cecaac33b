/** What the client table says about a client after any run of upserts and reaper steps. */
module FleetLifecycle {
  import opened Rfc3339
  import opened Fleet

  /** Rounding never makes a reading at most 90 seconds old look older than 90 seconds. */
  lemma RoundingIsSafe(seen: int, now: int)
    requires now - seen <= 90_000_000_000
    ensures Second(now) - Second(seen) <= 90
  {
  }

  // ---- The lifecycle, from the events alone ---------------------------------------------------------

  /** Event `j` is the latest upsert of client `id`. */
  ghost predicate LatestSeen(events: seq<Event>, id: string, j: nat) {
    && j < |events| && events[j].Seen? && events[j].c.id == id
    && forall i :: j < i < |events| && events[i].Seen? ==> events[i].c.id != id
  }

  /** Marking `k` comes after upsert `j`, when the upsert is more than 90 seconds old. */
  ghost predicate StaleMark(events: seq<Event>, j: nat, k: nat) {
    && j < k < |events| && events[j].Seen? && events[k].Mark?
    && Second(events[k].now) - Second(events[j].now) > 90
  }

  /** Some marking after upsert `j` found it more than 90 seconds old. */
  ghost predicate WentStale(events: seq<Event>, j: nat) {
    exists k: nat :: StaleMark(events, j, k)
  }

  /** A deletion after such a marking, when the upsert is more than 300 seconds old. */
  ghost predicate StaleDelete(events: seq<Event>, j: nat, k: nat, l: nat) {
    && StaleMark(events, j, k) && k < l < |events| && events[l].Purge?
    && Second(events[l].now) - Second(events[j].now) > 300
  }

  ghost predicate WasDeleted(events: seq<Event>, j: nat) {
    exists k: nat, l: nat :: StaleDelete(events, j, k, l)
  }

  /** Handlers only ever write the status "active". */
  ghost predicate HandlerEvents(events: seq<Event>) {
    forall i :: 0 <= i < |events| && events[i].Seen? ==> events[i].c.status == "active"
  }

  lemma WentStaleSnoc(init: seq<Event>, last: Event, j: nat)
    requires j < |init| && init[j].Seen?
    ensures WentStale(init + [last], j)
       <==> WentStale(init, j) || (last.Mark? && Second(last.now) - Second(init[j].now) > 90)
  {
    var events := init + [last];
    if k: nat :| StaleMark(init, j, k) { assert StaleMark(events, j, k); }
    if last.Mark? && Second(last.now) - Second(init[j].now) > 90 { assert StaleMark(events, j, |init|); }
    if k: nat :| StaleMark(events, j, k) { assert k < |init| ==> StaleMark(init, j, k); }
  }

  lemma WasDeletedSnoc(init: seq<Event>, last: Event, j: nat)
    requires j < |init| && init[j].Seen?
    ensures WasDeleted(init + [last], j)
       <==> WasDeleted(init, j)
            || (WentStale(init, j) && last.Purge? && Second(last.now) - Second(init[j].now) > 300)
  {
    var events := init + [last];
    if k: nat, l: nat :| StaleDelete(init, j, k, l) {
      assert StaleMark(events, j, k);
      assert StaleDelete(events, j, k, l);
    }
    if k: nat :| StaleMark(init, j, k) {
      assert StaleMark(events, j, k);
      if last.Purge? && Second(last.now) - Second(init[j].now) > 300 { assert StaleDelete(events, j, k, |init|); }
    }
    if k: nat, l: nat :| StaleDelete(events, j, k, l) {
      assert StaleMark(init, j, k);
      assert l < |init| ==> StaleDelete(init, j, k, l);
    }
  }

  /** The whole lifecycle of a client, exactly: it is listed unless a deletion caught it more
      than 300 seconds after its latest upsert and after a marking; while listed it shows the
      time of that upsert and what the client told then, and is offline exactly when a marking
      caught it more than 90 seconds after it. */
  lemma {:induction false} ClientLifecycle(events: seq<Event>, id: string, j: nat)
    requires LatestSeen(events, id, j) && HandlerEvents(events)
    ensures id in After(events) <==> !WasDeleted(events, j)
    ensures id in After(events) ==>
              && After(events)[id].lastSeen == Format(events[j].now)
              && After(events)[id].status == if WentStale(events, j) then "offline" else "active"
    ensures id in After(events) ==>
              && After(events)[id].hostname == events[j].c.hostname
              && After(events)[id].version == events[j].c.version
              && After(events)[id].seekers == events[j].c.seekers
              && After(events)[id].keyRate == events[j].c.keyRate
              && After(events)[id].keyCount == events[j].c.keyCount
  {
    var init, last := events[..|events| - 1], events[|events| - 1];
    assert events == init + [last];
    if j == |init| {
      assert !WentStale(events, j) && !WasDeleted(events, j);
    } else {
      assert LatestSeen(init, id, j);
      ClientLifecycle(init, id, j);
      WentStaleSnoc(init, last, j);
      WasDeletedSnoc(init, last, j);
      if !last.Seen? { CutoffMeaning(events[j].now, last.now); }
    }
  }

  /** A client that never upserted is not listed. */
  lemma {:induction false} NeverSeenNotListed(events: seq<Event>, id: string)
    requires forall i :: 0 <= i < |events| && events[i].Seen? ==> events[i].c.id != id
    ensures id !in After(events)
  {
    if events != [] {
      NeverSeenNotListed(events[..|events| - 1], id);
    }
  }

  // ---- Consequences --------------------------------------------------------------------------------

  lemma {:induction false} FindLatestSeen(events: seq<Event>, id: string) returns (j: nat)
    requires exists i :: 0 <= i < |events| && events[i].Seen? && events[i].c.id == id
    ensures LatestSeen(events, id, j)
  {
    var init, last := events[..|events| - 1], events[|events| - 1];
    if last.Seen? && last.c.id == id {
      j := |init|;
    } else {
      assert forall i :: 0 <= i < |init| ==> init[i] == events[i];
      j := FindLatestSeen(init, id);
    }
  }

  ghost predicate MonotoneClock(events: seq<Event>) {
    forall i, k :: 0 <= i < k < |events| ==> events[i].now <= events[k].now
  }

  predicate UpsertOf(events: seq<Event>, id: string, i: nat) {
    i < |events| && events[i].Seen? && events[i].c.id == id
  }

  /** At event `k` some upsert of the client is at most 90 seconds old. */
  ghost predicate FreshAt(events: seq<Event>, id: string, k: nat) {
    exists i: nat :: i < k < |events| && UpsertOf(events, id, i) && events[k].now - events[i].now <= 90_000_000_000
  }

  /** Whenever the reaper marks after an upsert of the client, some upsert is at most 90 seconds old. */
  ghost predicate KeptAlive(events: seq<Event>, id: string) {
    forall k: nat, first: nat ::
      first < k < |events| && events[k].Mark? && UpsertOf(events, id, first) ==> FreshAt(events, id, k)
  }

  /** On a monotone clock, a client kept alive is listed as active after every run,
      whatever the reaper and other clients do in between. */
  lemma KeptAliveIsActive(events: seq<Event>, id: string)
    requires HandlerEvents(events) && MonotoneClock(events) && KeptAlive(events, id)
    requires exists i :: 0 <= i < |events| && events[i].Seen? && events[i].c.id == id
    ensures id in After(events) && After(events)[id].status == "active"
  {
    var j := FindLatestSeen(events, id);
    ClientLifecycle(events, id, j);
    KeptAliveNeverStale(events, id, j);
    assert forall k: nat, l: nat :: StaleDelete(events, j, k, l) ==> StaleMark(events, j, k);
  }

  /** Upsert `j` of the client is the next after its upsert `i`. */
  ghost predicate NextUpsert(events: seq<Event>, id: string, i: nat, j: nat) {
    && i < j && UpsertOf(events, id, i) && UpsertOf(events, id, j)
    && forall k: nat :: i < k < j ==> !UpsertOf(events, id, k)
  }

  /** The client upserts at least every 90 seconds, and its next upsert is not overdue. */
  ghost predicate PunctualUpserts(events: seq<Event>, id: string) {
    && (forall i: nat, j: nat :: NextUpsert(events, id, i, j) ==> events[j].now - events[i].now <= 90_000_000_000)
    && (forall i: nat, k: nat :: LatestSeen(events, id, i) && i <= k < |events| ==>
          events[k].now - events[i].now <= 90_000_000_000)
  }

  /** The first upsert of the client from `from` on, if there is one. */
  lemma {:induction false} FindUpsert(events: seq<Event>, id: string, from: nat) returns (j: nat)
    requires from <= |events|
    ensures from <= j <= |events| && (j < |events| ==> UpsertOf(events, id, j))
    ensures forall k: nat :: from <= k < j ==> !UpsertOf(events, id, k)
    decreases |events| - from
  {
    if from == |events| || UpsertOf(events, id, from) {
      j := from;
    } else {
      j := FindUpsert(events, id, from + 1);
    }
  }

  /** The last upsert of the client before `k`. */
  lemma {:induction false} FindUpsertBefore(events: seq<Event>, id: string, k: nat, first: nat) returns (i: nat)
    requires first < k <= |events| && UpsertOf(events, id, first)
    ensures i < k && UpsertOf(events, id, i)
    ensures forall m: nat :: i < m < k ==> !UpsertOf(events, id, m)
    decreases k
  {
    if UpsertOf(events, id, k - 1) {
      i := k - 1;
    } else {
      i := FindUpsertBefore(events, id, k - 1, first);
    }
  }

  /** Between a punctual client's upsert `i` and the next one, the upsert is never over 90 seconds old. */
  lemma PunctualIsFresh(events: seq<Event>, id: string, i: nat, k: nat)
    requires MonotoneClock(events) && PunctualUpserts(events, id)
    requires i < k < |events| && UpsertOf(events, id, i) && forall m: nat :: i < m <= k ==> !UpsertOf(events, id, m)
    ensures events[k].now - events[i].now <= 90_000_000_000
  {
    var j := FindUpsert(events, id, i + 1);
    if j < |events| {
      assert NextUpsert(events, id, i, j);
      assert events[k].now <= events[j].now;
    } else {
      assert forall m: nat :: i < m < |events| ==> !UpsertOf(events, id, m);
      LastIsLatest(events, id, i);
    }
  }

  lemma LastIsLatest(events: seq<Event>, id: string, i: nat)
    requires UpsertOf(events, id, i) && forall m: nat :: i < m < |events| ==> !UpsertOf(events, id, m)
    ensures LatestSeen(events, id, i)
  {
    forall m | i < m < |events| && events[m].Seen?
      ensures events[m].c.id != id
    {
      assert !UpsertOf(events, id, m);
    }
  }

  lemma PunctualIsFreshAt(events: seq<Event>, id: string, k: nat, first: nat)
    requires MonotoneClock(events) && PunctualUpserts(events, id)
    requires first < k < |events| && events[k].Mark? && UpsertOf(events, id, first)
    ensures FreshAt(events, id, k)
  {
    var i := FindUpsertBefore(events, id, k, first);
    assert !UpsertOf(events, id, k);
    PunctualIsFresh(events, id, i, k);
  }

  lemma PunctualIsKeptAlive(events: seq<Event>, id: string)
    requires MonotoneClock(events) && PunctualUpserts(events, id)
    ensures KeptAlive(events, id)
  {
    forall k: nat, first: nat | first < k < |events| && events[k].Mark? && UpsertOf(events, id, first)
      ensures FreshAt(events, id, k)
    {
      PunctualIsFreshAt(events, id, k, first);
    }
  }

  /** On a monotone clock, a client that upserts at least every 90 seconds is listed as active
      after every run, whatever the reaper and other clients do in between. */
  lemma PunctualClientIsActive(events: seq<Event>, id: string)
    requires HandlerEvents(events) && MonotoneClock(events) && PunctualUpserts(events, id)
    requires exists i :: 0 <= i < |events| && events[i].Seen? && events[i].c.id == id
    ensures id in After(events) && After(events)[id].status == "active"
  {
    PunctualIsKeptAlive(events, id);
    KeptAliveIsActive(events, id);
  }

  lemma KeptAliveNeverStale(events: seq<Event>, id: string, j: nat)
    requires MonotoneClock(events) && KeptAlive(events, id) && LatestSeen(events, id, j)
    ensures !WentStale(events, j)
  {
    forall k: nat
      ensures !StaleMark(events, j, k)
    {
      if j < k < |events| && events[k].Mark? {
        assert UpsertOf(events, id, j);
        var i: nat :| i < k < |events| && UpsertOf(events, id, i) && events[k].now - events[i].now <= 90_000_000_000;
        assert i < j ==> events[i].now <= events[j].now;
        RoundingIsSafe(events[j].now, events[k].now);
      }
    }
  }

  /** A row whose time is at most 90 seconds before the marking's clock reading keeps its status. */
  lemma FreshRowNotMarked(rows: Rows, id: string, seen: Instant, now: Instant)
    requires SeenAt(rows, id, seen) && now - seen <= 90_000_000_000
    ensures id in Step(rows, Mark(now)) && Step(rows, Mark(now))[id] == rows[id]
  {
    MarkedRow(rows, now, id, seen);
    RoundingIsSafe(seen, now);
  }

  /** More than 300 seconds old at one reading is more than 90 old at a reading 10 seconds before. */
  lemma LongGone(seen: int, first: int, second: int)
    requires second <= first + 10_000_000_000 && Second(second) - Second(seen) > 300
    ensures Second(first) - Second(seen) > 90
  {
  }

  /** After a tick with nothing in between, its two clock readings at most 10 seconds apart:
      exactly the rows more than 300 seconds old at the second reading are gone, and every
      row more than 90 seconds old at the first is offline; the others are untouched. */
  lemma TickExactly(rows: Rows, id: string, seen: Instant, first: Instant, second: Instant)
    requires SeenAt(rows, id, seen)
    requires second <= first + 10_000_000_000
    ensures var after := Step(Step(rows, Mark(first)), Purge(second));
            && (id in after <==> Second(second) - Second(seen) <= 300)
            && (id in after ==>
                  after[id] == if Second(first) - Second(seen) > 90 then rows[id].(status := "offline") else rows[id])
  {
    TickedRow(rows, first, second, id, seen);
    if Second(second) - Second(seen) > 300 { LongGone(seen, first, second); }
  }

  /** Deletion only ever removes offline rows. */
  lemma ActiveRowNotDeleted(rows: Rows, id: string, now: Instant)
    requires id in rows && rows[id].status != "offline"
    ensures id in Step(rows, Purge(now)) && Step(rows, Purge(now))[id] == rows[id]
  {
  }
}
