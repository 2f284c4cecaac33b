/** The client table: upserts by register and heartbeat, and the reaper that marks stale
    clients offline and later deletes them, all by comparing RFC 3339 strings. */
module Fleet {
  import opened Basics
  import opened Rfc3339

  const OFFLINE_AFTER := 90_000_000_000
  const DELETE_AFTER := 300_000_000_000

  /** A server clock reading in Unix nanoseconds; it and both reaper cutoffs have four-digit years. */
  type Instant = ns: int |
    Representable(ns) && Representable(ns - OFFLINE_AFTER) && Representable(ns - DELETE_AFTER)
    witness EPOCH

  const EPOCH := 0

  datatype ClientInfo = ClientInfo(
    id: string, hostname: string, version: string, seekers: int, keyRate: real, keyCount: int, status: string)

  datatype ClientRow = ClientRow(
    hostname: string, version: string, seekers: int, keyRate: real, keyCount: int, lastSeen: string, status: string)

  type Rows = map<string, ClientRow>

  datatype RegisterRequest = RegisterRequest(clientId: string, hostname: string, version: string, seekers: int)

  datatype Heartbeat = Heartbeat(
    clientId: string, hostname: string, version: string, seekers: int, keyRate: real, keyCount: int)

  /** The time an upsert records: the given one, else the clock's. */
  function SeenTime(lastSeen: Option<Instant>, now: Instant): Instant {
    match lastSeen
    case Some(at) => at
    case None => now
  }

  function RowOf(c: ClientInfo, lastSeen: Instant): ClientRow {
    ClientRow(c.hostname, c.version, c.seekers, c.keyRate, c.keyCount, Format(lastSeen), c.status)
  }

  /** UPDATE clients SET status = 'offline' WHERE last_seen < cutoff AND status != 'offline'. */
  function Marked(rows: Rows, cutoff: string): Rows {
    map id | id in rows ::
      if Less(rows[id].lastSeen, cutoff) && rows[id].status != "offline" then rows[id].(status := "offline")
      else rows[id]
  }

  /** DELETE FROM clients WHERE status = 'offline' AND last_seen < cutoff. */
  function Purged(rows: Rows, cutoff: string): Rows {
    map id | id in rows && !(rows[id].status == "offline" && Less(rows[id].lastSeen, cutoff)) :: rows[id]
  }

  // ---- Runs ----------------------------------------------------------------------------------

  /** One atomic change of the table, with the clock reading it used. */
  datatype Event =
    | Seen(c: ClientInfo, now: Instant)
    | Mark(now: Instant)
    | Purge(now: Instant)

  function Before(now: Instant, threshold: int): string
    requires threshold == OFFLINE_AFTER || threshold == DELETE_AFTER
  {
    Format(now - threshold)
  }

  function Step(rows: Rows, e: Event): Rows {
    match e
    case Seen(c, now) => rows[c.id := RowOf(c, now)]
    case Mark(now) => Marked(rows, Before(now, OFFLINE_AFTER))
    case Purge(now) => Purged(rows, Before(now, DELETE_AFTER))
  }

  function After(events: seq<Event>): Rows {
    if events == [] then map[] else Step(After(events[..|events| - 1]), events[|events| - 1])
  }

  // ---- The comparison the reaper makes ------------------------------------------------------------

  lemma WholeSeconds(now: int, secs: int)
    ensures Second(now - 1_000_000_000 * secs) == Second(now) - secs
  {
  }

  lemma OlderThan(seen: int, now: int, secs: int)
    requires Representable(seen) && Representable(now - 1_000_000_000 * secs)
    ensures Less(Format(seen), Format(now - 1_000_000_000 * secs)) <==> Second(now) - Second(seen) > secs
  {
    var cutoff := now - 1_000_000_000 * secs;
    assert Second(cutoff) == Second(now) - secs by { WholeSeconds(now, secs); }
    StringOrderIsTimeOrder(seen, cutoff);
  }

  /** A time is before the cutoff exactly when more than `threshold` whole seconds have passed,
      both readings rounded down to the second. */
  lemma CutoffMeaning(seen: Instant, now: Instant)
    ensures Less(Format(seen), Before(now, OFFLINE_AFTER)) <==> Second(now) - Second(seen) > 90
    ensures Less(Format(seen), Before(now, DELETE_AFTER)) <==> Second(now) - Second(seen) > 300
  {
    OlderThan(seen, now, 90);
    OlderThan(seen, now, 300);
  }

  /** The row of client `id` was last seen at `seen`. */
  predicate SeenAt(rows: Rows, id: string, seen: Instant) {
    id in rows && rows[id].lastSeen == Format(seen)
  }

  /** What marking does to a row last seen at `seen`. */
  lemma MarkedRow(rows: Rows, now: Instant, id: string, seen: Instant)
    requires SeenAt(rows, id, seen)
    ensures id in Step(rows, Mark(now))
    ensures Step(rows, Mark(now))[id]
         == if Second(now) - Second(seen) > 90 then rows[id].(status := "offline") else rows[id]
  {
    CutoffMeaning(seen, now);
  }

  /** What deletion does to a row last seen at `seen`. */
  lemma PurgedRow(rows: Rows, now: Instant, id: string, seen: Instant)
    requires SeenAt(rows, id, seen)
    ensures id in Step(rows, Purge(now)) <==> rows[id].status != "offline" || Second(now) - Second(seen) <= 300
    ensures id in Step(rows, Purge(now)) ==> Step(rows, Purge(now))[id] == rows[id]
  {
    CutoffMeaning(seen, now);
  }

  /** What a tick with nothing in between does to a row last seen at `seen`. */
  lemma TickedRow(rows: Rows, first: Instant, second: Instant, id: string, seen: Instant)
    requires SeenAt(rows, id, seen)
    ensures var after := Step(Step(rows, Mark(first)), Purge(second));
            && (id !in after <==> && Second(second) - Second(seen) > 300
                                  && (rows[id].status == "offline" || Second(first) - Second(seen) > 90))
            && (id in after ==> after[id] == if Second(first) - Second(seen) > 90 then rows[id].(status := "offline")
                                             else rows[id])
  {
    MarkedRow(rows, first, id, seen);
    PurgedRow(Step(rows, Mark(first)), second, id, seen);
  }

  lemma MarkedRows(rows: Rows, now: Instant, after: Rows)
    requires after == Step(rows, Mark(now))
    ensures after.Keys == rows.Keys
    ensures forall id, seen: Instant :: SeenAt(rows, id, seen) ==>
              after[id] == if Second(now) - Second(seen) > 90 then rows[id].(status := "offline") else rows[id]
  {
    forall id, seen: Instant | SeenAt(rows, id, seen) {
      MarkedRow(rows, now, id, seen);
    }
  }

  lemma PurgedRows(rows: Rows, now: Instant, after: Rows)
    requires after == Step(rows, Purge(now))
    ensures after.Keys <= rows.Keys && forall id :: id in after ==> after[id] == rows[id]
    ensures forall id, seen: Instant :: SeenAt(rows, id, seen) ==>
              (id !in after <==> rows[id].status == "offline" && Second(now) - Second(seen) > 300)
  {
    forall id, seen: Instant | SeenAt(rows, id, seen) {
      PurgedRow(rows, now, id, seen);
    }
  }

  lemma TickedRows(rows: Rows, first: Instant, second: Instant, after: Rows)
    requires after == Step(Step(rows, Mark(first)), Purge(second))
    ensures forall id, seen: Instant :: SeenAt(rows, id, seen) ==>
              (id !in after <==> && Second(second) - Second(seen) > 300
                                 && (rows[id].status == "offline" || Second(first) - Second(seen) > 90))
    ensures forall id, seen: Instant :: SeenAt(rows, id, seen) && id in after ==>
              after[id] == if Second(first) - Second(seen) > 90 then rows[id].(status := "offline") else rows[id]
  {
    forall id, seen: Instant | SeenAt(rows, id, seen) {
      TickedRow(rows, first, second, id, seen);
    }
  }

  // ---- The table object -------------------------------------------------------------------------

  class ClientTable {
    var rows: Rows

    constructor ()
      ensures rows == map[]
    {
      rows := map[];
    }

    /** UpsertClient: an empty ID is replaced by a fresh one, a missing time by the clock. */
    method UpsertClient(c: ClientInfo, lastSeen: Option<Instant>, now: Instant, freshId: string) returns (id: string)
      modifies this
      ensures id == if c.id == "" then freshId else c.id
      ensures rows == Step(old(rows), Seen(c.(id := id), SeenTime(lastSeen, now)))
      ensures rows[id].lastSeen == Format(if lastSeen.Some? then lastSeen.value else now)
    {
      id := c.id;
      if id == "" {
        id := freshId;
      }
      var seen := now;
      if lastSeen.Some? {
        seen := lastSeen.value;
      }
      rows := rows[id := ClientRow(c.hostname, c.version, c.seekers, c.keyRate, c.keyCount, Format(seen), c.status)];
    }

    method HandleRegister(req: RegisterRequest, now: Instant, freshId: string) returns (id: string, code: nat)
      requires freshId != ""
      modifies this
      ensures id == if req.clientId == "" then freshId else req.clientId
      ensures rows == Step(old(rows),
                           Seen(ClientInfo(id, req.hostname, req.version, req.seekers, 0.0, 0, "active"), now))
      ensures code == 201
    {
      id := req.clientId;
      if id == "" {
        id := freshId;
      }
      var c := ClientInfo(id, req.hostname, req.version, req.seekers, 0.0, 0, "active");
      id := UpsertClient(c, Some(now), now, freshId);
      code := 201;
    }

    method HandleHeartbeat(hb: Heartbeat, now: Instant, freshId: string) returns (code: nat)
      modifies this
      ensures hb.clientId == "" ==> code == 400 && rows == old(rows)
      ensures hb.clientId != "" ==>
                code == 204 &&
                rows == Step(old(rows), Seen(ClientInfo(hb.clientId, hb.hostname, hb.version, hb.seekers,
                                                        hb.keyRate, hb.keyCount, "active"), now))
    {
      if hb.clientId == "" {
        return 400;
      }
      var c := ClientInfo(hb.clientId, hb.hostname, hb.version, hb.seekers, hb.keyRate, hb.keyCount, "active");
      var _ := UpsertClient(c, Some(now), now, freshId);
      code := 204;
    }

    /** No row is added or removed, and exactly the rows last seen more than 90 whole seconds ago
        are offline because of it. */
    method MarkOfflineClients(now: Instant)
      modifies this
      ensures rows == Step(old(rows), Mark(now))
      ensures rows.Keys == old(rows).Keys
      ensures forall id, seen: Instant :: SeenAt(old(rows), id, seen) ==>
                rows[id] == if Second(now) - Second(seen) > 90 then old(rows)[id].(status := "offline")
                            else old(rows)[id]
    {
      var cutoff := Before(now, OFFLINE_AFTER);
      rows := Marked(rows, cutoff);
      MarkedRows(old(rows), now, rows);
    }

    /** Exactly the offline rows last seen more than 300 whole seconds ago go; the others stay
        as they are. */
    method DeleteOfflineClients(now: Instant)
      modifies this
      ensures rows == Step(old(rows), Purge(now))
      ensures rows.Keys <= old(rows).Keys && forall id :: id in rows ==> rows[id] == old(rows)[id]
      ensures forall id, seen: Instant :: SeenAt(old(rows), id, seen) ==>
                (id !in rows <==> old(rows)[id].status == "offline" && Second(now) - Second(seen) > 300)
    {
      var cutoff := Before(now, DELETE_AFTER);
      rows := Purged(rows, cutoff);
      PurgedRows(old(rows), now, rows);
    }

    /** One tick of clientReaper with nothing in between; each statement reads the clock. A row
        already more than 300 seconds old is marked and deleted by the same tick. */
    method ReaperTick(first: Instant, second: Instant)
      modifies this
      ensures rows == Step(Step(old(rows), Mark(first)), Purge(second))
      ensures rows.Keys <= old(rows).Keys
      ensures forall id, seen: Instant :: SeenAt(old(rows), id, seen) ==>
                (id !in rows <==> && Second(second) - Second(seen) > 300
                                  && (old(rows)[id].status == "offline" || Second(first) - Second(seen) > 90))
      ensures forall id, seen: Instant :: SeenAt(old(rows), id, seen) && id in rows ==>
                rows[id] == if Second(first) - Second(seen) > 90 then old(rows)[id].(status := "offline")
                            else old(rows)[id]
    {
      MarkOfflineClients(first);
      DeleteOfflineClients(second);
      TickedRows(old(rows), first, second, rows);
    }
  }
}
