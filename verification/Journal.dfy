/**
  The event journal: one log table and four index tables, appended to, queried, swept of
  expired rows and reconciled after a crash.

  Each table is a field; each committed transaction is one method.  Instants are nanoseconds
  and are read from the caller; what is stored is truncated to microseconds.
 */
module Journal {
  import opened Wrappers

  type RunId = nat
  type Nanos = int
  type Micros = int

  // The part of a payload a filter looks at, and the rest.
  datatype Payload = Payload(traceId: Option<string>, text: string)

  datatype Entry = Entry(
    runId: Option<RunId>, session: string, namespace: string, eventType: string, payload: Payload,
    validTo: Option<Nanos>, key: Option<string>)

  datatype Stored = Stored(
    runId: Option<RunId>, session: string, namespace: string, eventType: string, payload: Payload,
    createdAt: Micros, validTo: Option<Micros>, key: Option<string>)

  datatype Row = Row(id: nat, stored: Stored)

  type Log = map<nat, Stored>

  function ToMicros(t: Nanos): Micros { t / 1000 }

  // `StoredEntry::from_entry`
  function FromEntry(e: Entry, now: Nanos): Stored {
    Stored(e.runId, e.session, e.namespace, e.eventType, e.payload, ToMicros(now),
           if e.validTo.Some? then Some(ToMicros(e.validTo.value)) else None, e.key)
  }

  // `is_expired`: the stored instant is strictly before the clock, which is finer grained.
  predicate Expired(s: Stored, now: Nanos) {
    s.validTo.Some? && s.validTo.value * 1000 < now
  }

  // What `delete_expired` removes: the clock is truncated first, and equality counts.
  predicate Swept(s: Stored, now: Nanos) {
    s.validTo.Some? && s.validTo.value <= ToMicros(now)
  }

  datatype Filter = Filter(
    namespace: Option<string>, eventType: Option<string>, runId: Option<RunId>, session: Option<string>,
    traceId: Option<string>, includeExpired: bool)

  // `JournalFilter::matches`
  predicate Matches(f: Filter, s: Stored, now: Nanos) {
    && (f.namespace.Some? ==> s.namespace == f.namespace.value)
    && (f.eventType.Some? ==> s.eventType == f.eventType.value)
    && (f.runId.Some? ==> s.runId == f.runId)
    && (f.session.Some? ==> s.session == f.session.value)
    && (f.traceId.Some? && s.payload.traceId.Some? ==> s.payload.traceId == f.traceId)
    && (!f.includeExpired ==> !Expired(s, now))
  }

  function OfRun(run: RunId): Filter { Filter(None, None, Some(run), None, None, false) }

  function OfSession(session: string): Filter { Filter(None, None, None, Some(session), None, false) }

  // ---- Ids ----

  lemma {:induction false} MaxExists(ids: set<nat>)
    requires ids != {}
    ensures exists m :: IsMax(ids, m)
    decreases |ids|
  {
    var x :| x in ids;
    var rest := ids - {x};
    if rest != {} {
      MaxExists(rest);
      var m :| IsMax(rest, m);
      assert ids == rest + {x};
      assert IsMax(ids, if x > m then x else m);
    } else {
      assert ids == {x};
      assert IsMax(ids, x);
    }
  }

  predicate IsMax(ids: set<nat>, m: nat) {
    m in ids && forall k :: k in ids ==> k <= m
  }

  function Max(ids: set<nat>): (m: nat)
    requires ids != {}
    ensures IsMax(ids, m)
  {
    MaxExists(ids);
    var m :| m in ids && IsMax(ids, m);
    m
  }

  // One past the last id stored, so ids can come back after the tail was swept.
  function NextId(log: Log): (n: nat)
    ensures forall id :: id in log ==> id < n
    ensures n > 0 && (log != map[] ==> n - 1 in log)
  {
    if log.Keys == {} then 1 else Max(log.Keys) + 1
  }

  function Appended(log: Log, s: Stored): Log {
    log[NextId(log) := s]
  }

  lemma NextIdAppended(log: Log, s: Stored)
    ensures NextId(Appended(log, s)) == NextId(log) + 1
  {
    var after := Appended(log, s);
    assert NextId(log) in after && NextId(after) - 1 in after;
  }

  function AppendAll(log: Log, rows: seq<Stored>): Log {
    if rows == [] then log else Appended(AppendAll(log, rows[..|rows| - 1]), rows[|rows| - 1])
  }

  // Old rows stay, and the new ones come right after them, in order.
  ghost predicate Extends(log: Log, after: Log, rows: seq<Stored>) {
    var n := NextId(log);
    && NextId(after) == n + |rows|
    && (forall id :: id in after <==> id in log || n <= id < n + |rows|)
    && (forall id :: id in log ==> after[id] == log[id])
    && (forall id :: n <= id < n + |rows| ==> after[id] == rows[id - n])
  }

  lemma {:induction false} AppendAllExtends(log: Log, rows: seq<Stored>)
    ensures Extends(log, AppendAll(log, rows), rows)
  {
    if rows != [] {
      var k := |rows| - 1;
      AppendAllExtends(log, rows[..k]);
      NextIdAppended(AppendAll(log, rows[..k]), rows[k]);
    }
  }

  lemma {:induction false} AppendAllTwice(log: Log, a: seq<Stored>, b: seq<Stored>)
    ensures AppendAll(AppendAll(log, a), b) == AppendAll(log, a + b)
  {
    if b == [] {
      assert a + b == a;
    } else {
      var k := |b| - 1;
      AppendAllTwice(log, a, b[..k]);
      assert (a + b)[..|a| + k] == a + b[..k];
    }
  }

  // ---- The reference: a filtered scan of the whole log ----

  function ScanBelow(log: Log, f: Filter, now: Nanos, n: nat): seq<Row> {
    if n == 0 then []
    else
      ScanBelow(log, f, now, n - 1) +
      if n - 1 in log && Matches(f, log[n - 1], now) then [Row(n - 1, log[n - 1])] else []
  }

  function Scan(log: Log, f: Filter, now: Nanos): seq<Row> {
    ScanBelow(log, f, now, NextId(log))
  }

  function Reverse<T>(s: seq<T>): (r: seq<T>)
    ensures |r| == |s| && forall i :: 0 <= i < |s| ==> r[i] == s[|s| - 1 - i]
  {
    if s == [] then [] else [s[|s| - 1]] + Reverse(s[..|s| - 1])
  }

  function Take<T>(s: seq<T>, limit: nat): seq<T> {
    if |s| <= limit then s else s[..limit]
  }

  // The first `limit` rows, newest first.
  function Newest(log: Log, f: Filter, now: Nanos, limit: nat): seq<Row> {
    Take(Reverse(Scan(log, f, now)), limit)
  }

  const EVERYTHING := Filter(None, None, None, None, None, true)

  // `recent`: the newest `limit` rows, and of these the ones not expired.
  function RecentRows(log: Log, limit: nat, now: Nanos): seq<Row> {
    DropExpired(Newest(log, EVERYTHING, now, limit), now)
  }

  function KeyIds(log: Log, key: string): set<nat> {
    set id | id in log && log[id].key == Some(key)
  }

  // `get_by_idempotency_key`: the newest row under the key, unless that one has expired.
  function ByKey(log: Log, key: string, now: Nanos): Option<Row> {
    var ids := KeyIds(log, key);
    if ids == {} then None
    else
      var newest := Max(ids);
      if Expired(log[newest], now) then None else Some(Row(newest, log[newest]))
  }

  ghost predicate Ascending(rows: seq<Row>) {
    forall i, j :: 0 <= i < j < |rows| ==> rows[i].id < rows[j].id
  }

  lemma {:induction false} ScanExact(log: Log, f: Filter, now: Nanos, n: nat)
    ensures Ascending(ScanBelow(log, f, now, n))
    ensures forall r :: r in ScanBelow(log, f, now, n)
              <==> r.id < n && r.id in log && r.stored == log[r.id] && Matches(f, r.stored, now)
  {
    if n > 0 {
      ScanExact(log, f, now, n - 1);
    }
  }

  // The filter asks for this entry: field by field, and expired ones only on demand.  What is
  // stored of an expiry is its microsecond.
  predicate Selects(f: Filter, e: Entry, later: Nanos) {
    && (f.namespace == None || f.namespace == Some(e.namespace))
    && (f.eventType == None || f.eventType == Some(e.eventType))
    && (f.runId == None || f.runId == e.runId)
    && (f.session == None || f.session == Some(e.session))
    && (f.traceId == None || e.payload.traceId == None || f.traceId == e.payload.traceId)
    && (f.includeExpired || e.validTo == None || e.validTo.value / 1000 * 1000 >= later)
  }

  /** An appended entry is found, with all it was written with, exactly by the scans that ask for it. */
  lemma AppendedIsFound(log: Log, e: Entry, now: Nanos, f: Filter, later: Nanos)
    ensures var row := Row(NextId(log), Stored(
        e.runId, e.session, e.namespace, e.eventType, e.payload, now / 1000,
        if e.validTo.Some? then Some(e.validTo.value / 1000) else None, e.key));
      row in Scan(Appended(log, FromEntry(e, now)), f, later) <==> Selects(f, e, later)
  {
    hide Scan, ScanBelow;
    var after := Appended(log, FromEntry(e, now));
    NextIdAppended(log, FromEntry(e, now));
    ScanHolds(after, f, later, Row(NextId(log), FromEntry(e, now)));
  }

  lemma ScanHolds(log: Log, f: Filter, now: Nanos, row: Row)
    ensures row in Scan(log, f, now) <==> row.id in log && row.stored == log[row.id] && Matches(f, row.stored, now)
  {
    ScanExact(log, f, now, NextId(log));
  }

  // Ascending rows are determined by which rows they are.
  lemma {:induction false} AscendingUnique(a: seq<Row>, b: seq<Row>)
    requires Ascending(a) && Ascending(b) && forall r :: r in a <==> r in b
    ensures a == b
  {
    assert a != [] ==> a[0] in b;
    assert b != [] ==> b[0] in a;
    if a != [] {
      var x, y := a[|a| - 1], b[|b| - 1];
      assert x in b && y in a;
      assert x == y;
      var a', b' := a[..|a| - 1], b[..|b| - 1];
      assert a == a' + [x] && b == b' + [y];
      assert x !in a' && x !in b';
      forall r ensures r in a' <==> r in b' {
        assert r in a <==> r in a' || r == x;
        assert r in b <==> r in b' || r == x;
      }
      AscendingUnique(a', b');
    }
  }

  ghost predicate NoneMatch(log: Log, f: Filter, now: Nanos, m: nat, n: nat) {
    forall id :: id in log && m <= id < n ==> !Matches(f, log[id], now)
  }

  // Rows that do not match can be skipped from the top.
  lemma {:induction false} ScanSkips(log: Log, f: Filter, now: Nanos, m: nat, n: nat)
    requires m <= n && NoneMatch(log, f, now, m, n)
    ensures ScanBelow(log, f, now, n) == ScanBelow(log, f, now, m)
  {
    if m < n {
      ScanSkips(log, f, now, m, n - 1);
    }
  }

  lemma ReverseAppend<T>(s: seq<T>, x: T)
    ensures Reverse(s + [x]) == [x] + Reverse(s)
  {
    assert (s + [x])[..|s|] == s;
  }

  lemma ScanTop(log: Log, f: Filter, now: Nanos, id: nat)
    requires id in log
    ensures ScanBelow(log, f, now, id + 1)
         == if Matches(f, log[id], now) then ScanBelow(log, f, now, id) + [Row(id, log[id])] else ScanBelow(log, f, now, id)
  {
  }

  ghost predicate IsUnder(ids: set<nat>, all: set<nat>, bound: nat) {
    forall id :: id in ids <==> id in all && id < bound
  }

  lemma DropMax(ids: set<nat>, all: set<nat>, bound: nat, id: nat)
    requires IsUnder(ids, all, bound) && IsMax(ids, id)
    ensures IsUnder(ids - {id}, all, id)
  {
  }

  // The candidates an index offers are all that can match.
  ghost predicate Covers(candidates: set<nat>, log: Log, f: Filter, now: Nanos) {
    forall id :: id in log && Matches(f, log[id], now) ==> id in candidates
  }

  lemma GapHasNone(log: Log, f: Filter, now: Nanos, candidates: set<nat>, m: nat, n: nat)
    requires Covers(candidates, log, f, now) && forall id :: id in candidates ==> !(m <= id < n)
    ensures NoneMatch(log, f, now, m, n)
  {
  }

  lemma GapSkips(log: Log, f: Filter, now: Nanos, candidates: set<nat>, m: nat, n: nat)
    requires m <= n && Covers(candidates, log, f, now) && forall id :: id in candidates ==> !(m <= id < n)
    ensures ScanBelow(log, f, now, n) == ScanBelow(log, f, now, m)
  {
    GapHasNone(log, f, now, candidates, m, n);
    ScanSkips(log, f, now, m, n);
  }

  lemma NewestDone(log: Log, f: Filter, now: Nanos, bound: nat, rows: seq<Row>, limit: nat)
    requires Reverse(Scan(log, f, now)) == rows + Reverse(ScanBelow(log, f, now, bound)) && |rows| <= limit
    requires NoneMatch(log, f, now, 0, bound)
    ensures rows == Newest(log, f, now, limit)
  {
    ScanSkips(log, f, now, 0, bound);
  }

  lemma Regroup<T>(a: seq<T>, x: T, b: seq<T>)
    ensures a + ([x] + b) == (a + [x]) + b
  {
  }

  lemma TakePrefix<T>(a: seq<T>, b: seq<T>)
    ensures Take(a + b, |a|) == a
  {
  }

  // ---- Sorting by id, as the queries do ----

  function Insert(rows: seq<Row>, r: Row): seq<Row> {
    if rows == [] || rows[|rows| - 1].id < r.id then rows + [r]
    else Insert(rows[..|rows| - 1], r) + [rows[|rows| - 1]]
  }

  lemma {:induction false} InsertKeeps(rows: seq<Row>, r: Row)
    requires Ascending(rows) && forall x :: x in rows ==> x.id != r.id
    ensures Ascending(Insert(rows, r))
    ensures forall x :: x in Insert(rows, r) <==> x in rows || x == r
  {
    if rows != [] && rows[|rows| - 1].id >= r.id {
      var init, last := rows[..|rows| - 1], rows[|rows| - 1];
      assert rows == init + [last];
      InsertKeeps(init, r);
      assert forall x :: x in Insert(init, r) ==> x.id < last.id by {
        assert forall x :: x in init ==> x.id < last.id;
        assert last in rows;
      }
    }
  }

  method SortById(rows: seq<Row>) returns (sorted: seq<Row>)
    requires DistinctIds(rows)
    ensures Ascending(sorted) && forall r :: r in sorted <==> r in rows
  {
    sorted := [];
    for i := 0 to |rows|
      invariant Ascending(sorted) && forall r :: r in sorted <==> r in rows[..i]
    {
      assert rows[..i + 1] == rows[..i] + [rows[i]];
      InsertKeeps(sorted, rows[i]);
      sorted := Insert(sorted, rows[i]);
    }
    assert rows[..|rows|] == rows;
  }

  // `retain(|r| !is_expired(r))`
  function DropExpired(rows: seq<Row>, now: Nanos): seq<Row> {
    if rows == [] then []
    else DropExpired(rows[..|rows| - 1], now) + if Expired(rows[|rows| - 1].stored, now) then [] else [rows[|rows| - 1]]
  }

  lemma {:induction false} DropExpiredExact(rows: seq<Row>, now: Nanos)
    requires Ascending(rows)
    ensures Ascending(DropExpired(rows, now))
    ensures forall r :: r in DropExpired(rows, now) <==> r in rows && !Expired(r.stored, now)
  {
    if rows != [] {
      assert rows == rows[..|rows| - 1] + [rows[|rows| - 1]];
      DropExpiredExact(rows[..|rows| - 1], now);
    }
  }

  // ---- The indexes, as images of the log ----

  function RunIndex(log: Log): set<(RunId, nat)> {
    set id | id in log && log[id].runId.Some? :: (log[id].runId.value, id)
  }

  function SessionIndex(log: Log): set<(string, nat)> {
    set id | id in log :: (log[id].session, id)
  }

  function ExpiryIndex(log: Log): set<(Micros, nat)> {
    set id | id in log && log[id].validTo.Some? :: (log[id].validTo.value, id)
  }

  function KeyIndex(log: Log): set<(string, nat)> {
    set id | id in log && log[id].key.Some? :: (log[id].key.value, id)
  }

  lemma IndexesAppended(log: Log, s: Stored)
    ensures var after, id := Appended(log, s), NextId(log);
      && RunIndex(after) == RunIndex(log) + (if s.runId.Some? then {(s.runId.value, id)} else {})
      && SessionIndex(after) == SessionIndex(log) + {(s.session, id)}
      && ExpiryIndex(after) == ExpiryIndex(log) + (if s.validTo.Some? then {(s.validTo.value, id)} else {})
      && KeyIndex(after) == KeyIndex(log) + (if s.key.Some? then {(s.key.value, id)} else {})
  {
    RunIndexSet(log, NextId(log), s);
    SessionIndexSet(log, NextId(log), s);
    ExpiryIndexSet(log, NextId(log), s);
    KeyIndexSet(log, NextId(log), s);
  }

  lemma RunIndexSet(log: Log, id: nat, s: Stored)
    requires id !in log
    ensures RunIndex(log[id := s]) == RunIndex(log) + (if s.runId.Some? then {(s.runId.value, id)} else {})
  {
    var after := log[id := s];
    forall p ensures p in RunIndex(after) <==> p in RunIndex(log) || (s.runId.Some? && p == (s.runId.value, id)) {
      assert p.1 in after <==> p.1 in log || p.1 == id;
    }
  }

  lemma SessionIndexSet(log: Log, id: nat, s: Stored)
    requires id !in log
    ensures SessionIndex(log[id := s]) == SessionIndex(log) + {(s.session, id)}
  {
    var after := log[id := s];
    forall p ensures p in SessionIndex(after) <==> p in SessionIndex(log) || p == (s.session, id) {
      assert p.1 in after <==> p.1 in log || p.1 == id;
    }
  }

  lemma ExpiryIndexSet(log: Log, id: nat, s: Stored)
    requires id !in log
    ensures ExpiryIndex(log[id := s]) == ExpiryIndex(log) + (if s.validTo.Some? then {(s.validTo.value, id)} else {})
  {
    var after := log[id := s];
    forall p ensures p in ExpiryIndex(after) <==> p in ExpiryIndex(log) || (s.validTo.Some? && p == (s.validTo.value, id)) {
      assert p.1 in after <==> p.1 in log || p.1 == id;
    }
  }

  lemma KeyIndexSet(log: Log, id: nat, s: Stored)
    requires id !in log
    ensures KeyIndex(log[id := s]) == KeyIndex(log) + (if s.key.Some? then {(s.key.value, id)} else {})
  {
    var after := log[id := s];
    forall p ensures p in KeyIndex(after) <==> p in KeyIndex(log) || (s.key.Some? && p == (s.key.value, id)) {
      assert p.1 in after <==> p.1 in log || p.1 == id;
    }
  }

  lemma IndexesRemoved(log: Log, id: nat)
    requires id in log
    ensures var after, s := log - {id}, log[id];
      && RunIndex(after) == RunIndex(log) - (if s.runId.Some? then {(s.runId.value, id)} else {})
      && SessionIndex(after) == SessionIndex(log) - {(s.session, id)}
      && ExpiryIndex(after) == ExpiryIndex(log) - (if s.validTo.Some? then {(s.validTo.value, id)} else {})
      && KeyIndex(after) == KeyIndex(log) - (if s.key.Some? then {(s.key.value, id)} else {})
  {
    var after, s := log - {id}, log[id];
    RunIndexSet(after, id, s);
    SessionIndexSet(after, id, s);
    ExpiryIndexSet(after, id, s);
    KeyIndexSet(after, id, s);
    assert after[id := s] == log;
  }

  function Sweep(log: Log, now: Nanos): Log {
    map id | id in log && !Swept(log[id], now) :: log[id]
  }

  datatype AggregateQuery = CountRows | MostRecent | WindowSum(field: string, window: nat)

  datatype AggregateResult = Counted(n: nat) | LastCreated(at: Option<Micros>)

  ghost predicate IsLatest(rows: seq<Row>, at: Option<Micros>) {
    if rows == [] then at == None
    else
      && at.Some?
      && (exists i :: 0 <= i < |rows| && rows[i].stored.createdAt == at.value)
      && forall i :: 0 <= i < |rows| ==> rows[i].stored.createdAt <= at.value
  }

  // The loop of both newest-first queries: walk candidate ids from the top, keep what matches,
  // stop at the limit.
  method CollectNewest(log: Log, candidates: set<nat>, f: Filter, limit: nat, now: Nanos) returns (rows: seq<Row>)
    requires candidates <= log.Keys && Covers(candidates, log, f, now)
    ensures rows == Newest(log, f, now, limit)
  {
    rows := [];
    var ids := candidates;
    ghost var bound := NextId(log);
    while ids != {}
      invariant IsUnder(ids, candidates, bound)
      invariant Reverse(Scan(log, f, now)) == rows + Reverse(ScanBelow(log, f, now, bound))
      invariant |rows| <= limit
      decreases ids
    {
      if |rows| >= limit {
        TakePrefix(rows, Reverse(ScanBelow(log, f, now, bound)));
        return;
      }
      var id := Max(ids);
      DropMax(ids, candidates, bound, id);
      ids := ids - {id};
      GapSkips(log, f, now, candidates, id + 1, bound);
      ScanTop(log, f, now, id);
      ghost var below := ScanBelow(log, f, now, id);
      bound := id;
      if Matches(f, log[id], now) {
        var row := Row(id, log[id]);
        ReverseAppend(below, row);
        Regroup(rows, row, Reverse(below));
        rows := rows + [row];
      }
    }
    GapHasNone(log, f, now, candidates, 0, bound);
    NewestDone(log, f, now, bound, rows, limit);
  }

  class RedbJournal {
    var events: Log
    var byRun: set<(RunId, nat)>
    var bySession: set<(string, nat)>
    var byExpiry: set<(Micros, nat)>
    var byKey: set<(string, nat)>

    /** The four indexes are exactly the images of the log. */
    ghost predicate Valid()
      reads this
    {
      && byRun == RunIndex(events)
      && bySession == SessionIndex(events)
      && byExpiry == ExpiryIndex(events)
      && byKey == KeyIndex(events)
    }

    constructor ()
      ensures Valid() && events == map[]
    {
      events, byRun, bySession, byExpiry, byKey := map[], {}, {}, {}, {};
    }

    method Append(entry: Entry, now: Nanos) returns (id: nat)
      requires Valid()
      modifies this
      ensures Valid()
      ensures id == NextId(old(events)) && events == Appended(old(events), FromEntry(entry, now))
    {
      var stored := FromEntry(entry, now);
      id := NextId(events);
      IndexesAppended(events, stored);
      events := events[id := stored];
      if stored.runId.Some? {
        byRun := byRun + {(stored.runId.value, id)};
      }
      bySession := bySession + {(stored.session, id)};
      if stored.validTo.Some? {
        byExpiry := byExpiry + {(stored.validTo.value, id)};
      }
      if stored.key.Some? {
        byKey := byKey + {(stored.key.value, id)};
      }
    }

    /** A run's unexpired rows, oldest first: the filtered scan, reached through the index. */
    method QueryByRun(run: RunId, now: Nanos) returns (rows: seq<Row>)
      requires Valid()
      ensures rows == Scan(events, OfRun(run), now)
    {
      rows := [];
      var ids := set p | p in byRun && p.0 == run :: p.1;
      ghost var all := ids;
      while ids != {}
        invariant ids <= all
        invariant DistinctIds(rows)
        invariant forall r :: r in rows <==> r.id in all - ids && r.id in events && r.stored == events[r.id]
        decreases ids
      {
        var id :| id in ids;
        ids := ids - {id};
        if id in events {
          rows := rows + [Row(id, events[id])];
        }
      }
      var sorted := SortById(rows);
      DropExpiredExact(sorted, now);
      rows := DropExpired(sorted, now);
      ScanExact(events, OfRun(run), now, NextId(events));
      assert forall id :: id in all <==> id in events && events[id].runId == Some(run) by {
        forall id | id in events && events[id].runId == Some(run) ensures id in all {
          assert (run, id) in byRun;
        }
      }
      AscendingUnique(rows, Scan(events, OfRun(run), now));
    }

    method SessionIds(session: string) returns (ids: set<nat>)
      requires Valid()
      ensures forall id :: id in ids <==> id in events && events[id].session == session
    {
      ids := set p | p in bySession && p.0 == session :: p.1;
      forall id | id in events && events[id].session == session ensures id in ids {
        assert (session, id) in bySession;
      }
    }

    /** A session's unexpired rows, newest first: expired rows take no place under the limit. */
    method QueryBySession(session: string, limit: nat, now: Nanos) returns (rows: seq<Row>)
      requires Valid()
      ensures rows == Newest(events, OfSession(session), now, limit)
    {
      var ids := SessionIds(session);
      rows := CollectNewest(events, ids, OfSession(session), limit, now);
    }

    /** The newest `limit` rows that match. */
    method Query(f: Filter, limit: nat, now: Nanos) returns (rows: seq<Row>)
      ensures rows == Newest(events, f, now, limit)
    {
      rows := CollectNewest(events, events.Keys, f, limit, now);
    }

    /** Expired rows do take a place here: they are dropped after the limit was applied. */
    method Recent(limit: nat, now: Nanos) returns (rows: seq<Row>)
      ensures rows == RecentRows(events, limit, now)
    {
      rows := CollectNewest(events, events.Keys, EVERYTHING, limit, now);
      rows := DropExpired(rows, now);
    }

    /** The newest row under the key decides, whatever order the index gives. */
    method GetByIdempotencyKey(key: string, now: Nanos) returns (row: Option<Row>)
      requires Valid()
      ensures row == ByKey(events, key, now)
    {
      var best: Option<Row> := None;
      var rest := set p | p in byKey && p.0 == key :: p.1;
      ghost var all := rest;
      assert all == KeyIds(events, key) by {
        forall id | id in KeyIds(events, key) ensures id in all {
          assert (key, id) in byKey;
        }
      }
      while rest != {}
        invariant rest <= all
        invariant best.None? ==> rest == all
        invariant best.Some? ==> IsMax(all - rest, best.value.id) && best.value.stored == events[best.value.id]
        decreases rest
      {
        var id :| id in rest;
        assert all - (rest - {id}) == (all - rest) + {id};
        assert id in KeyIds(events, key);
        rest := rest - {id};
        if best.None? || id > best.value.id {
          if id in events {
            best := Some(Row(id, events[id]));
          }
        }
      }
      assert all - rest == all;
      if best.Some? && Expired(best.value.stored, now) {
        return None;
      }
      return best;
    }

    /** The count is the length of the unlimited query; the time is that of its latest row. */
    method Aggregate(f: Filter, query: AggregateQuery, now: Nanos) returns (r: Result<AggregateResult, string>)
      ensures query.CountRows? ==> r == Ok(Counted(|Scan(events, f, now)|))
      ensures query.MostRecent? ==> r.Ok? && r.value.LastCreated? && IsLatest(Scan(events, f, now), r.value.at)
      ensures query.WindowSum? ==> r.Err?
    {
      var count: nat, latest: Option<Micros> := 0, None;
      var rest := events.Keys;
      ghost var bound: nat := 0;
      while rest != {}
        invariant bound <= NextId(events)
        invariant forall id :: id in rest <==> id in events && id >= bound
        invariant count == |ScanBelow(events, f, now, bound)|
        invariant IsLatest(ScanBelow(events, f, now, bound), latest)
        decreases rest
      {
        var id := Min(rest);
        rest := rest - {id};
        ghost var before := ScanBelow(events, f, now, bound);
        ScanSkips(events, f, now, bound, id);
        ScanTop(events, f, now, id);
        bound := id + 1;
        if Matches(f, events[id], now) {
          count := count + 1;
          var at := events[id].createdAt;
          LatestGrows(before, Row(id, events[id]), latest);
          if latest.None? || at > latest.value {
            latest := Some(at);
          }
        }
      }
      ScanSkips(events, f, now, bound, NextId(events));
      match query {
        case CountRows => return Ok(Counted(count));
        case MostRecent => return Ok(LastCreated(latest));
        case WindowSum(_, _) => return Err("WindowSum not yet implemented");
      }
    }

    // The first phase of `delete_expired`: what is due, with its index keys.
    method CollectExpired(now: Nanos) returns (expired: seq<Row>)
      ensures DistinctIds(expired) && forall r :: r in expired <==> r.id in events && r.stored == events[r.id] && Swept(r.stored, now)
    {
      expired := [];
      var rest := events.Keys;
      while rest != {}
        invariant rest <= events.Keys && DistinctIds(expired)
        invariant forall r :: r in expired <==>
                    r.id in events.Keys - rest && r.stored == events[r.id] && Swept(r.stored, now)
        decreases rest
      {
        var id := Min(rest);
        rest := rest - {id};
        if Swept(events[id], now) {
          expired := expired + [Row(id, events[id])];
        }
      }
    }

    /** Removes exactly what is due, from the log and from every index. */
    method DeleteExpired(now: Nanos) returns (deleted: nat)
      requires Valid()
      modifies this
      ensures Valid() && events == Sweep(old(events), now)
      ensures deleted == |old(events)| - |events|
    {
      var expired := CollectExpired(now);
      deleted := 0;
      ghost var before := events;
      for i := 0 to |expired|
        invariant Valid() && deleted == i == |before| - |events|
        invariant events == before - Ids(expired[..i])
      {
        RemoveNext(before, expired, i);
        Remove(expired[i]);
        deleted := deleted + 1;
      }
      assert expired[..|expired|] == expired;
      SweptAre(before, expired, now);
    }

    // One round of the second phase of `delete_expired`.
    method Remove(row: Row)
      requires Valid() && row.id in events && row.stored == events[row.id]
      modifies this
      ensures Valid() && events == old(events) - {row.id} && |events| == |old(events)| - 1
    {
      var s, id := row.stored, row.id;
      if s.runId.Some? {
        byRun := byRun - {(s.runId.value, id)};
      }
      bySession := bySession - {(s.session, id)};
      if s.validTo.Some? {
        byExpiry := byExpiry - {(s.validTo.value, id)};
      }
      if s.key.Some? {
        byKey := byKey - {(s.key.value, id)};
      }
      IndexesRemoved(events, id);
      ghost var before := events;
      events := events - {id};
      assert events.Keys == before.Keys - {id};
      assert |events| == |events.Keys| && |before| == |before.Keys|;
    }
  }

  predicate DistinctIds(rows: seq<Row>) {
    forall i, j :: 0 <= i < j < |rows| ==> rows[i].id != rows[j].id
  }

  function Ids(rows: seq<Row>): (ids: set<nat>)
    ensures forall id :: id in ids <==> exists i :: 0 <= i < |rows| && rows[i].id == id
  {
    set i | 0 <= i < |rows| :: rows[i].id
  }

  lemma RemoveNext(log: Log, rows: seq<Row>, i: nat)
    requires i < |rows| && DistinctIds(rows) && forall r :: r in rows ==> r.id in log && r.stored == log[r.id]
    ensures var left := log - Ids(rows[..i]);
      && rows[i].id in left && rows[i].stored == left[rows[i].id]
      && left - {rows[i].id} == log - Ids(rows[..i + 1])
  {
    assert rows[i] in rows;
    assert rows[..i + 1] == rows[..i] + [rows[i]];
    assert Ids(rows[..i + 1]) == Ids(rows[..i]) + {rows[i].id} by {
      forall id | id in Ids(rows[..i]) ensures id in Ids(rows[..i + 1]) {
        var j :| 0 <= j < i && rows[..i][j].id == id;
        assert rows[..i + 1][j].id == id;
      }
      assert rows[..i + 1][i].id == rows[i].id;
    }
  }

  lemma SweptAre(log: Log, expired: seq<Row>, now: Nanos)
    requires forall r :: r in expired <==> r.id in log && r.stored == log[r.id] && Swept(r.stored, now)
    ensures log - Ids(expired) == Sweep(log, now)
  {
    forall id | id in log ensures id in Ids(expired) <==> Swept(log[id], now) {
      if Swept(log[id], now) {
        assert Row(id, log[id]) in expired;
      }
      if id in Ids(expired) {
        var i :| 0 <= i < |expired| && expired[i].id == id;
        assert expired[i] in expired;
      }
    }
  }

  lemma MinExists(ids: set<nat>)
    requires ids != {}
    ensures exists m :: IsMin(ids, m)
    decreases |ids|
  {
    var x :| x in ids;
    var rest := ids - {x};
    if rest != {} {
      MinExists(rest);
      var m :| IsMin(rest, m);
      assert ids == rest + {x};
      assert IsMin(ids, if x < m then x else m);
    } else {
      assert ids == {x};
      assert IsMin(ids, x);
    }
  }

  predicate IsMin(ids: set<nat>, m: nat) {
    m in ids && forall k :: k in ids ==> m <= k
  }

  function Min(ids: set<nat>): (m: nat)
    requires ids != {}
    ensures IsMin(ids, m)
  {
    MinExists(ids);
    var m :| m in ids && IsMin(ids, m);
    m
  }

  lemma LatestGrows(rows: seq<Row>, r: Row, latest: Option<Micros>)
    requires IsLatest(rows, latest)
    ensures IsLatest(rows + [r], if latest.None? || r.stored.createdAt > latest.value then Some(r.stored.createdAt) else latest)
  {
    var all := rows + [r];
    assert all[|rows|] == r;
    if rows != [] {
      var i :| 0 <= i < |rows| && rows[i].stored.createdAt == latest.value;
      assert all[i] == rows[i];
    }
  }
}
