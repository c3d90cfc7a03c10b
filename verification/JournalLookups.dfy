/**
  The two lookups that apply their limit before they drop expired rows, and so can show that a
  sweep has happened: when exactly they do.
 */
module JournalLookups {
  import opened Wrappers
  import opened Journal

  // ---- `recent` ----

  // How many rows stand before a row, newest first.
  function Newer(log: Log, id: nat): set<nat> {
    set k | k in log && k > id
  }

  function NewerBelow(log: Log, id: nat, n: nat): set<nat> {
    set k | k in log && id < k < n
  }

  lemma ScanGrows(log: Log, now: Nanos, n: nat)
    requires n > 0
    ensures ScanBelow(log, EVERYTHING, now, n)
         == ScanBelow(log, EVERYTHING, now, n - 1) + if n - 1 in log then [Row(n - 1, log[n - 1])] else []
  {
  }

  lemma NewerGrows(log: Log, id: nat, n: nat)
    requires id < n
    ensures |NewerBelow(log, id, n + 1)| == |NewerBelow(log, id, n)| + if n in log then 1 else 0
  {
    assert NewerBelow(log, id, n + 1) == NewerBelow(log, id, n) + if n in log then {n} else {};
  }

  lemma {:induction false} PlaceInScan(log: Log, now: Nanos, n: nat, i: nat)
    requires i < |ScanBelow(log, EVERYTHING, now, n)|
    ensures var rows := ScanBelow(log, EVERYTHING, now, n);
      |NewerBelow(log, rows[i].id, n)| == |rows| - 1 - i
  {
    ScanGrows(log, now, n);
    hide ScanBelow;
    var rows := ScanBelow(log, EVERYTHING, now, n);
    var before := ScanBelow(log, EVERYTHING, now, n - 1);
    if i == |before| {
      assert NewerBelow(log, rows[i].id, n) == {};
    } else {
      PlaceInScan(log, now, n - 1, i);
      ScanExact(log, EVERYTHING, now, n - 1);
      assert before[i] in before;
      NewerGrows(log, before[i].id, n - 1);
    }
  }

  ghost predicate Descending(rows: seq<Row>) {
    forall i, j :: 0 <= i < j < |rows| ==> rows[i].id > rows[j].id
  }

  lemma ScanPlace(log: Log, now: Nanos, i: nat)
    requires i < |Scan(log, EVERYTHING, now)|
    ensures var scan := Scan(log, EVERYTHING, now);
      scan[i].id in log && scan[i].stored == log[scan[i].id] && |Newer(log, scan[i].id)| == |scan| - 1 - i
  {
    hide ScanBelow, Max;
    var n, scan := NextId(log), Scan(log, EVERYTHING, now);
    ScanExact(log, EVERYTHING, now, n);
    assert scan[i] in scan;
    PlaceInScan(log, now, n, i);
    assert Newer(log, scan[i].id) == NewerBelow(log, scan[i].id, n);
  }

  lemma ScanHas(log: Log, now: Nanos, id: nat) returns (i: nat)
    requires id in log
    ensures i < |Scan(log, EVERYTHING, now)| && Scan(log, EVERYTHING, now)[i] == Row(id, log[id])
  {
    hide ScanBelow, Max;
    var n, scan := NextId(log), Scan(log, EVERYTHING, now);
    ScanExact(log, EVERYTHING, now, n);
    assert Row(id, log[id]) in scan;
    i :| 0 <= i < |scan| && scan[i] == Row(id, log[id]);
  }

  lemma NewestRows(log: Log, now: Nanos, limit: nat)
    ensures Descending(Newest(log, EVERYTHING, now, limit))
    ensures forall r :: r in Newest(log, EVERYTHING, now, limit)
              <==> r.id in log && r.stored == log[r.id] && |Newer(log, r.id)| < limit
  {
    hide Scan;
    var scan, newest := Scan(log, EVERYTHING, now), Newest(log, EVERYTHING, now, limit);
    forall r: Row | r.id in log && r.stored == log[r.id] && |Newer(log, r.id)| < limit ensures r in newest {
      var i := ScanHas(log, now, r.id);
      ScanPlace(log, now, i);
      assert newest[|scan| - 1 - i] == r;
    }
    forall k | 0 <= k < |newest|
      ensures newest[k].id in log && newest[k].stored == log[newest[k].id] && |Newer(log, newest[k].id)| < limit
    {
      ScanPlace(log, now, |scan| - 1 - k);
    }
    NewestDescends(log, now, limit);
  }

  lemma NewestDescends(log: Log, now: Nanos, limit: nat)
    ensures Descending(Newest(log, EVERYTHING, now, limit))
  {
    ScanExact(log, EVERYTHING, now, NextId(log));
  }

  lemma {:induction false} DropKeepsOrder(rows: seq<Row>, now: Nanos)
    requires Descending(rows)
    ensures Descending(DropExpired(rows, now))
    ensures forall r :: r in DropExpired(rows, now) <==> r in rows && !Expired(r.stored, now)
  {
    if rows != [] {
      assert rows == rows[..|rows| - 1] + [rows[|rows| - 1]];
      DropKeepsOrder(rows[..|rows| - 1], now);
    }
  }

  lemma DescendingUnique(a: seq<Row>, b: seq<Row>)
    requires Descending(a) && Descending(b) && forall r :: r in a <==> r in b
    ensures a == b
  {
    var ra, rb := Reverse(a), Reverse(b);
    forall r ensures r in ra <==> r in rb {
      ReverseHolds(a, r);
      ReverseHolds(b, r);
    }
    AscendingUnique(ra, rb);
    forall i | 0 <= i < |a| ensures a[i] == b[i] {
      assert a[i] == ra[|a| - 1 - i] && b[i] == rb[|a| - 1 - i];
    }
  }

  lemma ReverseHolds(rows: seq<Row>, r: Row)
    ensures r in Reverse(rows) <==> r in rows
  {
    var reversed := Reverse(rows);
    if r in rows {
      var i :| 0 <= i < |rows| && rows[i] == r;
      assert reversed[|rows| - 1 - i] == r;
    }
  }

  /** `recent` gives, newest first, the unexpired rows with fewer than `limit` rows after them. */
  lemma RecentExact(log: Log, limit: nat, now: Nanos)
    ensures Descending(RecentRows(log, limit, now))
    ensures forall r :: r in RecentRows(log, limit, now)
              <==> r.id in log && r.stored == log[r.id] && !Expired(r.stored, now) && |Newer(log, r.id)| < limit
  {
    NewestRows(log, now, limit);
    DropKeepsOrder(Newest(log, EVERYTHING, now, limit), now);
  }

  // A row that moves up under the limit because rows after it were swept.
  predicate MovesUp(log: Log, t: Nanos, limit: nat, id: nat)
    requires id in log
  {
    |Newer(Sweep(log, t), id)| < limit <= |Newer(log, id)|
  }

  lemma NewerAfterSweep(log: Log, t: Nanos, id: nat)
    ensures |Newer(Sweep(log, t), id)| <= |Newer(log, id)|
  {
    CountsGrow(Newer(Sweep(log, t), id), Newer(log, id));
  }

  lemma CountsGrow(a: set<nat>, b: set<nat>)
    requires a <= b
    ensures |a| <= |b|
  {
    assert b == a + (b - a);
  }

  /** Once the clock has passed a sweep, `recent` shows it exactly when an unexpired row moved up. */
  lemma RecentUnchangedIff(log: Log, t: Nanos, limit: nat, now: Nanos)
    requires ToMicros(t) * 1000 < now
    ensures RecentRows(Sweep(log, t), limit, now) == RecentRows(log, limit, now)
      <==> forall id :: id in log && !Expired(log[id], now) ==> !MovesUp(log, t, limit, id)
  {
    var swept := Sweep(log, t);
    RecentExact(log, limit, now);
    RecentExact(swept, limit, now);
    if forall id :: id in log && !Expired(log[id], now) ==> !MovesUp(log, t, limit, id) {
      forall r ensures r in RecentRows(swept, limit, now) <==> r in RecentRows(log, limit, now) {
        if r.id in log {
          NewerAfterSweep(log, t, r.id);
        }
      }
      DescendingUnique(RecentRows(swept, limit, now), RecentRows(log, limit, now));
    } else {
      var id :| id in log && !Expired(log[id], now) && MovesUp(log, t, limit, id);
      assert Row(id, log[id]) in RecentRows(swept, limit, now);
      assert Row(id, log[id]) !in RecentRows(log, limit, now);
    }
  }

  // ---- `get_by_idempotency_key` ----

  /** The lookup gives a row exactly when it is the newest one under the key and has not expired. */
  lemma ByKeyIff(log: Log, key: string, now: Nanos, row: Row)
    ensures ByKey(log, key, now) == Some(row)
       <==> && row.id in log && log[row.id] == row.stored && row.stored.key == Some(key)
            && (forall id :: id in log && log[id].key == Some(key) ==> id <= row.id)
            && (row.stored.validTo == None || row.stored.validTo.value * 1000 >= now)
  {
    var ids := KeyIds(log, key);
    KeyIdsAre(log, key);
    hide KeyIds;
    if ids != {} {
      assert IsMax(ids, Max(ids));
    }
  }

  lemma KeyIdsAre(log: Log, key: string)
    ensures forall id :: id in KeyIds(log, key) <==> id in log && log[id].key == Some(key)
  {
  }

  // The newest row under the key is swept, and the newest one left has not expired.
  predicate OlderShows(log: Log, t: Nanos, key: string, now: Nanos) {
    var all, left := KeyIds(log, key), KeyIds(Sweep(log, t), key);
    all != {} && Swept(log[Max(all)], t) && left != {} && !Expired(log[Max(left)], now)
  }

  /** Once the clock has passed a sweep, the lookup shows it exactly when an older row comes forward. */
  lemma ByKeyUnchangedIff(log: Log, t: Nanos, key: string, now: Nanos)
    requires ToMicros(t) * 1000 < now
    ensures ByKey(Sweep(log, t), key, now) == ByKey(log, key, now) <==> !OlderShows(log, t, key, now)
  {
    var all, left := KeyIds(log, key), KeyIds(Sweep(log, t), key);
    assert left == set id | id in all && !Swept(log[id], t);
    if all != {} {
      var newest := Max(all);
      if Swept(log[newest], t) {
        assert Expired(log[newest], now);
      } else {
        assert newest in left;
        assert left != {} && Max(left) == newest;
      }
    }
  }
}
