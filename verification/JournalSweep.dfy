/**
  What sweeping the journal changes: nothing a filtered query can see, at any instant after
  the sweep and over whole runs; and what it does change, the ids that come next.
 */
module JournalSweep {
  import opened Wrappers
  import opened Journal

  lemma {:induction false} ScanOfSwept(log: Log, t: Nanos, f: Filter, now: Nanos, n: nat)
    requires !f.includeExpired && ToMicros(t) * 1000 < now
    ensures ScanBelow(Sweep(log, t), f, now, n) == ScanBelow(log, f, now, n)
  {
    if n > 0 {
      ScanOfSwept(log, t, f, now, n - 1);
      assert n - 1 in log && Swept(log[n - 1], t) ==> Expired(log[n - 1], now);
    }
  }

  /**
    A sweep is invisible afterwards: every filtered scan that leaves expired rows out, hence
    every query by run, by session or by filter and every aggregate, is the same without it.
   */
  lemma SweepIsInvisible(log: Log, t: Nanos, f: Filter, now: Nanos)
    requires !f.includeExpired && ToMicros(t) * 1000 < now
    ensures Scan(Sweep(log, t), f, now) == Scan(log, f, now)
    ensures forall limit: nat :: Newest(Sweep(log, t), f, now, limit) == Newest(log, f, now, limit)
  {
    var swept := Sweep(log, t);
    ScanOfSwept(log, t, f, now, NextId(log));
    assert NextId(swept) <= NextId(log);
    ScanSkips(swept, f, now, NextId(swept), NextId(log));
  }

  /** That instant bound is exact: the clock must have passed the sweep's own, truncated, instant. */
  lemma SweepInvisibleIff(t: Nanos, now: Nanos)
    ensures (forall log: Log, f: Filter :: !f.includeExpired ==> Scan(Sweep(log, t), f, now) == Scan(log, f, now))
      <==> ToMicros(t) * 1000 < now
  {
    if ToMicros(t) * 1000 < now {
      forall log: Log, f: Filter | !f.includeExpired ensures Scan(Sweep(log, t), f, now) == Scan(log, f, now) {
        SweepIsInvisible(log, t, f, now);
      }
    } else {
      var s := Stored(None, "", "", "", Payload(None, ""), 0, Some(ToMicros(t)), None);
      var log: Log := map[1 := s];
      var f := Filter(None, None, None, None, None, false);
      assert 1 in log && NextId(log) == 2;
      ScanTop(log, f, now, 1);
      assert Row(1, s) in Scan(log, f, now);
      assert Sweep(log, t) == map[];
      ScanExact(map[], f, now, NextId(map[]));
      assert Row(1, s) !in Scan(Sweep(log, t), f, now);
    }
  }

  // ---- Whole runs ----

  datatype Op = Add(entry: Entry, at: Nanos) | SweepAt(at: Nanos)

  function Apply(log: Log, op: Op): Log {
    match op
    case Add(entry, at) => Appended(log, FromEntry(entry, at))
    case SweepAt(at) => Sweep(log, at)
  }

  function Run(ops: seq<Op>): Log {
    if ops == [] then map[] else Apply(Run(ops[..|ops| - 1]), ops[|ops| - 1])
  }

  function WithoutSweeps(ops: seq<Op>): seq<Op> {
    if ops == [] then []
    else WithoutSweeps(ops[..|ops| - 1]) + if ops[|ops| - 1].Add? then [ops[|ops| - 1]] else []
  }

  // The rows without their ids, which sweeping does change.
  function Contents(rows: seq<Row>): seq<Stored> {
    if rows == [] then [] else Contents(rows[..|rows| - 1]) + [rows[|rows| - 1].stored]
  }

  lemma ContentsOfAppended(log: Log, s: Stored, f: Filter, now: Nanos)
    ensures Contents(Scan(Appended(log, s), f, now)) == Contents(Scan(log, f, now)) + if Matches(f, s, now) then [s] else []
  {
    var n, after := NextId(log), Appended(log, s);
    NextIdAppended(log, s);
    SameBelow(log, after, f, now, n);
    ScanTop(after, f, now, n);
    var below := Scan(log, f, now);
    assert (below + [Row(n, s)])[..|below|] == below;
  }

  lemma {:induction false} SameBelow(a: Log, b: Log, f: Filter, now: Nanos, n: nat)
    requires forall id :: id < n ==> (id in a <==> id in b) && (id in a ==> a[id] == b[id])
    ensures ScanBelow(a, f, now, n) == ScanBelow(b, f, now, n)
  {
    if n > 0 {
      SameBelow(a, b, f, now, n - 1);
    }
  }

  /**
    Over any run of appends and sweeps, what a filtered scan finds later is what it would have
    found had no sweep ever run, row for row and in the same order.
   */
  lemma {:induction false} SweepsLeaveNoTrace(ops: seq<Op>, f: Filter, now: Nanos)
    requires !f.includeExpired
    requires forall op :: op in ops && op.SweepAt? ==> ToMicros(op.at) * 1000 < now
    ensures Contents(Scan(Run(ops), f, now)) == Contents(Scan(Run(WithoutSweeps(ops)), f, now))
  {
    if ops != [] {
      var init, last := ops[..|ops| - 1], ops[|ops| - 1];
      SweepsLeaveNoTrace(init, f, now);
      assert last in ops;
      match last {
        case Add(entry, at) =>
          var plain := WithoutSweeps(init);
          ContentsOfAppended(Run(init), FromEntry(entry, at), f, now);
          ContentsOfAppended(Run(plain), FromEntry(entry, at), f, now);
          assert (plain + [last])[..|plain|] == plain;
        case SweepAt(at) =>
          SweepIsInvisible(Run(init), at, f, now);
          assert WithoutSweeps(init) + [] == WithoutSweeps(init);
      }
    }
  }

  /** Ids are not monotonic: the next one falls back exactly when the newest row was swept. */
  lemma NextIdAfterSweep(log: Log, t: Nanos)
    requires log != map[] && 0 !in log
    ensures NextId(Sweep(log, t)) < NextId(log) <==> Swept(log[NextId(log) - 1], t)
    ensures NextId(Sweep(log, t)) <= NextId(log)
  {
    var swept, last := Sweep(log, t), NextId(log) - 1;
    if Swept(log[last], t) {
      if swept != map[] {
        assert NextId(swept) - 1 in swept;
      }
    } else {
      assert last in swept;
    }
  }
}
