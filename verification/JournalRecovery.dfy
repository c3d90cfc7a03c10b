/**
  Zombie reconciliation: one pass after a restart, or any number of passes that crashed
  midway followed by one that did not, gives every interrupted run one failure row.
 */
module JournalRecovery {
  import opened Wrappers
  import opened Graphs
  import opened Journal

  predicate IsTerminal(eventType: string) {
    eventType == "workflow_completed" || eventType == "workflow_failed" || eventType == "workflow_cancelled"
  }

  predicate Starts(s: Stored, run: RunId) {
    s.runId == Some(run) && s.eventType == "workflow_started"
  }

  predicate Ends(s: Stored, run: RunId) {
    s.runId == Some(run) && IsTerminal(s.eventType)
  }

  ghost function StartedRuns(log: Log): set<RunId> {
    set id | id in log && log[id].runId.Some? && Starts(log[id], log[id].runId.value) :: log[id].runId.value
  }

  ghost function EndedRuns(log: Log): set<RunId> {
    set id | id in log && log[id].runId.Some? && Ends(log[id], log[id].runId.value) :: log[id].runId.value
  }

  // Runs that started and never ended.
  ghost function Zombies(log: Log): set<RunId> {
    StartedRuns(log) - EndedRuns(log)
  }

  ghost function StartIds(log: Log, run: RunId): set<nat> {
    set id | id in log && Starts(log[id], run)
  }

  ghost function FirstStart(log: Log, run: RunId): nat
    requires run in StartedRuns(log)
  {
    var i :| i in log && log[i].runId.Some? && Starts(log[i], log[i].runId.value) && log[i].runId.value == run;
    assert i in StartIds(log, run);
    Min(StartIds(log, run))
  }

  const RECONCILED := Payload(None, "{\"error\":\"System restart — workflow was interrupted\",\"reconciled\":true}")

  function FailureEntry(run: RunId, session: string, namespace: string): Entry {
    Entry(Some(run), session, namespace, "workflow_failed", RECONCILED, None, None)
  }

  // The failure a zombie gets carries the session and namespace of its first start.
  ghost function FailureFor(log: Log, run: RunId): Entry
    requires run in StartedRuns(log)
  {
    var first := FirstStart(log, run);
    StartIsStored(log, run);
    FailureEntry(run, log[first].session, log[first].namespace)
  }

  lemma StartIsStored(log: Log, run: RunId)
    requires run in StartedRuns(log)
    ensures FirstStart(log, run) in log && Starts(log[FirstStart(log, run)], run)
    ensures forall id :: id in log && Starts(log[id], run) ==> FirstStart(log, run) <= id
  {
    assert forall id :: id in log && Starts(log[id], run) ==> id in StartIds(log, run);
  }

  ghost predicate Pass(log: Log, order: seq<RunId>) {
    Distinct(order) && Known(log, order) && forall run :: run in order ==> run in Zombies(log)
  }

  ghost predicate Known(log: Log, order: seq<RunId>) {
    forall i :: 0 <= i < |order| ==> order[i] in StartedRuns(log)
  }

  // The failures for these runs, in this order, at these instants.
  ghost function FailureRows(log: Log, order: seq<RunId>, times: seq<Nanos>): (rows: seq<Stored>)
    requires |times| == |order| && Known(log, order)
    ensures |rows| == |order|
    ensures forall i :: 0 <= i < |order| ==> rows[i] == FromEntry(FailureFor(log, order[i]), times[i])
  {
    seq(|order|, i requires 0 <= i < |order| => FromEntry(FailureFor(log, order[i]), times[i]))
  }

  ghost function Failed(log: Log, order: seq<RunId>, times: seq<Nanos>): Log
    requires |times| == |order| && Known(log, order)
  {
    AppendAll(log, FailureRows(log, order, times))
  }

  lemma StartsSame(a: Log, b: Log, run: RunId)
    requires run in StartedRuns(a) && StartIds(a, run) == StartIds(b, run)
    requires forall id :: id in a ==> id in b && a[id] == b[id]
    ensures run in StartedRuns(b) && FirstStart(a, run) == FirstStart(b, run) && FailureFor(a, run) == FailureFor(b, run)
  {
    StartIsStored(a, run);
    assert FirstStart(a, run) in b && Starts(b[FirstStart(a, run)], run);
    StartIsStored(b, run);
    assert FirstStart(b, run) in StartIds(b, run);
  }

  lemma FailureIsNoStart(log: Log, failed: RunId, at: Nanos, run: RunId)
    requires failed in StartedRuns(log)
    ensures !Starts(FromEntry(FailureFor(log, failed), at), run)
  {
  }

  /** A zombie: some row starts the run, and none completes, fails or cancels it. */
  lemma ZombieIff(log: Log, run: RunId)
    ensures run in Zombies(log)
       <==> && (exists id :: id in log && log[id].runId == Some(run) && log[id].eventType == "workflow_started")
            && (forall id :: id in log && log[id].runId == Some(run) ==>
                  log[id].eventType !in {"workflow_completed", "workflow_failed", "workflow_cancelled"})
  {
    StartedIff(log, run);
    if id :| id in log && Starts(log[id], run) {
      assert id in StartIds(log, run);
    }
    if StartIds(log, run) != {} {
      var id :| id in StartIds(log, run);
      assert Starts(log[id], run);
    }
    forall id | id in log && log[id].runId == Some(run)
      ensures Ends(log[id], run) <==> log[id].eventType in {"workflow_completed", "workflow_failed", "workflow_cancelled"}
    {
    }
  }

  /** What a zombie gets: a failure that never expires, under the run's first start's session and namespace. */
  lemma FailureIs(log: Log, run: RunId, first: nat, at: Nanos)
    requires first in log && Starts(log[first], run)
    requires forall id :: id in log && Starts(log[id], run) ==> first <= id
    ensures run in StartedRuns(log)
    ensures var row := FromEntry(FailureFor(log, run), at);
      && row.runId == Some(run) && row.eventType == "workflow_failed"
      && row.session == log[first].session && row.namespace == log[first].namespace
      && row.createdAt == at / 1000 && row.validTo == None && row.key == None
  {
    assert log[first].runId.value == run;
    StartIsStored(log, run);
    assert FirstStart(log, run) == first;
  }

  // A failure row starts nothing.
  lemma FailuresStartNothing(log: Log, order: seq<RunId>, times: seq<Nanos>, run: RunId)
    requires |times| == |order| && Known(log, order)
    ensures StartIds(Failed(log, order, times), run) == StartIds(log, run)
  {
    hide AppendAll, NextId, FailureFor;
    AppendAllExtends(log, FailureRows(log, order, times));
    var after, n := Failed(log, order, times), NextId(log);
    forall id | id in after && id !in log ensures !Starts(after[id], run) {
      assert after[id] == FailureRows(log, order, times)[id - n];
      FailureIsNoStart(log, order[id - n], times[id - n], run);
    }
    assert forall id :: id in log ==> after[id] == log[id];
  }

  lemma StartedSame(log: Log, order: seq<RunId>, times: seq<Nanos>)
    requires |times| == |order| && Known(log, order)
    ensures StartedRuns(Failed(log, order, times)) == StartedRuns(log)
  {
    var after := Failed(log, order, times);
    forall run ensures run in StartedRuns(after) <==> run in StartedRuns(log) {
      FailuresStartNothing(log, order, times, run);
      StartedIff(after, run);
      StartedIff(log, run);
    }
  }

  lemma StartedIff(log: Log, run: RunId)
    ensures run in StartedRuns(log) <==> StartIds(log, run) != {}
    ensures run in EndedRuns(log) <==> exists id :: id in log && Ends(log[id], run)
  {
    if run in StartedRuns(log) {
      StartIsStored(log, run);
      assert FirstStart(log, run) in StartIds(log, run);
    }
    if StartIds(log, run) != {} {
      var id :| id in StartIds(log, run);
      assert log[id].runId.value == run;
    }
    if id :| id in log && Ends(log[id], run) {
      assert log[id].runId.value == run;
    }
  }

  // ---- Sweeping and reconciliation ----

  ghost predicate SomeStartLeft(log: Log, run: RunId, t: Nanos) {
    exists id :: id in log && Starts(log[id], run) && !Swept(log[id], t)
  }

  ghost predicate SomeEndLeft(log: Log, run: RunId, t: Nanos) {
    exists id :: id in log && Ends(log[id], run) && !Swept(log[id], t)
  }

  lemma SweptRuns(log: Log, t: Nanos, run: RunId)
    ensures run in StartedRuns(Sweep(log, t)) <==> SomeStartLeft(log, run, t)
    ensures run in EndedRuns(Sweep(log, t)) <==> SomeEndLeft(log, run, t)
  {
    var swept := Sweep(log, t);
    StartedIff(swept, run);
    if SomeStartLeft(log, run, t) {
      var id :| id in log && Starts(log[id], run) && !Swept(log[id], t);
      assert id in StartIds(swept, run);
    }
    if StartIds(swept, run) != {} {
      var id :| id in StartIds(swept, run);
      assert Starts(log[id], run);
    }
    if SomeEndLeft(log, run, t) {
      var id :| id in log && Ends(log[id], run) && !Swept(log[id], t);
      assert id in swept && Ends(swept[id], run);
    }
  }

  /**
    What a sweep may remove without a boot noticing: a run that ended must keep an end or lose
    every start, one that did not must keep a start.  Otherwise an ended run is failed, or an
    interrupted one is not.
   */
  lemma SweepKeepsZombiesIff(log: Log, t: Nanos)
    ensures Zombies(Sweep(log, t)) == Zombies(log)
      <==> forall run :: run in StartedRuns(log) ==>
             if run in EndedRuns(log) then SomeEndLeft(log, run, t) || !SomeStartLeft(log, run, t)
             else SomeStartLeft(log, run, t)
  {
    forall run
      ensures run in Zombies(Sweep(log, t)) <==> SomeStartLeft(log, run, t) && !SomeEndLeft(log, run, t)
      ensures SomeStartLeft(log, run, t) ==> run in StartedRuns(log)
      ensures SomeEndLeft(log, run, t) ==> run in EndedRuns(log)
    {
      SweptRuns(log, t, run);
      StartedIff(log, run);
    }
  }

  /** When no row that starts or ends a run carries an expiry, sweeps and boots do not interfere. */
  lemma LastingLifecyclesSurvive(log: Log, t: Nanos)
    requires forall id :: id in log && (log[id].eventType == "workflow_started" || IsTerminal(log[id].eventType))
               ==> log[id].validTo.None?
    ensures Zombies(Sweep(log, t)) == Zombies(log)
  {
    forall run | run in StartedRuns(log)
      ensures SomeStartLeft(log, run, t) && (run in EndedRuns(log) ==> SomeEndLeft(log, run, t))
    {
      StartIsStored(log, run);
      assert !Swept(log[FirstStart(log, run)], t);
      StartedIff(log, run);
      if run in EndedRuns(log) {
        var id :| id in log && Ends(log[id], run);
        assert !Swept(log[id], t);
      }
    }
    SweepKeepsZombiesIff(log, t);
  }

  // What is in the log after a pass: an old row, or one of the failures.
  lemma RowAfter(log: Log, order: seq<RunId>, times: seq<Nanos>, id: nat)
    requires |times| == |order| && Pass(log, order) && id in Failed(log, order, times) && id !in log
    ensures var i := id - NextId(log); 0 <= i < |order| && Failed(log, order, times)[id].runId == Some(order[i])
  {
    AppendAllExtends(log, FailureRows(log, order, times));
  }

  lemma HandledRunEnds(log: Log, order: seq<RunId>, times: seq<Nanos>, i: nat)
    requires |times| == |order| && Pass(log, order) && i < |order|
    ensures var id := NextId(log) + i; id in Failed(log, order, times) && Ends(Failed(log, order, times)[id], order[i])
  {
    AppendAllExtends(log, FailureRows(log, order, times));
    var id := NextId(log) + i;
    assert Failed(log, order, times)[id] == FailureRows(log, order, times)[id - NextId(log)];
  }

  lemma EndsAfter(log: Log, order: seq<RunId>, times: seq<Nanos>, run: RunId)
    requires |times| == |order| && Pass(log, order)
    ensures run in EndedRuns(Failed(log, order, times)) <==> run in EndedRuns(log) || run in order
  {
    var after := Failed(log, order, times);
    AppendAllExtends(log, FailureRows(log, order, times));
    StartedIff(after, run);
    StartedIff(log, run);
    if run in order {
      var i :| 0 <= i < |order| && order[i] == run;
      HandledRunEnds(log, order, times, i);
    } else if id :| id in log && Ends(log[id], run) {
      assert Ends(after[id], run);
    } else if id :| id in after && Ends(after[id], run) {
      RowAfter(log, order, times, id);
    }
  }

  /** After a pass, exactly the runs it handled are zombies no more. */
  lemma ZombiesAfter(log: Log, order: seq<RunId>, times: seq<Nanos>)
    requires |times| == |order| && Pass(log, order)
    ensures Zombies(Failed(log, order, times)) == Zombies(log) - set r | r in order
  {
    StartedSame(log, order, times);
    forall run ensures run in EndedRuns(Failed(log, order, times)) <==> run in EndedRuns(log) || run in order {
      EndsAfter(log, order, times, run);
    }
  }

  lemma PassesJoin(log: Log, first: seq<RunId>, times: seq<Nanos>, second: seq<RunId>)
    requires |times| == |first| && Pass(log, first) && Pass(Failed(log, first, times), second)
    ensures Pass(log, first + second)
  {
    ZombiesAfter(log, first, times);
    forall run | run in second ensures run in Zombies(log) && run !in first {
      assert run in Zombies(Failed(log, first, times));
    }
    DistinctJoin(first, second);
    var order := first + second;
    forall i | 0 <= i < |order| ensures order[i] in StartedRuns(log) {
      assert i >= |first| ==> order[i] in second;
    }
  }

  lemma DistinctJoin<T>(a: seq<T>, b: seq<T>)
    requires Distinct(a) && Distinct(b) && forall x :: x in b ==> x !in a
    ensures Distinct(a + b)
  {
    var whole := a + b;
    forall i, j | 0 <= i < j < |whole| ensures whole[i] != whole[j] {
      if i < |a| <= j {
        assert whole[j] in b && whole[i] in a;
      }
    }
  }

  lemma FailureUnmoved(log: Log, order: seq<RunId>, times: seq<Nanos>, run: RunId)
    requires |times| == |order| && Pass(log, order) && run in StartedRuns(log)
    ensures run in StartedRuns(Failed(log, order, times))
    ensures FailureFor(Failed(log, order, times), run) == FailureFor(log, run)
  {
    AppendAllExtends(log, FailureRows(log, order, times));
    FailuresStartNothing(log, order, times, run);
    StartsSame(log, Failed(log, order, times), run);
  }

  lemma RowsJoin(log: Log, first: seq<RunId>, t1: seq<Nanos>, second: seq<RunId>, t2: seq<Nanos>)
    requires |t1| == |first| && |t2| == |second| && Pass(log, first) && Pass(Failed(log, first, t1), second)
    requires |t1 + t2| == |first + second| && Known(log, first + second)
    ensures FailureRows(log, first, t1) + FailureRows(Failed(log, first, t1), second, t2)
         == FailureRows(log, first + second, t1 + t2)
  {
    var mid, order := Failed(log, first, t1), first + second;
    assert Known(log, second) by {
      assert forall i :: 0 <= i < |second| ==> order[|first| + i] == second[i];
    }
    forall i | 0 <= i < |second| ensures FailureFor(mid, second[i]) == FailureFor(log, second[i]) {
      FailureUnmoved(log, first, t1, second[i]);
    }
  }

  /** Two passes are one: the second continues where the first stopped. */
  lemma PassesCompose(log: Log, first: seq<RunId>, t1: seq<Nanos>, second: seq<RunId>, t2: seq<Nanos>)
    requires |t1| == |first| && |t2| == |second| && Pass(log, first) && Pass(Failed(log, first, t1), second)
    ensures Pass(log, first + second)
    ensures Failed(Failed(log, first, t1), second, t2) == Failed(log, first + second, t1 + t2)
  {
    PassesJoin(log, first, t1, second);
    RowsJoin(log, first, t1, second, t2);
    AppendAllTwice(log, FailureRows(log, first, t1), FailureRows(Failed(log, first, t1), second, t2));
  }

  // ---- Restart after restart ----

  // What one boot managed to append before it crashed, or before it was done.
  datatype Boot = Boot(order: seq<RunId>, times: seq<Nanos>)

  ghost predicate Boots(log: Log, boots: seq<Boot>)
    decreases |boots|
  {
    boots == [] ||
    (var b := boots[0];
     |b.times| == |b.order| && Pass(log, b.order) && Boots(Failed(log, b.order, b.times), boots[1..]))
  }

  ghost function AfterBoots(log: Log, boots: seq<Boot>): Log
    requires Boots(log, boots)
    decreases |boots|
  {
    if boots == [] then log else AfterBoots(Failed(log, boots[0].order, boots[0].times), boots[1..])
  }

  function Orders(boots: seq<Boot>): seq<RunId> {
    if boots == [] then [] else boots[0].order + Orders(boots[1..])
  }

  function Instants(boots: seq<Boot>): seq<Nanos> {
    if boots == [] then [] else boots[0].times + Instants(boots[1..])
  }

  /** Any number of boots, each stopping where it may, does what one uninterrupted boot would. */
  lemma {:induction false} BootsAreOnePass(log: Log, boots: seq<Boot>)
    requires Boots(log, boots)
    ensures |Instants(boots)| == |Orders(boots)| && Pass(log, Orders(boots))
    ensures AfterBoots(log, boots) == Failed(log, Orders(boots), Instants(boots))
    decreases |boots|
  {
    if boots != [] {
      var b, rest := boots[0], boots[1..];
      BootsAreOnePass(Failed(log, b.order, b.times), rest);
      PassesCompose(log, b.order, b.times, Orders(rest), Instants(rest));
    }
  }

  /**
    Once a boot has got through, each zombie of the first log has exactly one failure row, in
    some order, every old row is as it was.
   */
  lemma EachZombieFailsOnce(log: Log, boots: seq<Boot>) returns (order: seq<RunId>, times: seq<Nanos>)
    requires Boots(log, boots) && Zombies(AfterBoots(log, boots)) == {}
    ensures Distinct(order) && |times| == |order| && (forall run :: run in order <==> run in Zombies(log))
    ensures Known(log, order) && Extends(log, AfterBoots(log, boots), FailureRows(log, order, times))
  {
    order, times := Orders(boots), Instants(boots);
    BootsAreOnePass(log, boots);
    AppendAllExtends(log, FailureRows(log, order, times));
    ZombiesAfter(log, order, times);
    NothingLeft(Zombies(log), set r | r in order);
  }

  lemma NothingLeft(a: set<RunId>, b: set<RunId>)
    requires a - b == {}
    ensures forall x :: x in a ==> x in b
  {
    forall x | x in a ensures x in b {
      assert x in b || x in a - b;
    }
  }

  // ---- `reconcile_zombies` ----

  function Readings(clock: nat -> Nanos, n: nat): (times: seq<Nanos>)
    ensures |times| == n
  {
    seq(n, i requires 0 <= i < n => clock(i))
  }

  ghost predicate FirstsBelow(log: Log, started: map<RunId, (string, string)>, bound: nat) {
    forall run :: run in started <==> run in StartedRuns(log) && FirstStart(log, run) < bound
  }

  ghost predicate FirstsAre(log: Log, started: map<RunId, (string, string)>) {
    forall run :: run in started && run in StartedRuns(log) ==>
      var id := FirstStart(log, run);
      id in log && started[run] == (log[id].session, log[id].namespace)
  }

  // The first phase: one ascending scan, the first start of a run wins.
  method ScanRuns(log: Log) returns (started: map<RunId, (string, string)>, ended: set<RunId>)
    ensures started.Keys == StartedRuns(log) && FirstsAre(log, started)
    ensures ended == EndedRuns(log)
  {
    started, ended := map[], {};
    var rest := log.Keys;
    ghost var bound: nat := 0;
    while rest != {}
      invariant forall id :: id in rest <==> id in log && id >= bound
      invariant FirstsBelow(log, started, bound) && FirstsAre(log, started)
      invariant forall run :: run in ended <==> exists id :: id in log && id < bound && Ends(log[id], run)
      decreases rest
    {
      var id := Min(rest);
      rest := rest - {id};
      var s := log[id];
      if s.runId.Some? {
        var run := s.runId.value;
        if s.eventType == "workflow_started" {
          FirstStep(log, started, bound, id, run);
          if run !in started {
            started := started[run := (s.session, s.namespace)];
          }
        } else {
          NoStep(log, started, bound, id);
          if IsTerminal(s.eventType) {
            ended := ended + {run};
          }
        }
      } else {
        NoStep(log, started, bound, id);
      }
      bound := id + 1;
    }
    forall run ensures (run in started <==> run in StartedRuns(log)) && (run in ended <==> run in EndedRuns(log)) {
      StartedIff(log, run);
      if run in StartedRuns(log) {
        StartIsStored(log, run);
      }
    }
  }

  lemma FirstStep(log: Log, started: map<RunId, (string, string)>, bound: nat, id: nat, run: RunId)
    requires FirstsBelow(log, started, bound) && FirstsAre(log, started)
    requires id in log && id >= bound && Starts(log[id], run) && forall k :: k in log && k >= bound ==> id <= k
    ensures var after := if run in started then started else started[run := (log[id].session, log[id].namespace)];
      FirstsBelow(log, after, id + 1) && FirstsAre(log, after)
  {
    assert run in StartedRuns(log) by {
      assert log[id].runId.value == run;
    }
    StartIsStored(log, run);
    var after := if run in started then started else started[run := (log[id].session, log[id].namespace)];
    forall r ensures r in after <==> r in StartedRuns(log) && FirstStart(log, r) < id + 1 {
      if r in StartedRuns(log) {
        StartIsStored(log, r);
      }
    }
  }

  lemma NoStep(log: Log, started: map<RunId, (string, string)>, bound: nat, id: nat)
    requires FirstsBelow(log, started, bound) && id in log && id >= bound
    requires log[id].runId.Some? ==> log[id].eventType != "workflow_started"
    requires forall k :: k in log && k >= bound ==> id <= k
    ensures FirstsBelow(log, started, id + 1)
  {
    forall r ensures r in started <==> r in StartedRuns(log) && FirstStart(log, r) < id + 1 {
      if r in StartedRuns(log) {
        StartIsStored(log, r);
      }
    }
  }

  // The failures to append, in the hash map's arbitrary order.
  method CollectZombies(log: Log) returns (zombies: seq<Entry>, ghost order: seq<RunId>)
    ensures Distinct(order) && (forall run :: run in order <==> run in Zombies(log))
    ensures |zombies| == |order| && forall i :: 0 <= i < |order| ==> order[i] in StartedRuns(log) && zombies[i] == FailureFor(log, order[i])
  {
    var started, ended := ScanRuns(log);
    zombies, order := [], [];
    var rest := started.Keys;
    while rest != {}
      invariant rest <= started.Keys
      invariant Distinct(order) && (forall run :: run in order <==> run in started.Keys - rest && run !in ended)
      invariant |zombies| == |order|
      invariant forall i :: 0 <= i < |order| ==> order[i] in StartedRuns(log) && zombies[i] == FailureFor(log, order[i])
      decreases rest
    {
      var run :| run in rest;
      rest := rest - {run};
      if run !in ended {
        zombies := zombies + [FailureEntry(run, started[run].0, started[run].1)];
        order := order + [run];
      }
    }
  }

  /**
    `reconcile_zombies`, stopping after `budget` appends if the process dies there.  Run to the
    end it returns the number of zombies and leaves none; stopped, it has done a first part.
   */
  method ReconcileZombies(journal: RedbJournal, clock: nat -> Nanos, budget: nat)
    returns (count: nat, done: bool, ghost order: seq<RunId>)
    requires journal.Valid()
    modifies journal
    ensures journal.Valid() && Pass(old(journal.events), order)
    ensures journal.events == Failed(old(journal.events), order, Readings(clock, |order|))
    ensures count == |Zombies(old(journal.events))|
    ensures done <==> count <= budget
    ensures done ==> Zombies(journal.events) == {}
    ensures !done ==> |order| == budget
  {
    ghost var log := journal.events;
    var zombies;
    ghost var all;
    zombies, all := CollectZombies(journal.events);
    count := |zombies|;
    DistinctCount(all, Zombies(log));
    order := [];
    for i := 0 to |zombies|
      invariant journal.Valid() && i <= budget && order == all[..i] && Pass(log, order)
      invariant journal.events == Failed(log, order, Readings(clock, i))
    {
      if i == budget {
        return count, false, order;
      }
      var id := journal.Append(zombies[i], clock(i));
      assert all[i] in all;
      OneMore(log, all, clock, i);
      order := all[..i + 1];
    }
    done := true;
    assert all[..|all|] == all;
    ZombiesAfter(log, all, Readings(clock, |all|));
  }

  lemma OneMore(log: Log, all: seq<RunId>, clock: nat -> Nanos, i: nat)
    requires Pass(log, all) && i < |all|
    ensures Pass(log, all[..i]) && Pass(log, all[..i + 1])
    ensures Failed(log, all[..i + 1], Readings(clock, i + 1))
         == Appended(Failed(log, all[..i], Readings(clock, i)), FromEntry(FailureFor(log, all[i]), clock(i)))
  {
    forall j | 0 <= j < i + 1 ensures all[j] in Zombies(log) {
      assert all[j] in all;
    }
    var rows := FailureRows(log, all[..i + 1], Readings(clock, i + 1));
    assert rows[..i] == FailureRows(log, all[..i], Readings(clock, i));
  }

  lemma {:induction false} DistinctCount<T>(order: seq<T>, s: set<T>)
    requires Distinct(order) && forall x :: x in order <==> x in s
    ensures |order| == |s|
    decreases |order|
  {
    if order == [] {
      assert s == {};
    } else {
      var k := |order| - 1;
      assert order == order[..k] + [order[k]];
      DistinctCount(order[..k], s - {order[k]});
    }
  }
}
