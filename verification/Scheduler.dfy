/**
  The durable timer scheduler: one table of timers by fire time and id, one table of fire
  times by id, and the transactions that change them.

  Times are milliseconds since the epoch.  Cron expressions are read by a parameter: the next
  instant after a given one, or nothing.
 */
module Scheduler {
  import opened Wrappers

  type JobId = nat
  type Millis = int

  datatype TimerMode = Once | Fixed(delayMs: nat) | Cron(expr: string)

  datatype Timer = Timer(id: JobId, workflow: string, namespace: string, input: string, mode: TimerMode)

  type Key = (nat, JobId)

  datatype Tables = Tables(timers: map<Key, Timer>, byId: map<JobId, nat>)

  type CronReader = (string, Millis) -> Option<Millis>

  const MIN_FIXED_DELAY_MS: nat := 1000
  const MAX_FIXED_DELAY_MS: nat := 7 * 24 * 3600 * 1000

  // `timestamp_millis().max(0)`
  function FireTime(t: Millis): nat {
    if t < 0 then 0 else t
  }

  // ---- What each transaction does to the tables ----

  function Inserted(t: Tables, timer: Timer, fireAt: nat): Tables {
    Tables(t.timers[(fireAt, timer.id) := timer], t.byId[timer.id := fireAt])
  }

  function Cancelled(t: Tables, id: JobId): Tables {
    if id in t.byId then Tables(t.timers - {(t.byId[id], id)}, t.byId - {id}) else t
  }

  function Rescheduled(t: Tables, oldFireAt: nat, timer: Timer, next: Option<nat>): Tables {
    var left := t.timers - {(oldFireAt, timer.id)};
    match next
    case Some(at) => Tables(left[(at, timer.id) := timer], t.byId[timer.id := at])
    case None => Tables(left, t.byId - {timer.id})
  }

  // `next_fire_after`
  function NextFireAfter(cron: CronReader, mode: TimerMode, now: Millis): Option<nat> {
    match mode
    case Once => None
    case Fixed(delayMs) => Some(FireTime(now + delayMs))
    case Cron(expr) => if cron(expr, now).Some? then Some(FireTime(cron(expr, now).value)) else None
  }

  /** The two tables say the same: an id is at a fire time in one iff it is in the other. */
  ghost predicate Agree(t: Tables) {
    && (forall id :: id in t.byId ==> (t.byId[id], id) in t.timers)
    && (forall k :: k in t.timers ==> k.1 in t.byId && t.byId[k.1] == k.0 && t.timers[k].id == k.1)
  }

  /** Inserting keeps the agreement exactly when the id is not stored at another time. */
  lemma InsertAgreesIff(t: Tables, timer: Timer, fireAt: nat)
    requires Agree(t)
    ensures Agree(Inserted(t, timer, fireAt)) <==> (timer.id in t.byId ==> t.byId[timer.id] == fireAt)
  {
    var after := Inserted(t, timer, fireAt);
    if timer.id in t.byId && t.byId[timer.id] != fireAt {
      assert (t.byId[timer.id], timer.id) in after.timers;
    }
  }

  /** Storing puts the record under its time and id in both tables, and touches nothing else. */
  lemma InsertStores(t: Tables, timer: Timer, runAt: Millis)
    ensures var after, at := Inserted(t, timer, FireTime(runAt)), if runAt >= 0 then runAt else 0;
      && timer.id in after.byId && after.byId[timer.id] == at
      && (at, timer.id) in after.timers && after.timers[(at, timer.id)] == timer
      && (forall id :: id != timer.id ==> (id in after.byId <==> id in t.byId) && (id in t.byId ==> after.byId[id] == t.byId[id]))
      && (forall k :: k != (at, timer.id) ==> (k in after.timers <==> k in t.timers) && (k in t.timers ==> after.timers[k] == t.timers[k]))
  {
  }

  /** Cancelling takes the id out of both tables, and touches nothing else. */
  lemma CancelRemoves(t: Tables, id: JobId)
    requires Agree(t)
    ensures var after := Cancelled(t, id);
      && after.byId.Keys == t.byId.Keys - {id} && (forall other :: other in after.byId ==> after.byId[other] == t.byId[other])
      && (forall k :: k in after.timers <==> k in t.timers && k.1 != id)
      && (forall k :: k in after.timers ==> after.timers[k] == t.timers[k])
  {
  }

  /** Rescheduling moves the record from its old time to the new one, or takes it out. */
  lemma RescheduleMoves(t: Tables, oldFireAt: nat, timer: Timer, next: Option<nat>)
    requires Agree(t) && timer.id in t.byId && t.byId[timer.id] == oldFireAt && t.timers[(oldFireAt, timer.id)] == timer
    ensures var after := Rescheduled(t, oldFireAt, timer, next);
      && (timer.id in after.byId <==> next != None) && (next != None ==> after.byId[timer.id] == next.value)
      && (forall at: nat :: (at, timer.id) in after.timers <==> next == Some(at))
      && (next != None ==> after.timers[(next.value, timer.id)] == timer)
      && (forall id :: id != timer.id ==> (id in after.byId <==> id in t.byId) && (id in t.byId ==> after.byId[id] == t.byId[id]))
      && (forall k: Key :: k.1 != timer.id ==> (k in after.timers <==> k in t.timers) && (k in t.timers ==> after.timers[k] == t.timers[k]))
  {
  }

  lemma CancelAgrees(t: Tables, id: JobId)
    requires Agree(t)
    ensures Agree(Cancelled(t, id)) && id !in Cancelled(t, id).byId
  {
  }

  /**
    Rescheduling from a remembered fire time keeps the agreement exactly when the id has not
    moved meanwhile: it is gone, still there, or already where it is going.
   */
  lemma RescheduleAgreesIff(t: Tables, oldFireAt: nat, timer: Timer, next: Option<nat>)
    requires Agree(t)
    ensures Agree(Rescheduled(t, oldFireAt, timer, next))
      <==> (timer.id in t.byId && t.byId[timer.id] != oldFireAt ==> next == Some(t.byId[timer.id]))
  {
    var after, id := Rescheduled(t, oldFireAt, timer, next), timer.id;
    if id in t.byId && t.byId[id] != oldFireAt {
      assert (t.byId[id], id) in after.timers;
    }
  }

  // ---- The scheduler ----

  ghost predicate IsDue(t: Tables, entry: (nat, Timer), now: nat) {
    entry.0 <= now && (entry.0, entry.1.id) in t.timers && t.timers[(entry.0, entry.1.id)] == entry.1
  }

  // Key order of the table: fire time, then id.
  predicate Before(a: Key, b: Key) {
    a.0 < b.0 || (a.0 == b.0 && a.1 < b.1)
  }

  predicate IsFirst(keys: set<Key>, k: Key) {
    k in keys && forall other :: other in keys ==> other == k || Before(k, other)
  }

  lemma {:induction false} FirstExists(keys: set<Key>)
    requires keys != {}
    ensures exists k :: IsFirst(keys, k)
    decreases |keys|
  {
    var x :| x in keys;
    var rest := keys - {x};
    if rest == {} {
      assert keys == {x};
      assert IsFirst(keys, x);
    } else {
      FirstExists(rest);
      var k :| IsFirst(rest, k);
      assert keys == rest + {x};
      assert IsFirst(keys, if Before(x, k) then x else k);
    }
  }

  ghost predicate InKeyOrder(due: seq<(nat, Timer)>) {
    forall i, j :: 0 <= i < j < |due| ==> Before((due[i].0, due[i].1.id), (due[j].0, due[j].1.id))
  }

  datatype SchedulerError = Invalid(reason: string)

  class RedbScheduler {
    var timers: map<Key, Timer>
    var byId: map<JobId, nat>

    ghost function State(): Tables
      reads this
    {
      Tables(timers, byId)
    }

    constructor ()
      ensures State() == Tables(map[], map[]) && Agree(State())
    {
      timers, byId := map[], map[];
    }

    method InsertNew(timer: Timer, runAt: Millis)
      modifies this
      ensures State() == Inserted(old(State()), timer, FireTime(runAt))
    {
      var fireAt := FireTime(runAt);
      timers := timers[(fireAt, timer.id) := timer];
      byId := byId[timer.id := fireAt];
    }

    method ScheduleOnce(timer: Timer, runAt: Millis) returns (r: Result<JobId, SchedulerError>)
      modifies this
      ensures r.Ok? <==> timer.workflow != "" && timer.namespace != ""
      ensures r.Ok? ==> r.value == timer.id && State() == Inserted(old(State()), timer.(mode := Once), FireTime(runAt))
      ensures r.Err? ==> State() == old(State())
    {
      if timer.workflow == "" {
        return Err(Invalid("workflow id is empty"));
      }
      if timer.namespace == "" {
        return Err(Invalid("namespace is empty"));
      }
      InsertNew(timer.(mode := Once), runAt);
      return Ok(timer.id);
    }

    method ScheduleFixed(timer: Timer, delayMs: nat, now: Millis) returns (r: Result<JobId, SchedulerError>)
      modifies this
      ensures r.Ok? <==>
                1_000 <= delayMs <= 604_800_000 && timer.workflow != "" && timer.namespace != ""
      ensures r.Ok? ==> r.value == timer.id
                        && State() == Inserted(old(State()), timer.(mode := Fixed(delayMs)), FireTime(now + delayMs))
      ensures r.Err? ==> State() == old(State())
    {
      if delayMs < MIN_FIXED_DELAY_MS || MAX_FIXED_DELAY_MS < delayMs {
        return Err(Invalid("delay out of range"));
      }
      if timer.workflow == "" {
        return Err(Invalid("workflow id is empty"));
      }
      if timer.namespace == "" {
        return Err(Invalid("namespace is empty"));
      }
      InsertNew(timer.(mode := Fixed(delayMs)), now + delayMs);
      return Ok(timer.id);
    }

    method ScheduleCron(cron: CronReader, timer: Timer, expr: string, now: Millis) returns (r: Result<JobId, SchedulerError>)
      modifies this
      ensures r.Ok? <==> timer.workflow != "" && timer.namespace != "" && cron(expr, now).Some?
      ensures r.Ok? ==> r.value == timer.id
                        && State() == Inserted(old(State()), timer.(mode := Cron(expr)), FireTime(cron(expr, now).value))
      ensures r.Err? ==> State() == old(State())
    {
      if timer.workflow == "" {
        return Err(Invalid("workflow id is empty"));
      }
      if timer.namespace == "" {
        return Err(Invalid("namespace is empty"));
      }
      var runAt := cron(expr, now);
      if runAt.None? {
        return Err(Invalid("cron"));
      }
      InsertNew(timer.(mode := Cron(expr)), runAt.value);
      return Ok(timer.id);
    }

    method Cancel(id: JobId) returns (existed: bool)
      modifies this
      ensures State() == Cancelled(old(State()), id)
      ensures existed <==> id in old(byId)
    {
      existed := id in byId;
      if existed {
        var fireAt := byId[id];
        byId := byId - {id};
        timers := timers - {(fireAt, id)};
      }
    }

    /** Exactly the timers due, in key order. */
    method CollectDue(now: nat) returns (due: seq<(nat, Timer)>)
      requires Agree(State())
      ensures InKeyOrder(due)
      ensures forall entry :: entry in due <==> IsDue(State(), entry, now)
    {
      due := [];
      var rest := set k | k in timers && k.0 <= now;
      ghost var all := rest;
      while rest != {}
        invariant rest <= all && InKeyOrder(due)
        invariant forall entry :: entry in due <==>
                    (entry.0, entry.1.id) in all - rest && timers[(entry.0, entry.1.id)] == entry.1
        invariant forall entry, k :: entry in due && k in rest ==> Before((entry.0, entry.1.id), k)
        decreases rest
      {
        FirstExists(rest);
        var k :| k in rest && IsFirst(rest, k);
        rest := rest - {k};
        var entry := (k.0, timers[k]);
        assert (entry.0, entry.1.id) == k;
        due := due + [entry];
      }
    }

    method Reschedule(oldFireAt: nat, timer: Timer, nextAt: Option<nat>)
      modifies this
      ensures State() == Rescheduled(old(State()), oldFireAt, timer, nextAt)
    {
      timers := timers - {(oldFireAt, timer.id)};
      if nextAt.Some? {
        timers := timers[(nextAt.value, timer.id) := timer];
      }
      match nextAt {
        case Some(at) => byId := byId[timer.id := at];
        case None => byId := byId - {timer.id};
      }
    }

    /** One due timer: left alone if its workflow is missing, else fired and rescheduled or dropped. */
    method FireAndReschedule(cron: CronReader, registered: set<string>, oldFireAt: nat, timer: Timer, now: Millis)
      modifies this
      ensures State() == Handled(old(State()), cron, registered, oldFireAt, timer, now)
    {
      if timer.workflow !in registered {
        return;
      }
      var nextAt := NextFireAfter(cron, timer.mode, now);
      Reschedule(oldFireAt, timer, nextAt);
    }

    /**
      One poll with nothing interleaved.  `clock(0)` is read when the due timers are collected,
      `clock(i + 1)` when the i-th of them is rescheduled.
     */
    method Tick(cron: CronReader, registered: set<string>, clock: nat -> Millis) returns (ghost due: seq<(nat, Timer)>)
      requires Agree(State())
      modifies this
      ensures InKeyOrder(due) && forall entry :: entry in due <==> IsDue(old(State()), entry, FireTime(clock(0)))
      ensures State() == HandledAll(old(State()), cron, registered, due, clock, |due|)
    {
      var entries := CollectDue(FireTime(clock(0)));
      due := entries;
      for i := 0 to |entries|
        invariant State() == HandledAll(old(State()), cron, registered, entries, clock, i)
      {
        FireAndReschedule(cron, registered, entries[i].0, entries[i].1, clock(i + 1));
      }
    }
  }

  function Handled(t: Tables, cron: CronReader, registered: set<string>, oldFireAt: nat, timer: Timer, now: Millis): Tables {
    if timer.workflow !in registered then t
    else Rescheduled(t, oldFireAt, timer, NextFireAfter(cron, timer.mode, now))
  }

  function HandledAll(
      t: Tables, cron: CronReader, registered: set<string>, due: seq<(nat, Timer)>, clock: nat -> Millis, n: nat): Tables
    requires n <= |due|
  {
    if n == 0 then t
    else
      Handled(HandledAll(t, cron, registered, due, clock, n - 1), cron, registered, due[n - 1].0, due[n - 1].1, clock(n))
  }

  // ---- One tick clears the backlog ----

  ghost predicate CronIsLater(cron: CronReader) {
    forall expr, now :: cron(expr, now).Some? ==> cron(expr, now).value > now
  }

  ghost predicate NeverGoesBack(clock: nat -> Millis) {
    forall i, j :: 0 <= i <= j ==> clock(i) <= clock(j)
  }

  // Where one timer is after a tick that had it in its hands at instant `now`, if it was due.
  ghost predicate MovedTo(before: Tables, after: Tables, id: JobId, next: Option<nat>) {
    match next
    case None => id !in after.byId
    case Some(at) =>
      id in before.byId && id in after.byId && after.byId[id] == at
      && (before.byId[id], id) in before.timers && (at, id) in after.timers
      && after.timers[(at, id)] == before.timers[(before.byId[id], id)]
  }

  lemma HandleOne(t: Tables, mid: Tables, entry: (nat, Timer), next: Option<nat>)
    requires Agree(mid) && IsDue(t, entry, entry.0) && Agree(t) && MovedTo(t, mid, entry.1.id, Some(entry.0))
    ensures var after := Rescheduled(mid, entry.0, entry.1, next);
      Agree(after) && MovedTo(t, after, entry.1.id, next)
  {
    RescheduleAgreesIff(mid, entry.0, entry.1, next);
  }

  lemma HandleOther(t: Tables, mid: Tables, entry: (nat, Timer), next: Option<nat>, id: JobId, moved: Option<nat>)
    requires MovedTo(t, mid, id, moved) && id != entry.1.id
    ensures MovedTo(t, Rescheduled(mid, entry.0, entry.1, next), id, moved)
  {
  }

  lemma DueIdsDiffer(t: Tables, due: seq<(nat, Timer)>, i: nat, j: nat)
    requires Agree(t) && InKeyOrder(due) && i < j < |due| && IsDue(t, due[i], due[i].0) && IsDue(t, due[j], due[j].0)
    ensures due[i].1.id != due[j].1.id
  {
    assert Before((due[i].0, due[i].1.id), (due[j].0, due[j].1.id));
  }

  ghost predicate AllDue(t: Tables, due: seq<(nat, Timer)>) {
    InKeyOrder(due) && forall i :: 0 <= i < |due| ==> IsDue(t, due[i], due[i].0)
  }

  ghost predicate HandledAmong(due: seq<(nat, Timer)>, registered: set<string>, n: nat, id: JobId)
    requires n <= |due|
  {
    exists i :: 0 <= i < n && due[i].1.id == id && due[i].1.workflow in registered
  }

  // An id nothing was done for is where it was.
  lemma {:induction false} Untouched(
      t: Tables, cron: CronReader, registered: set<string>, due: seq<(nat, Timer)>, clock: nat -> Millis, n: nat, id: JobId)
    requires Agree(t) && AllDue(t, due) && n <= |due| && !HandledAmong(due, registered, n, id)
    ensures var after := HandledAll(t, cron, registered, due, clock, n);
      if id in t.byId then MovedTo(t, after, id, Some(t.byId[id])) else id !in after.byId
  {
    if n > 0 {
      assert !HandledAmong(due, registered, n - 1, id);
      Untouched(t, cron, registered, due, clock, n - 1, id);
      var e := due[n - 1];
      if e.1.workflow in registered && id in t.byId {
        HandleOther(t, HandledAll(t, cron, registered, due, clock, n - 1), e,
                    NextFireAfter(cron, e.1.mode, clock(n)), id, Some(t.byId[id]));
      }
    }
  }

  ghost predicate Outcomes(
      t: Tables, mid: Tables, cron: CronReader, registered: set<string>, due: seq<(nat, Timer)>, clock: nat -> Millis, n: nat)
    requires n <= |due|
  {
    forall i :: 0 <= i < n && due[i].1.workflow in registered ==>
      MovedTo(t, mid, due[i].1.id, NextFireAfter(cron, due[i].1.mode, clock(i + 1)))
  }

  lemma OutcomesStay(
      t: Tables, mid: Tables, cron: CronReader, registered: set<string>, due: seq<(nat, Timer)>, clock: nat -> Millis, n: nat,
      next: Option<nat>)
    requires Agree(t) && AllDue(t, due) && n < |due| && Outcomes(t, mid, cron, registered, due, clock, n)
    ensures Outcomes(t, Rescheduled(mid, due[n].0, due[n].1, next), cron, registered, due, clock, n)
  {
    forall i | 0 <= i < n && due[i].1.workflow in registered
      ensures MovedTo(t, Rescheduled(mid, due[n].0, due[n].1, next), due[i].1.id,
                      NextFireAfter(cron, due[i].1.mode, clock(i + 1)))
    {
      DueIdsDiffer(t, due, i, n);
      HandleOther(t, mid, due[n], next, due[i].1.id, NextFireAfter(cron, due[i].1.mode, clock(i + 1)));
    }
  }

  lemma OutcomesGrow(
      t: Tables, mid: Tables, cron: CronReader, registered: set<string>, due: seq<(nat, Timer)>, clock: nat -> Millis, n: nat,
      after: Tables)
    requires Agree(t) && AllDue(t, due) && n < |due| && Agree(mid) && Outcomes(t, mid, cron, registered, due, clock, n)
    requires MovedTo(t, mid, due[n].1.id, Some(due[n].0))
    requires after == Handled(mid, cron, registered, due[n].0, due[n].1, clock(n + 1))
    ensures Agree(after) && Outcomes(t, after, cron, registered, due, clock, n + 1)
  {
    if due[n].1.workflow in registered {
      var next := NextFireAfter(cron, due[n].1.mode, clock(n + 1));
      HandleOne(t, mid, due[n], next);
      OutcomesStay(t, mid, cron, registered, due, clock, n, next);
    }
  }

  lemma NotYetHandled(t: Tables, registered: set<string>, due: seq<(nat, Timer)>, n: nat)
    requires Agree(t) && AllDue(t, due) && n < |due|
    ensures !HandledAmong(due, registered, n, due[n].1.id)
  {
    forall i | 0 <= i < n ensures due[i].1.id != due[n].1.id {
      DueIdsDiffer(t, due, i, n);
    }
  }

  lemma StillThere(
      t: Tables, cron: CronReader, registered: set<string>, due: seq<(nat, Timer)>, clock: nat -> Millis, n: nat)
    requires Agree(t) && AllDue(t, due) && n < |due|
    ensures MovedTo(t, HandledAll(t, cron, registered, due, clock, n), due[n].1.id, Some(due[n].0))
  {
    NotYetHandled(t, registered, due, n);
    Untouched(t, cron, registered, due, clock, n, due[n].1.id);
  }

  lemma HandledAllNext(
      t: Tables, cron: CronReader, registered: set<string>, due: seq<(nat, Timer)>, clock: nat -> Millis, n: nat)
    requires n < |due|
    ensures HandledAll(t, cron, registered, due, clock, n + 1)
         == Handled(HandledAll(t, cron, registered, due, clock, n), cron, registered, due[n].0, due[n].1, clock(n + 1))
  {
  }

  // The i-th due timer is handled at `clock(i + 1)`, and what was done to it stays.
  lemma {:induction false} TickOutcome(
      t: Tables, cron: CronReader, registered: set<string>, due: seq<(nat, Timer)>, clock: nat -> Millis, n: nat)
    requires Agree(t) && AllDue(t, due) && n <= |due|
    ensures Agree(HandledAll(t, cron, registered, due, clock, n))
    ensures Outcomes(t, HandledAll(t, cron, registered, due, clock, n), cron, registered, due, clock, n)
  {
    if n > 0 {
      var k := n - 1;
      TickOutcome(t, cron, registered, due, clock, k);
      StillThere(t, cron, registered, due, clock, k);
      HandledAllNext(t, cron, registered, due, clock, k);
      OutcomesGrow(t, HandledAll(t, cron, registered, due, clock, k), cron, registered, due, clock, k,
                   HandledAll(t, cron, registered, due, clock, k + 1));
    }
  }

  // What `Tick` promises, as a relation between the tables before and after.
  ghost predicate Ticked(
      t: Tables, after: Tables, cron: CronReader, registered: set<string>, due: seq<(nat, Timer)>, clock: nat -> Millis)
  {
    && InKeyOrder(due)
    && (forall entry :: entry in due <==> IsDue(t, entry, FireTime(clock(0))))
    && after == HandledAll(t, cron, registered, due, clock, |due|)
  }

  lemma TickedAllDue(
      t: Tables, after: Tables, cron: CronReader, registered: set<string>, due: seq<(nat, Timer)>, clock: nat -> Millis)
    requires Ticked(t, after, cron, registered, due, clock)
    ensures AllDue(t, due)
  {
    assert forall i :: 0 <= i < |due| ==> due[i] in due;
  }

  /** What was not due, or has no registered workflow, is where it was; nothing new appears. */
  lemma TickLeavesTheRest(
      t: Tables, after: Tables, cron: CronReader, registered: set<string>, due: seq<(nat, Timer)>, clock: nat -> Millis,
      id: JobId)
    requires Agree(t) && Ticked(t, after, cron, registered, due, clock)
    ensures id !in t.byId ==> id !in after.byId
    ensures id in t.byId
            && (t.byId[id] > FireTime(clock(0)) || t.timers[(t.byId[id], id)].workflow !in registered)
            ==> MovedTo(t, after, id, Some(t.byId[id]))
  {
    TickedAllDue(t, after, cron, registered, due, clock);
    if HandledAmong(due, registered, |due|, id) {
      var i :| 0 <= i < |due| && due[i].1.id == id && due[i].1.workflow in registered;
      assert due[i] in due;
    } else {
      Untouched(t, cron, registered, due, clock, |due|, id);
    }
  }

  /**
    A due timer whose workflow is registered is fired and moved once: a one-shot timer is gone,
    a fixed one is at its delay after the instant it was handled, strictly later than the tick.
   */
  lemma TickMovesDue(
      t: Tables, after: Tables, cron: CronReader, registered: set<string>, due: seq<(nat, Timer)>, clock: nat -> Millis,
      id: JobId)
    requires Agree(t) && Ticked(t, after, cron, registered, due, clock) && CronIsLater(cron) && NeverGoesBack(clock)
    requires clock(0) >= 0 && id in t.byId && t.byId[id] <= clock(0)
    requires t.timers[(t.byId[id], id)].workflow in registered
    ensures var mode := t.timers[(t.byId[id], id)].mode;
      && (mode.Once? ==> id !in after.byId)
      && (mode.Fixed? ==> id in after.byId
                          && exists i :: 0 < i <= |due| && after.byId[id] == clock(i) + mode.delayMs)
      && (mode.Fixed? && mode.delayMs >= MIN_FIXED_DELAY_MS ==> after.byId[id] > clock(0))
      && (mode.Cron? && id in after.byId ==> after.byId[id] > clock(0))
      && (mode.Cron? ==> exists i :: 0 < i <= |due|
                           && match cron(mode.expr, clock(i))
                              case None => id !in after.byId
                              case Some(at) => id in after.byId && after.byId[id] == at)
  {
    var entry := (t.byId[id], t.timers[(t.byId[id], id)]);
    assert IsDue(t, entry, FireTime(clock(0)));
    assert entry in due;
    TickedAllDue(t, after, cron, registered, due, clock);
    var i :| 0 <= i < |due| && due[i] == entry;
    TickOutcome(t, cron, registered, due, clock, |due|);
    assert MovedTo(t, after, id, NextFireAfter(cron, entry.1.mode, clock(i + 1)));
    assert clock(0) <= clock(i + 1);
  }

  ghost predicate DelaysAtLeastMinimum(t: Tables) {
    forall k :: k in t.timers && t.timers[k].mode.Fixed? ==> t.timers[k].mode.delayMs >= MIN_FIXED_DELAY_MS
  }

  /** One tick clears the backlog exactly when every due timer's workflow is registered. */
  lemma TickClearsBacklog(
      t: Tables, after: Tables, cron: CronReader, registered: set<string>, due: seq<(nat, Timer)>, clock: nat -> Millis)
    requires Agree(t) && Ticked(t, after, cron, registered, due, clock) && CronIsLater(cron) && NeverGoesBack(clock)
    requires clock(0) >= 0 && DelaysAtLeastMinimum(t)
    ensures Agree(after)
    ensures (forall k :: k in after.timers ==> k.0 > clock(0))
      <==> (forall k :: k in t.timers && k.0 <= clock(0) ==> t.timers[k].workflow in registered)
  {
    TickedAllDue(t, after, cron, registered, due, clock);
    TickOutcome(t, cron, registered, due, clock, |due|);
    forall k | k in t.timers && k.0 <= clock(0) && t.timers[k].workflow !in registered
      ensures k in after.timers
    {
      TickLeavesTheRest(t, after, cron, registered, due, clock, k.1);
    }
    if forall k :: k in t.timers && k.0 <= clock(0) ==> t.timers[k].workflow in registered {
      forall k | k in after.timers ensures k.0 > clock(0) {
        TickLeavesTheRest(t, after, cron, registered, due, clock, k.1);
        if t.byId[k.1] <= clock(0) {
          TickMovesDue(t, after, cron, registered, due, clock, k.1);
        }
      }
    }
  }
}
