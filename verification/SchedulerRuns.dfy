/**
  The scheduler under interleaving: callers schedule and cancel between any two transactions
  of the single poll loop, and the process may die at any point.
 */
module SchedulerRuns {
  import opened Wrappers
  import opened Scheduler

  datatype State = State(
    tables: Tables,
    // In memory, lost in a crash: what the poll loop still holds, and whether the first of it
    // has been fired but not yet rescheduled.
    pending: seq<(nat, Timer)>, firing: bool,
    // History: every timer ever scheduled, and what happened to it.
    scheduled: map<JobId, Timer>, cancelled: set<JobId>, fired: set<JobId>, finished: set<JobId>)

  datatype Event =
    | Schedule(timer: Timer, fireAt: nat)
    | Cancel(id: JobId)
    | Collect(now: nat, due: seq<(nat, Timer)>)
    | Skip
    | Fire
    | Commit(at: Millis)
    | Crash

  const START := State(Tables(map[], map[]), [], false, map[], {}, {}, {})

  // Job ids are drawn fresh; the poll loop collects only when it holds nothing; `Skip` is a
  // workflow missing from the registry, or a runtime already dropped.
  ghost predicate Enabled(s: State, e: Event) {
    match e
    case Schedule(timer, _) => timer.id !in s.scheduled
    case Cancel(_) => true
    case Collect(now, due) =>
      s.pending == [] && InKeyOrder(due) && forall entry :: entry in due <==> IsDue(s.tables, entry, now)
    case Skip => s.pending != [] && !s.firing
    case Fire => s.pending != [] && !s.firing
    case Commit(_) => s.pending != [] && s.firing
    case Crash => true
  }

  function Apply(cron: CronReader, s: State, e: Event): State {
    match e
    case Schedule(timer, fireAt) =>
      s.(tables := Inserted(s.tables, timer, fireAt), scheduled := s.scheduled[timer.id := timer])
    case Cancel(id) => s.(tables := Cancelled(s.tables, id), cancelled := s.cancelled + {id})
    case Collect(_, due) => s.(pending := due)
    case Skip => if s.pending == [] then s else s.(pending := s.pending[1..])
    case Fire => if s.pending == [] then s else s.(firing := true, fired := s.fired + {s.pending[0].1.id})
    case Commit(now) =>
      if s.pending == [] then s
      else
        var (fireAt, timer) := s.pending[0];
        var next := NextFireAfter(cron, timer.mode, now);
        s.(tables := Rescheduled(s.tables, fireAt, timer, next), pending := s.pending[1..], firing := false,
           finished := if next.None? then s.finished + {timer.id} else s.finished)
    case Crash => s.(pending := [], firing := false)
  }

  ghost predicate IsRun(cron: CronReader, s: State, run: seq<Event>)
    decreases |run|
  {
    run == [] || (Enabled(s, run[0]) && IsRun(cron, Apply(cron, s, run[0]), run[1..]))
  }

  function After(cron: CronReader, s: State, run: seq<Event>): State
    decreases |run|
  {
    if run == [] then s else After(cron, Apply(cron, s, run[0]), run[1..])
  }

  // ---- What every step keeps ----

  // A timer the poll loop holds is as it was scheduled, and either gone from the tables or
  // still where it was collected.
  ghost predicate PendingOk(s: State) {
    && (forall i :: 0 <= i < |s.pending| ==> HeldOk(s, s.pending[i]))
    && (forall i, j :: 0 <= i < j < |s.pending| ==> s.pending[i].1.id != s.pending[j].1.id)
    && (s.firing ==> s.pending != [] && s.pending[0].1.id in s.fired)
  }

  ghost predicate HeldOk(s: State, entry: (nat, Timer)) {
    && entry.1.id in s.scheduled && s.scheduled[entry.1.id] == entry.1
    && (entry.1.id in s.tables.byId ==> s.tables.byId[entry.1.id] == entry.0)
  }

  ghost predicate StoredOk(s: State) {
    && s.tables.byId.Keys <= s.scheduled.Keys
    && forall k :: k in s.tables.timers ==> k.1 in s.scheduled && s.tables.timers[k] == s.scheduled[k.1]
  }

  // Every timer scheduled is stored, was cancelled, or was fired with no next time.
  ghost predicate NoneLost(s: State) {
    && (forall id :: id in s.scheduled ==> id in s.tables.byId || id in s.cancelled || id in s.finished)
    && s.finished <= s.fired
  }

  ghost predicate Inv(s: State) {
    Agree(s.tables) && PendingOk(s) && StoredOk(s) && NoneLost(s)
  }

  lemma CollectKeeps(s: State, now: nat, due: seq<(nat, Timer)>)
    requires Inv(s) && Enabled(s, Collect(now, due))
    ensures PendingOk(s.(pending := due))
  {
    forall i | 0 <= i < |due| ensures HeldOk(s, due[i]) && IsDue(s.tables, due[i], due[i].0) {
      assert due[i] in due;
    }
    forall i, j | 0 <= i < j < |due| ensures due[i].1.id != due[j].1.id {
      DueIdsDiffer(s.tables, due, i, j);
    }
  }

  lemma CommitKeeps(cron: CronReader, s: State, now: Millis)
    requires Inv(s) && Enabled(s, Commit(now))
    ensures Inv(Apply(cron, s, Commit(now)))
  {
    var (fireAt, timer) := s.pending[0];
    var next := NextFireAfter(cron, timer.mode, now);
    assert HeldOk(s, s.pending[0]);
    RescheduleAgreesIff(s.tables, fireAt, timer, next);
    var after := Apply(cron, s, Commit(now));
    forall i | 0 <= i < |after.pending| ensures HeldOk(after, after.pending[i]) {
      assert HeldOk(s, s.pending[i + 1]);
      assert s.pending[0].1.id != s.pending[i + 1].1.id;
    }
  }

  lemma StepKeeps(cron: CronReader, s: State, e: Event)
    requires Inv(s) && Enabled(s, e)
    ensures Inv(Apply(cron, s, e))
  {
    var after := Apply(cron, s, e);
    match e {
      case Schedule(timer, fireAt) =>
        InsertAgreesIff(s.tables, timer, fireAt);
        forall i | 0 <= i < |s.pending| ensures HeldOk(after, s.pending[i]) {
          assert HeldOk(s, s.pending[i]);
        }
      case Cancel(id) =>
        CancelAgrees(s.tables, id);
        forall i | 0 <= i < |s.pending| ensures HeldOk(after, s.pending[i]) {
          assert HeldOk(s, s.pending[i]);
        }
      case Collect(now, due) => CollectKeeps(s, now, due);
      case Skip =>
        forall i | 0 <= i < |after.pending| ensures HeldOk(after, after.pending[i]) {
          assert HeldOk(s, s.pending[i + 1]);
        }
      case Fire =>
        forall i | 0 <= i < |s.pending| ensures HeldOk(after, s.pending[i]) {
          assert HeldOk(s, s.pending[i]);
        }
      case Commit(now) => CommitKeeps(cron, s, now);
      case Crash =>
    }
  }

  /** Over every interleaving, the tables agree and no timer is lost, crashes included. */
  lemma {:induction false} RunKeeps(cron: CronReader, s: State, run: seq<Event>)
    requires Inv(s) && IsRun(cron, s, run)
    ensures Inv(After(cron, s, run))
    decreases |run|
  {
    if run != [] {
      StepKeeps(cron, s, run[0]);
      RunKeeps(cron, Apply(cron, s, run[0]), run[1..]);
    }
  }

  /**
    Reading of the invariant at the end of any run from an empty store: a timer is stored, as
    it was scheduled, unless it was cancelled or it was fired and had no next fire time.
   */
  lemma NoTimerIsLost(cron: CronReader, run: seq<Event>, id: JobId)
    requires IsRun(cron, START, run)
    ensures var s := After(cron, START, run);
      && Agree(s.tables)
      && (id in s.scheduled && id !in s.cancelled && id !in s.finished ==>
            id in s.tables.byId && (s.tables.byId[id], id) in s.tables.timers
            && s.tables.timers[(s.tables.byId[id], id)] == s.scheduled[id])
      && (id in s.finished ==> id in s.fired)
  {
    RunKeeps(cron, START, run);
    assert Inv(After(cron, START, run));
  }

  // ---- Whether a cancelled timer stays cancelled ----

  // The clock after an event, when it read `t` before: collecting and rescheduling read it.
  function Clock(t: Millis, e: Event): Millis {
    match e
    case Collect(now, _) => if now == 0 then t else now
    case Commit(at) => at
    case _ => t
  }

  // From a reading of `t` on, no event of the run reads an earlier instant.
  predicate ClockNeverBack(t: Millis, run: seq<Event>)
    decreases |run|
  {
    run == [] || ((run[0].Collect? ==> t <= run[0].now) && t <= Clock(t, run[0]) && ClockNeverBack(Clock(t, run[0]), run[1..]))
  }

  ghost predicate CanFireAgain(cron: CronReader, mode: TimerMode, t: Millis) {
    exists now :: t <= now && NextFireAfter(cron, mode, now).Some?
  }

  ghost predicate HeldAndRepeating(cron: CronReader, s: State, id: JobId, t: Millis) {
    exists i :: 0 <= i < |s.pending| && s.pending[i].1.id == id && CanFireAgain(cron, s.pending[i].1.mode, t)
  }

  ghost predicate GoneForGood(cron: CronReader, s: State, id: JobId, t: Millis) {
    id in s.scheduled && id !in s.tables.byId && !HeldAndRepeating(cron, s, id, t)
  }

  lemma HeldStaysSpent(cron: CronReader, s: State, after: State, id: JobId, t: Millis, t': Millis)
    requires t <= t' && (after.pending == s.pending || (s.pending != [] && after.pending == s.pending[1..]))
    requires !HeldAndRepeating(cron, s, id, t)
    ensures !HeldAndRepeating(cron, after, id, t')
  {
    forall i | 0 <= i < |after.pending| && after.pending[i].1.id == id
      ensures !CanFireAgain(cron, after.pending[i].1.mode, t')
    {
      var k := if after.pending == s.pending then i else i + 1;
      assert s.pending[k] == after.pending[i];
    }
  }

  lemma GoneStep(cron: CronReader, s: State, e: Event, id: JobId, t: Millis)
    requires Inv(s) && GoneForGood(cron, s, id, t) && Enabled(s, e) && t <= Clock(t, e)
    ensures GoneForGood(cron, Apply(cron, s, e), id, Clock(t, e))
  {
    var after := Apply(cron, s, e);
    match e {
      case Collect(now, due) =>
        forall i | 0 <= i < |due| ensures due[i].1.id != id {
          assert due[i] in due;
        }
      case Commit(now) =>
        var timer := s.pending[0].1;
        assert timer.id == id ==> !CanFireAgain(cron, timer.mode, t);
        HeldStaysSpent(cron, s, after, id, t, now);
      case Crash =>
      case _ => HeldStaysSpent(cron, s, after, id, t, Clock(t, e));
    }
  }

  lemma {:induction false} GoneStays(cron: CronReader, s: State, run: seq<Event>, id: JobId, t: Millis)
    requires Inv(s) && GoneForGood(cron, s, id, t) && IsRun(cron, s, run) && ClockNeverBack(t, run)
    ensures id !in After(cron, s, run).tables.byId
    decreases |run|
  {
    if run != [] {
      GoneStep(cron, s, run[0], id, t);
      StepKeeps(cron, s, run[0]);
      GoneStays(cron, Apply(cron, s, run[0]), run[1..], id, Clock(t, run[0]));
    }
  }

  // A held timer that can fire again comes back: pass over what is before it, fire it, commit.
  lemma {:induction false} HeldComesBack(cron: CronReader, s: State, i: nat, t: Millis, now: Millis) returns (run: seq<Event>)
    requires i < |s.pending| && t <= now && NextFireAfter(cron, s.pending[i].1.mode, now).Some?
    ensures IsRun(cron, s, run) && ClockNeverBack(t, run) && s.pending[i].1.id in After(cron, s, run).tables.byId
    decreases i, !s.firing
  {
    var e :=
      if s.firing then Commit(now)
      else if i == 0 then Fire
      else Skip;
    var next := Apply(cron, s, e);
    assert Enabled(s, e);
    if i == 0 && s.firing {
      run := [e];
      assert IsRun(cron, next, []);
    } else {
      var rest := HeldComesBack(cron, next, if e.Fire? then 0 else i - 1, Clock(t, e), now);
      run := [e] + rest;
      assert run[1..] == rest;
    }
  }

  /**
    "Cancelled stays cancelled" is false of the code, and this is when it is true: once the clock
    has read `t`, a timer no longer stored stays away over every continuation in which the clock
    does not go back, exactly when the poll loop is not holding it with a mode that can fire again
    from then on.
   */
  lemma CancelledStaysIff(cron: CronReader, s: State, id: JobId, t: Millis)
    requires Inv(s) && id in s.scheduled && id !in s.tables.byId
    ensures (forall run :: IsRun(cron, s, run) && ClockNeverBack(t, run) ==> id !in After(cron, s, run).tables.byId)
      <==> !HeldAndRepeating(cron, s, id, t)
  {
    if HeldAndRepeating(cron, s, id, t) {
      var i :| 0 <= i < |s.pending| && s.pending[i].1.id == id && CanFireAgain(cron, s.pending[i].1.mode, t);
      var now :| t <= now && NextFireAfter(cron, s.pending[i].1.mode, now).Some?;
      var run := HeldComesBack(cron, s, i, t, now);
    } else {
      forall run | IsRun(cron, s, run) && ClockNeverBack(t, run) ensures id !in After(cron, s, run).tables.byId {
        GoneStays(cron, s, run, id, t);
      }
    }
  }

  lemma {:induction false} OneMore(cron: CronReader, s: State, run: seq<Event>, e: Event)
    requires IsRun(cron, s, run) && Enabled(After(cron, s, run), e)
    ensures IsRun(cron, s, run + [e]) && After(cron, s, run + [e]) == Apply(cron, After(cron, s, run), e)
    decreases |run|
  {
    if run == [] {
      assert IsRun(cron, Apply(cron, s, e), []);
    } else {
      OneMore(cron, Apply(cron, s, run[0]), run[1..], e);
      assert (run + [e])[1..] == run[1..] + [e];
    }
  }

  /** A run in which it happens: a timer cancelled while the poll loop holds it, then rescheduled. */
  lemma CancelledTimerReturns(cron: CronReader, timer: Timer, at: nat, t: Millis) returns (run: seq<Event>)
    requires NextFireAfter(cron, timer.mode, t).Some?
    ensures IsRun(cron, START, run) && timer.id in After(cron, START, run).cancelled
    ensures After(cron, START, run).tables.byId == map[timer.id := NextFireAfter(cron, timer.mode, t).value]
  {
    hide IsRun, After;
    var due := [(at, timer)];
    var s1 := Apply(cron, START, Schedule(timer, at));
    AfterNothing(cron, START);
    OneMore(cron, START, [], Schedule(timer, at));
    assert Enabled(s1, Collect(at, due)) by {
      forall entry ensures entry in due <==> IsDue(s1.tables, entry, at) {
      }
    }
    run := [] + [Schedule(timer, at)];
    OneMore(cron, START, run, Collect(at, due));
    run := run + [Collect(at, due)];
    OneMore(cron, START, run, Fire);
    run := run + [Fire];
    OneMore(cron, START, run, Cancel(timer.id));
    run := run + [Cancel(timer.id)];
    OneMore(cron, START, run, Commit(t));
    run := run + [Commit(t)];
  }

  lemma AfterNothing(cron: CronReader, s: State)
    ensures IsRun(cron, s, []) && After(cron, s, []) == s
  {
  }
}
