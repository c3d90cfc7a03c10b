/**
  The durable log of spawn intents: one table of intents by run id, one namespace index.
 */
module RunnerIntents {
  import opened Wrappers

  type RunId = string
  type Micros = int

  datatype TerminalStatus = Succeeded | Failed(error: string) | Cancelled(reason: string)

  // What a run is asked to do, and on whose authority.
  datatype Spec = Spec(
    workflow: string, input: string, namespace: string, capabilities: seq<string>, actor: string, session: string)

  datatype Intent = Intent(runId: RunId, spec: Spec, spawnedAt: Micros, terminal: Option<TerminalStatus>, replayCount: nat)

  datatype Store = Store(intents: map<RunId, Intent>, byNamespace: set<(string, RunId)>)

  // `RunnerIntent::new`
  function NewIntent(id: RunId, spec: Spec, now: Micros): Intent {
    Intent(id, spec, now, None, 0)
  }

  // ---- What each transaction does ----

  function Inserted(s: Store, i: Intent): Store {
    Store(s.intents[i.runId := i], s.byNamespace + {(i.spec.namespace, i.runId)})
  }

  function Deleted(s: Store, victims: set<(string, RunId)>): Store {
    Store(s.intents - (set v | v in victims :: v.1), s.byNamespace - victims)
  }

  // What `gc` may take: terminal, and spawned before the cutoff.
  predicate IsVictim(i: Intent, cutoff: Micros) {
    i.terminal.Some? && i.spawnedAt < cutoff
  }

  function Victims(s: Store, cutoff: Micros): set<(string, RunId)> {
    set id | id in s.intents && IsVictim(s.intents[id], cutoff) :: (s.intents[id].spec.namespace, id)
  }

  ghost predicate IndexExact(s: Store) {
    && (forall id :: id in s.intents ==> s.intents[id].runId == id && (s.intents[id].spec.namespace, id) in s.byNamespace)
    && (forall p :: p in s.byNamespace ==> p.1 in s.intents && s.intents[p.1].spec.namespace == p.0)
  }

  /** Insert-or-replace keeps the index exact exactly when a replaced run keeps its namespace. */
  lemma InsertExactIff(s: Store, i: Intent)
    requires IndexExact(s)
    ensures IndexExact(Inserted(s, i))
      <==> (i.runId in s.intents ==> s.intents[i.runId].spec.namespace == i.spec.namespace)
  {
    var after := Inserted(s, i);
    if i.runId in s.intents && s.intents[i.runId].spec.namespace != i.spec.namespace {
      assert (s.intents[i.runId].spec.namespace, i.runId) in after.byNamespace;
    }
  }

  lemma DeleteExact(s: Store, victims: set<(string, RunId)>)
    requires IndexExact(s) && victims <= s.byNamespace
    ensures IndexExact(Deleted(s, victims))
    ensures forall id :: id in s.intents && (s.intents[id].spec.namespace, id) !in victims ==>
              id in Deleted(s, victims).intents && Deleted(s, victims).intents[id] == s.intents[id]
  {
    var after := Deleted(s, victims);
    forall id | id in s.intents && (s.intents[id].spec.namespace, id) !in victims
      ensures id in after.intents && (s.intents[id].spec.namespace, id) in after.byNamespace
    {
      forall v | v in victims ensures v.1 != id {
        assert v in s.byNamespace;
      }
    }
    forall p | p in after.byNamespace ensures p.1 in after.intents {
      forall v | v in victims ensures v.1 != p.1 {
        assert v in s.byNamespace;
      }
    }
  }

  /** With nothing between its two transactions, collecting drops the victims and nothing else. */
  lemma GcDropsOnlyVictims(s: Store, cutoff: Micros)
    requires IndexExact(s)
    ensures IndexExact(Deleted(s, Victims(s, cutoff)))
    ensures forall id :: id in Deleted(s, Victims(s, cutoff)).intents
              <==> id in s.intents && !IsVictim(s.intents[id], cutoff)
  {
    var victims := Victims(s, cutoff);
    DeleteExact(s, victims);
    forall id | id in s.intents && IsVictim(s.intents[id], cutoff) ensures id !in Deleted(s, victims).intents {
      assert (s.intents[id].spec.namespace, id) in victims;
    }
  }

  ghost predicate BySpawnTime(list: seq<Intent>) {
    forall i, j :: 0 <= i < j < |list| ==> list[i].spawnedAt <= list[j].spawnedAt
  }

  // Insertion by time, after equals: the stable sort of the replay list.
  function InsertByTime(list: seq<Intent>, x: Intent): seq<Intent> {
    if list == [] || list[|list| - 1].spawnedAt <= x.spawnedAt then list + [x]
    else InsertByTime(list[..|list| - 1], x) + [list[|list| - 1]]
  }

  lemma {:induction false} InsertByTimeAdds(list: seq<Intent>, x: Intent)
    ensures multiset(InsertByTime(list, x)) == multiset(list) + multiset{x}
  {
    if list != [] && list[|list| - 1].spawnedAt > x.spawnedAt {
      InsertByTimeAdds(list[..|list| - 1], x);
      assert list == list[..|list| - 1] + [list[|list| - 1]];
    }
  }

  ghost predicate UpToTime(list: seq<Intent>, t: Micros) {
    forall i :: 0 <= i < |list| ==> list[i].spawnedAt <= t
  }

  lemma AppendLatest(list: seq<Intent>, last: Intent, t: Micros)
    requires last.spawnedAt <= t
    ensures UpToTime(list, t) ==> UpToTime(list + [last], t)
    ensures BySpawnTime(list) && UpToTime(list, last.spawnedAt) ==> BySpawnTime(list + [last])
  {
  }

  lemma LastIsLatest(list: seq<Intent>)
    requires BySpawnTime(list) && list != []
    ensures UpToTime(list, list[|list| - 1].spawnedAt)
    ensures BySpawnTime(list[..|list| - 1]) && UpToTime(list[..|list| - 1], list[|list| - 1].spawnedAt)
  {
    var last := |list| - 1;
    forall i | 0 <= i < |list| ensures list[i].spawnedAt <= list[last].spawnedAt {
      assert i < last || i == last;
    }
  }

  lemma {:induction false} InsertByTimeSorted(list: seq<Intent>, x: Intent, t: Micros)
    requires BySpawnTime(list)
    ensures BySpawnTime(InsertByTime(list, x))
    ensures UpToTime(list, t) && x.spawnedAt <= t ==> UpToTime(InsertByTime(list, x), t)
  {
    if list == [] {
    } else {
      var init, last := list[..|list| - 1], list[|list| - 1];
      LastIsLatest(list);
      if last.spawnedAt > x.spawnedAt {
        InsertByTimeSorted(init, x, last.spawnedAt);
        AppendLatest(InsertByTime(init, x), last, last.spawnedAt);
        assert UpToTime(list, t) ==> last.spawnedAt <= t;
        assert InsertByTime(list, x) == InsertByTime(init, x) + [last];
        LatestBounds(InsertByTime(list, x), last.spawnedAt, t);
      } else {
        AppendLatest(list, x, x.spawnedAt);
        LatestBounds(list + [x], x.spawnedAt, t);
      }
    }
  }

  lemma LatestBounds(list: seq<Intent>, bound: Micros, t: Micros)
    ensures UpToTime(list, bound) && bound <= t ==> UpToTime(list, t)
  {
  }

  // The intents among these ids that have no outcome.
  function Unterminated(intents: map<RunId, Intent>, ids: set<RunId>): set<Intent> {
    set id | id in ids && id in intents && intents[id].terminal.None? :: intents[id]
  }

  lemma TakeOne(intents: map<RunId, Intent>, rest: set<RunId>, id: RunId)
    requires forall k :: k in intents ==> intents[k].runId == k
    requires id in intents && id !in rest
    ensures var before, after := Unterminated(intents, intents.Keys - (rest + {id})), Unterminated(intents, intents.Keys - rest);
      if intents[id].terminal.None? then intents[id] !in before && after == before + {intents[id]} else after == before
  {
  }

  method SortByTime(list: seq<Intent>) returns (sorted: seq<Intent>)
    ensures BySpawnTime(sorted) && multiset(sorted) == multiset(list)
  {
    sorted := [];
    for i := 0 to |list|
      invariant BySpawnTime(sorted) && multiset(sorted) == multiset(list[..i])
    {
      InsertByTimeSorted(sorted, list[i], list[i].spawnedAt);
      InsertByTimeAdds(sorted, list[i]);
      assert list[..i + 1] == list[..i] + [list[i]];
      sorted := InsertByTime(sorted, list[i]);
    }
    assert list[..|list|] == list;
  }

  class RunnerIntentStore {
    var intents: map<RunId, Intent>
    var byNamespace: set<(string, RunId)>

    ghost function State(): Store
      reads this
    {
      Store(intents, byNamespace)
    }

    constructor ()
      ensures State() == Store(map[], {}) && IndexExact(State())
    {
      intents, byNamespace := map[], {};
    }

    method Insert(i: Intent)
      modifies this
      ensures State() == Inserted(old(State()), i)
    {
      intents := intents[i.runId := i];
      byNamespace := byNamespace + {(i.spec.namespace, i.runId)};
    }

    /** Marks the intent if it is there, and leaves what it was asked to do alone. */
    method MarkTerminal(id: RunId, status: TerminalStatus)
      requires IndexExact(State())
      modifies this
      ensures IndexExact(State())
      ensures id !in old(intents) ==> State() == old(State())
      ensures id in old(intents) ==>
                intents == old(intents)[id := old(intents)[id].(terminal := Some(status))] && byNamespace == old(byNamespace)
    {
      if id !in intents {
        return;
      }
      var intent := intents[id].(terminal := Some(status));
      InsertExactIff(State(), intent);
      Insert(intent);
    }

    method CollectUnterminated() returns (found: seq<Intent>)
      requires IndexExact(State())
      ensures multiset(found) == multiset(Unterminated(intents, intents.Keys))
    {
      found := [];
      var rest := intents.Keys;
      while rest != {}
        invariant rest <= intents.Keys
        invariant multiset(found) == multiset(Unterminated(intents, intents.Keys - rest))
        decreases rest
      {
        var id :| id in rest;
        rest := rest - {id};
        TakeOne(intents, rest, id);
        if intents[id].terminal.None? {
          found := found + [intents[id]];
        }
      }
      assert intents.Keys - rest == intents.Keys;
    }

    /** Every intent without an outcome, each once, oldest first. */
    method ListUnterminated() returns (list: seq<Intent>)
      requires IndexExact(State())
      ensures BySpawnTime(list)
      ensures multiset(list) == multiset(Unterminated(intents, intents.Keys))
    {
      var found := CollectUnterminated();
      list := SortByTime(found);
    }

    /** The read pass and the write pass of a collection nothing interrupts. */
    method Gc(cutoff: Micros) returns (removed: nat)
      requires IndexExact(State())
      modifies this
      ensures IndexExact(State())
      ensures forall id :: id in intents
                <==> id in old(intents) && !(old(intents)[id].terminal != None && old(intents)[id].spawnedAt < cutoff)
      ensures forall id :: id in intents ==> intents[id] == old(intents)[id]
      ensures removed == |Victims(old(State()), cutoff)|
    {
      GcDropsOnlyVictims(State(), cutoff);
      var victims := set id | id in intents && IsVictim(intents[id], cutoff) :: (intents[id].spec.namespace, id);
      assert victims == Victims(State(), cutoff);
      removed := |victims|;
      if victims == {} {
        return;
      }
      intents := intents - set v | v in victims :: v.1;
      byNamespace := byNamespace - victims;
    }
  }
}
