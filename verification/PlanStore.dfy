/** The plan store: a memory cache over JSON files with a time to live, over a durable sink.
    Time, restarts and every failing file or sink call are part of the model. */
module PlanStore {
  import opened JsText

  type PlanId = string

  datatype Plan = Plan(id: PlanId, createdAt: int, body: string)

  /** A plan file: what it parses to, if it parses, and when it was written. */
  datatype File = File(plan: Option<Plan>, mtime: int)

  /** Twenty-four hours and one hour, in milliseconds. */
  const TTL := 86400000
  const EXECUTE_MAX_AGE := 3600000

  datatype Store = Store(
    now: int, memory: map<PlanId, Plan>, disk: Option<map<PlanId, File>>, sink: Option<map<PlanId, Plan>>)

  /** How writing a file goes: it works, it fails, or it fails leaving a file that does not parse. */
  datatype Write = Written | NotWritten | Garbled

  datatype Event =
    | Save(plan: Plan, write: Write, sinkOk: bool)
    | Load(id: PlanId, readOk: bool, unlinkOk: bool, sinkOk: bool)
    | Delete(id: PlanId, unlinkOk: bool)
    | Restart(stuck: set<PlanId>)  // a new process: empty memory, then prune; `stuck` files stay
    | Tick(ms: nat)

  predicate Expired(now: int, plan: Plan)
  {
    now - plan.createdAt > TTL
  }

  function Saved(s: Store, plan: Plan, write: Write, sinkOk: bool): Store
  {
    var s := s.(memory := s.memory[plan.id := plan]);
    if s.disk.Some? && write.NotWritten? then s
    else if s.disk.Some? && write.Garbled? then s.(disk := Some(s.disk.value[plan.id := File(None, s.now)]))
    else
      var s := if s.disk.Some? then s.(disk := Some(s.disk.value[plan.id := File(Some(plan), s.now)])) else s;
      if s.sink.Some? && sinkOk then s.(sink := Some(s.sink.value[plan.id := plan])) else s
  }

  /** The file tier: the plan it yields, and the store after an expired file was unlinked. */
  function LoadedFromDisk(s: Store, id: PlanId, readOk: bool, unlinkOk: bool): (Option<Plan>, Store)
  {
    if s.disk.None? || id !in s.disk.value || !readOk || s.disk.value[id].plan.None? then (None, s)
    else
      var plan := s.disk.value[id].plan.value;
      if !Expired(s.now, plan) then (Some(plan), s.(memory := s.memory[id := plan]))
      else if unlinkOk then (None, s.(disk := Some(s.disk.value - {id})))
      else (None, s)
  }

  function Loaded(s: Store, id: PlanId, readOk: bool, unlinkOk: bool, sinkOk: bool): (Option<Plan>, Store)
  {
    if id in s.memory && !Expired(s.now, s.memory[id]) then (Some(s.memory[id]), s)
    else
      var (plan, t) := LoadedFromDisk(s, id, readOk, unlinkOk);
      if plan.Some? then (plan, t)
      else if t.sink.Some? && sinkOk && id in t.sink.value
      then (Some(t.sink.value[id]), t.(memory := t.memory[id := t.sink.value[id]]))
      else (None, t)
  }

  function Deleted(s: Store, id: PlanId, unlinkOk: bool): Store
  {
    var s := s.(memory := s.memory - {id});
    if s.disk.Some? && unlinkOk then s.(disk := Some(s.disk.value - {id})) else s
  }

  function Pruned(s: Store, stuck: set<PlanId>): Store
  {
    if s.disk.None? then s
    else
      var files := s.disk.value;
      s.(disk := Some(map id | id in files && (id in stuck || s.now - files[id].mtime <= TTL) :: files[id]))
  }

  function Step(s: Store, e: Event): Store
  {
    match e
    case Save(plan, write, sinkOk) => Saved(s, plan, write, sinkOk)
    case Load(id, readOk, unlinkOk, sinkOk) => Loaded(s, id, readOk, unlinkOk, sinkOk).1
    case Delete(id, unlinkOk) => Deleted(s, id, unlinkOk)
    case Restart(stuck) => Pruned(s.(memory := map[]), stuck)
    case Tick(ms) => s.(now := s.now + ms)
  }

  function Run(s: Store, es: seq<Event>): Store
    decreases |es|
  {
    if es == [] then s else Run(Step(s, es[0]), es[1..])
  }

  lemma {:induction false} RunSnoc(s: Store, es: seq<Event>, e: Event)
    ensures Run(s, es + [e]) == Step(Run(s, es), e)
    decreases |es|
  {
    if es == [] {
      assert [e][1..] == [] && [] + [e] == [e];
    } else {
      RunSnoc(Step(s, es[0]), es[1..], e);
      assert (es + [e])[1..] == es[1..] + [e];
    }
  }

  // ----- one plan through a run -----

  predicate NoSave(es: seq<Event>, id: PlanId)
  {
    forall e :: e in es && e.Save? ==> e.plan.id != id
  }

  /** The save got through to the file, if files are configured. */
  predicate FileWritten(s: Store, write: Write)
  {
    s.disk.None? || write.Written?
  }

  /** No tier holds anything else under the id. */
  ghost predicate HoldsAtMost(s: Store, id: PlanId, plan: Option<Plan>)
  {
    && (id in s.memory ==> plan == Some(s.memory[id]))
    && (s.disk.Some? && id in s.disk.value && s.disk.value[id].plan.Some? ==> plan == s.disk.value[id].plan)
    && (s.sink.Some? && id in s.sink.value ==> plan == Some(s.sink.value[id]))
  }

  lemma {:induction false} HoldsAtMostRun(s: Store, es: seq<Event>, id: PlanId, plan: Option<Plan>)
    requires HoldsAtMost(s, id, plan) && NoSave(es, id)
    ensures HoldsAtMost(Run(s, es), id, plan)
    ensures s.sink.None? ==> Run(s, es).sink.None?
    ensures s.sink.Some? ==> Run(s, es).sink.Some?
    ensures s.sink.Some? && id in s.sink.value ==> id in Run(s, es).sink.value
    decreases |es|
  {
    if es != [] {
      assert es[0] in es && forall e :: e in es[1..] ==> e in es;
      HoldsAtMostStep(s, es[0], id, plan);
      HoldsAtMostRun(Step(s, es[0]), es[1..], id, plan);
    }
  }

  lemma HoldsAtMostStep(s: Store, e: Event, id: PlanId, plan: Option<Plan>)
    requires HoldsAtMost(s, id, plan) && (e.Save? ==> e.plan.id != id)
    ensures HoldsAtMost(Step(s, e), id, plan)
    ensures s.sink.None? <==> Step(s, e).sink.None?
    ensures s.sink.Some? && id in s.sink.value ==> id in Step(s, e).sink.value
  {
  }

  // ----- with a sink -----

  /** With a sink the store is a plain map: a plan whose save reached its file and the sink is
      what a load returns, whatever happened before and whatever happens after, until the next
      save under its id: other saves, loads, deletes, restarts and waiting, and any file or
      sink call failing on the way. */
  lemma WithSinkLoadsLastSaved(s: Store, plan: Plan, write: Write, es: seq<Event>, readOk: bool, unlinkOk: bool)
    requires s.sink.Some? && FileWritten(s, write) && NoSave(es, plan.id)
    ensures Loaded(Run(Step(s, Save(plan, write, true)), es), plan.id, readOk, unlinkOk, true).0 == Some(plan)
  {
    HoldsAtMostRun(Step(s, Save(plan, write, true)), es, plan.id, Some(plan));
  }

  /** What was never saved is never found, with or without a sink. */
  lemma UnsavedIsNotFound(s: Store, es: seq<Event>, id: PlanId, readOk: bool, unlinkOk: bool, sinkOk: bool)
    requires HoldsAtMost(s, id, None) && NoSave(es, id)
    ensures Loaded(Run(s, es), id, readOk, unlinkOk, sinkOk).0 == None
  {
    HoldsAtMostRun(s, es, id, None);
  }

  /** Right after a restart the store serves a plan at every later time iff the sink holds it
      and no file that has not expired holds another. */
  lemma ServedForeverIff(s: Store, plan: Plan)
    requires s.memory == map[] && s.sink.Some?
    ensures (forall ms: nat :: Loaded(Step(s, Tick(ms)), plan.id, true, true, true).0 == Some(plan)) <==>
            plan.id in s.sink.value && s.sink.value[plan.id] == plan &&
            (s.disk.Some? && plan.id in s.disk.value && s.disk.value[plan.id].plan.Some? ==>
              s.disk.value[plan.id].plan == Some(plan) || Expired(s.now, s.disk.value[plan.id].plan.value))
  {
    var id := plan.id;
    var file := if s.disk.Some? && id in s.disk.value then s.disk.value[id].plan else None;
    if forall ms: nat :: Loaded(Step(s, Tick(ms)), id, true, true, true).0 == Some(plan) {
      var expiry := if file.Some? then file.value.createdAt + TTL + 1 else s.now;
      var late: nat := if expiry > s.now then expiry - s.now else 0;
      assert Loaded(Step(s, Tick(late)), id, true, true, true).0 == Some(plan);
      assert Loaded(Step(s, Tick(0)), id, true, true, true).0 == Some(plan);
    }
  }

  /** The file from before a save does not outlive it with another plan: it is overwritten or
      absent, it does not parse or holds the same plan, or it has expired or is pruned. */
  predicate OldFileIsHarmless(s: Store, plan: Plan, write: Write, stuck: set<PlanId>)
  {
    s.disk.Some? && write.NotWritten? && plan.id in s.disk.value && s.disk.value[plan.id].plan.Some? ==>
      var file := s.disk.value[plan.id];
      || file.plan == Some(plan)
      || Expired(s.now, file.plan.value)
      || (plan.id !in stuck && s.now - file.mtime > TTL)
  }

  /** When a save counts for good: after it and a restart, the plan is what a load returns at
      every later time iff the save reached the file and the sink, or the sink held the plan
      already and no older file stands in its way. */
  lemma SurvivesRestartIff(s: Store, plan: Plan, write: Write, sinkOk: bool, stuck: set<PlanId>)
    requires s.sink.Some?
    ensures var restarted := Step(Step(s, Save(plan, write, sinkOk)), Restart(stuck));
      (forall ms: nat :: Loaded(Step(restarted, Tick(ms)), plan.id, true, true, true).0 == Some(plan)) <==>
      || (FileWritten(s, write) && sinkOk)
      || (plan.id in s.sink.value && s.sink.value[plan.id] == plan && OldFileIsHarmless(s, plan, write, stuck))
  {
    ServedForeverIff(Step(Step(s, Save(plan, write, sinkOk)), Restart(stuck)), plan);
  }

  /** A save whose file write fails throws after the memory cache was set and before the sink
      was told: such a save can be forgotten. The older plan is back after a restart. */
  lemma FailedWriteIsForgotten(earlier: Plan, later: Plan)
    requires earlier.id == later.id && earlier != later && earlier.createdAt == later.createdAt == 0
    ensures var s := Store(0, map[], Some(map[]), Some(map[]));
      var saves := [Save(earlier, Written, true), Save(later, NotWritten, true)];
      Loaded(Run(s, saves), later.id, true, true, true).0 == Some(later) &&
      Loaded(Run(s, saves + [Restart({})]), later.id, true, true, true).0 == Some(earlier)
  {
    var s := Store(0, map[], Some(map[]), Some(map[]));
    var first := [Save(earlier, Written, true)];
    var saves := first + [Save(later, NotWritten, true)];
    RunSnoc(s, [], first[0]);
    assert [] + [first[0]] == first;
    RunSnoc(s, first, saves[1]);
    RunSnoc(s, saves, Restart({}));
    assert saves == [Save(earlier, Written, true), Save(later, NotWritten, true)];
  }

  // ----- without a sink -----

  /** The plan is in its file unless it was deleted or has expired, and nothing else is found
      under its id. */
  ghost predicate KeepsFile(s: Store, plan: Plan, deleted: bool)
  {
    && s.sink.None? && s.disk.Some?
    && (plan.id in s.memory ==> s.memory[plan.id] == plan && !deleted)
    && (plan.id in s.disk.value ==>
         !deleted && s.disk.value[plan.id].plan == Some(plan) && plan.createdAt <= s.disk.value[plan.id].mtime)
    && (!deleted && !Expired(s.now, plan) ==> plan.id in s.disk.value)
  }

  lemma KeepsFileStep(s: Store, plan: Plan, deleted: bool, e: Event)
    requires KeepsFile(s, plan, deleted) && (e.Save? ==> e.plan.id != plan.id)
    ensures KeepsFile(Step(s, e), plan, deleted || e == Delete(plan.id, true))
  {
  }

  lemma {:induction false} KeepsFileRun(s: Store, plan: Plan, deleted: bool, es: seq<Event>)
    requires KeepsFile(s, plan, deleted) && NoSave(es, plan.id)
    ensures KeepsFile(Run(s, es), plan, deleted || Delete(plan.id, true) in es)
    decreases |es|
  {
    if es != [] {
      assert es[0] in es && forall e :: e in es[1..] ==> e in es;
      KeepsFileStep(s, plan, deleted, es[0]);
      KeepsFileRun(Step(s, es[0]), plan, deleted || es[0] == Delete(plan.id, true), es[1..]);
      assert Delete(plan.id, true) in es <==> es[0] == Delete(plan.id, true) || Delete(plan.id, true) in es[1..];
    }
  }

  /** With files alone, a plan that was saved, no earlier than it was created, is what a load
      returns until the next save under its id, iff it is at most twenty-four hours old and no
      delete that could unlink the file came since; whatever happened before, and whatever
      other call fails on the way: reads, unlinks, saves of other plans, pruning. */
  lemma WithoutSinkLoadsFreshPlans(s: Store, plan: Plan, sinkOk: bool, es: seq<Event>, unlinkOk: bool)
    requires s.sink.None? && s.disk.Some? && plan.createdAt <= s.now && NoSave(es, plan.id)
    ensures var t := Run(Step(s, Save(plan, Written, sinkOk)), es);
      Loaded(t, plan.id, true, unlinkOk, true).0 ==
        if t.now - plan.createdAt > 24 * 60 * 60 * 1000 || Delete(plan.id, true) in es then None else Some(plan)
  {
    KeepsFileRun(Step(s, Save(plan, Written, sinkOk)), plan, false, es);
  }

  /** Pruning by file time spares every file that a load would still serve, whatever the time,
      iff the plan was not created after its file was written. */
  lemma PruningIsSafeIff(s: Store, id: PlanId)
    requires s.disk.Some? && id in s.disk.value && s.disk.value[id].plan.Some?
    ensures (forall now: int :: id !in Pruned(s.(now := now), {}).disk.value ==>
              LoadedFromDisk(s.(now := now), id, true, true).0.None?) <==>
            s.disk.value[id].plan.value.createdAt <= s.disk.value[id].mtime
  {
    var file := s.disk.value[id];
    if file.plan.value.createdAt > file.mtime {
      var now := file.mtime + TTL + 1;
      assert id !in Pruned(s.(now := now), {}).disk.value;
      assert LoadedFromDisk(s.(now := now), id, true, true).0.Some?;
    }
  }

  /** With neither files nor a sink, a plan is found in the process that saved it, while it is not
      too old and until it is deleted. */
  lemma MemoryAlone(s: Store, plan: Plan, ms: nat, ok: bool)
    requires s.disk.None? && s.sink.None?
    ensures var later := Step(Step(s, Save(plan, Written, ok)), Tick(ms));
      Loaded(later, plan.id, ok, ok, ok).0 ==
        (if later.now - plan.createdAt > 24 * 60 * 60 * 1000 then None else Some(plan)) &&
      Loaded(Step(later, Delete(plan.id, ok)), plan.id, ok, ok, ok).0 == None
  {
  }

  // ----- any failures at all -----

  /** Every plan in any tier was once passed to `savePlan`, under its own id. */
  ghost predicate HoldsOnly(s: Store, plans: set<Plan>)
  {
    && (forall id :: id in s.memory ==> s.memory[id] in plans && s.memory[id].id == id)
    && (s.disk.Some? ==> forall id :: id in s.disk.value && s.disk.value[id].plan.Some? ==>
         s.disk.value[id].plan.value in plans && s.disk.value[id].plan.value.id == id)
    && (s.sink.Some? ==> forall id :: id in s.sink.value ==> s.sink.value[id] in plans && s.sink.value[id].id == id)
  }

  /** Whatever fails, a load never returns a plan that was not saved under the id it asks for. */
  lemma NothingInvented(s: Store, es: seq<Event>, id: PlanId, readOk: bool, unlinkOk: bool, sinkOk: bool)
    requires HoldsOnly(s, {})
    ensures var r := Loaded(Run(s, es), id, readOk, unlinkOk, sinkOk).0;
      r.Some? ==> r.value in PlansSaved(es) && r.value.id == id
  {
    HoldsOnlySaved(s, es);
  }

  /** All plans passed to `savePlan`, whether or not that worked. */
  function PlansSaved(es: seq<Event>): set<Plan>
  {
    if es == [] then {}
    else PlansSaved(es[..|es| - 1]) + (if es[|es| - 1].Save? then {es[|es| - 1].plan} else {})
  }

  lemma {:induction false} HoldsOnlySaved(s: Store, es: seq<Event>)
    requires HoldsOnly(s, {})
    ensures HoldsOnly(Run(s, es), PlansSaved(es))
    decreases |es|
  {
    if es != [] {
      var n := |es| - 1;
      assert es == es[..n] + [es[n]];
      HoldsOnlySaved(s, es[..n]);
      RunSnoc(s, es[..n], es[n]);
      HoldsOnlyStep(Run(s, es[..n]), es[n], PlansSaved(es[..n]));
    }
  }

  lemma HoldsOnlyStep(s: Store, e: Event, plans: set<Plan>)
    requires HoldsOnly(s, plans)
    ensures HoldsOnly(Step(s, e), plans + (if e.Save? then {e.plan} else {}))
  {
  }

  // ----- the host object -----

  class PlanHost {
    var now: int
    var memCache: map<PlanId, Plan>
    var disk: Option<map<PlanId, File>>
    var sink: Option<map<PlanId, Plan>>

    function View(): Store
      reads this
    {
      Store(now, memCache, disk, sink)
    }

    /** `savePlan`; throws when the file cannot be written. */
    method SavePlan(plan: Plan, write: Write, sinkOk: bool) returns (r: Outcome<()>)
      modifies this
      ensures View() == Step(old(View()), Save(plan, write, sinkOk))
      ensures r.Threw? <==> disk.Some? && !write.Written?
    {
      memCache := memCache[plan.id := plan];
      if disk.Some? {
        match write {
          case Written => disk := Some(disk.value[plan.id := File(Some(plan), now)]);
          case NotWritten => return Threw("write failed");
          case Garbled =>
            disk := Some(disk.value[plan.id := File(None, now)]);
            return Threw("write failed");
        }
      }
      if sink.Some? && sinkOk {
        sink := Some(sink.value[plan.id := plan]);
      }
      r := Returned(());
    }

    /** `loadPlan` */
    method LoadPlan(id: PlanId, readOk: bool, unlinkOk: bool, sinkOk: bool) returns (r: Option<Plan>)
      modifies this
      ensures View() == Step(old(View()), Load(id, readOk, unlinkOk, sinkOk))
      ensures r == Loaded(old(View()), id, readOk, unlinkOk, sinkOk).0
    {
      if id in memCache && !Expired(now, memCache[id]) {
        return Some(memCache[id]);
      }
      if disk.Some? && id in disk.value {
        if readOk && disk.value[id].plan.Some? {
          var plan := disk.value[id].plan.value;
          if !Expired(now, plan) {
            memCache := memCache[id := plan];
            return Some(plan);
          }
          if unlinkOk {
            disk := Some(disk.value - {id});
          }
        }
      }
      if sink.Some? && sinkOk && id in sink.value {
        memCache := memCache[id := sink.value[id]];
        return Some(sink.value[id]);
      }
      r := None;
    }

    /** `deletePlan` */
    method DeletePlan(id: PlanId, unlinkOk: bool)
      modifies this
      ensures View() == Step(old(View()), Delete(id, unlinkOk))
    {
      memCache := memCache - {id};
      assert disk.Some? && id !in disk.value ==> disk.value - {id} == disk.value;
      if disk.Some? && id in disk.value {
        if unlinkOk {
          disk := Some(disk.value - {id});
        }
      }
    }

    /** `pruneExpired`, over the directory listing. */
    method PruneExpired(stuck: set<PlanId>)
      modifies this
      ensures View() == Pruned(old(View()), stuck)
    {
      if disk.None? {
        return;
      }
      var listing := disk.value.Keys;
      ghost var before := disk.value;
      while listing != {}
        invariant now == old(now) && memCache == old(memCache) && sink == old(sink)
        invariant disk.Some? && listing <= disk.value.Keys
        invariant disk.value ==
          map id | id in before && (id in listing || id in stuck || now - before[id].mtime <= TTL) :: before[id]
        decreases |listing|
      {
        var id :| id in listing;
        listing := listing - {id};
        if now - disk.value[id].mtime > TTL && id !in stuck {
          disk := Some(disk.value - {id});
        }
      }
      assert disk.value == Pruned(old(View()), stuck).disk.value;
    }

    /** `planTooOldToExecute`: what may be executed has not expired. */
    method PlanTooOldToExecute(plan: Plan) returns (tooOld: bool)
      ensures tooOld <==> now - plan.createdAt > 60 * 60 * 1000
      ensures !tooOld ==> !Expired(now, plan)
    {
      tooOld := now - plan.createdAt > EXECUTE_MAX_AGE;
    }
  }
}
