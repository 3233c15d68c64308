/** Counting semaphores with direct hand-off: the LLM throttle, whose limit is fixed, and the
    connection budget, whose callers set the limit as they enter. */
module Admission {
  import opened JsText

  /** A call that asks for a slot. Every call asks once. */
  type Caller = nat

  /** A gate, with the history that its specification speaks of: the largest limit so far,
      who holds a slot, who has arrived and who has been granted a slot, in order. */
  datatype Gate = Gate(limit: int, active: int, queue: seq<Caller>,
                       peak: int, holders: set<Caller>, arrived: seq<Caller>, granted: seq<Caller>)

  datatype Event =
    | Acquire(id: Caller)
    | Enter(id: Caller, limit: int)  // set the limit, then acquire, in one synchronous step
    | Release(id: Caller)

  function AtLeastOne(n: int): int
  {
    if n < 1 then 1 else n
  }

  ghost function Fresh(limit: int): Gate
  {
    Gate(limit, 0, [], limit, {}, [], [])
  }

  ghost function Acquired(g: Gate, id: Caller): Gate
  {
    var g := g.(arrived := g.arrived + [id]);
    if g.active < g.limit
    then g.(active := g.active + 1, holders := g.holders + {id}, granted := g.granted + [id])
    else g.(queue := g.queue + [id])
  }

  ghost function Step(g: Gate, e: Event): Gate
  {
    match e
    case Acquire(id) => Acquired(g, id)
    case Enter(id, limit) =>
      var n := AtLeastOne(limit);
      Acquired(g.(limit := n, peak := if n > g.peak then n else g.peak), id)
    case Release(id) =>
      var g := g.(holders := g.holders - {id});
      if g.queue == [] then g.(active := g.active - 1)
      else g.(queue := g.queue[1..], holders := g.holders + {g.queue[0]}, granted := g.granted + [g.queue[0]])
  }

  /** Only a holder releases, and nobody asks twice. The gates that callers resize are the
      connection budget's, which start with a limit of at least one. */
  ghost predicate Legal(g: Gate, e: Event)
  {
    if e.Release? then e.id in g.holders
    else e.id !in g.arrived && (e.Enter? ==> g.peak >= 1)
  }

  ghost function Run(g: Gate, es: seq<Event>): Gate
    decreases |es|
  {
    if es == [] then g else Run(Step(g, es[0]), es[1..])
  }

  ghost predicate LegalRun(g: Gate, es: seq<Event>)
    decreases |es|
  {
    es == [] || (Legal(g, es[0]) && LegalRun(Step(g, es[0]), es[1..]))
  }

  /** What holds of every gate: the counter counts the holders, a waiter is not a holder, and
      a queue is never left without a holder to wake it. */
  ghost predicate Inv(g: Gate)
  {
    && g.active == |g.holders|
    && g.limit <= g.peak
    && (g.peak >= 1 ==> g.limit >= 1)
    && g.active <= (if g.peak < 0 then 0 else g.peak)
    && Distinct(g.queue)
    && (forall id :: id in g.queue ==> id in g.arrived && id !in g.granted)
    && (forall id :: id in g.holders ==> id in g.granted)
    && (forall id :: id in g.granted ==> id in g.arrived)
    && (g.queue != [] && g.peak >= 1 ==> g.active >= 1)
  }

  lemma InvAcquired(g: Gate, id: Caller)
    requires Inv(g) && id !in g.arrived
    ensures Inv(Acquired(g, id))
  {
    var next := Acquired(g, id);
    assert id !in g.granted && id !in g.holders && id !in g.queue;
    assert forall x :: x in next.arrived <==> x in g.arrived || x == id;
    if g.active < g.limit {
      assert forall x :: x in next.granted <==> x in g.granted || x == id;
    } else {
      assert forall x :: x in next.queue <==> x in g.queue || x == id;
    }
  }

  lemma InvReleased(g: Gate, id: Caller)
    requires Inv(g) && id in g.holders
    ensures Inv(Step(g, Release(id)))
  {
    var next := Step(g, Release(id));
    assert |g.holders - {id}| == |g.holders| - 1;
    if g.queue != [] {
      var head := g.queue[0];
      assert head in g.queue && head !in g.holders;
      assert forall x :: x in next.granted <==> x in g.granted || x == head;
      assert forall x :: x in next.queue ==> x in g.queue && x != head;
    }
  }

  lemma InvStep(g: Gate, e: Event)
    requires Inv(g) && Legal(g, e)
    ensures Inv(Step(g, e))
  {
    match e
    case Acquire(id) => InvAcquired(g, id);
    case Enter(id, limit) =>
      var n := AtLeastOne(limit);
      InvAcquired(g.(limit := n, peak := if n > g.peak then n else g.peak), id);
    case Release(id) => InvReleased(g, id);
  }

  /** Safety over all runs, limits changing freely: the invariant holds, so the holders are
      counted exactly, never exceed the largest limit set, and never abandon a waiter. */
  lemma {:induction false} InvRun(g: Gate, es: seq<Event>)
    requires Inv(g) && LegalRun(g, es)
    ensures Inv(Run(g, es))
    decreases |es|
  {
    if es != [] {
      InvStep(g, es[0]);
      InvRun(Step(g, es[0]), es[1..]);
    }
  }

  /** No step raises the number of holders while it is at or above the limit then in force. */
  lemma NoRaiseAtLimit(g: Gate, e: Event)
    requires g.active >= (if e.Enter? then AtLeastOne(e.limit) else g.limit)
    ensures Step(g, e).active <= g.active
  {
  }

  // ----- a fixed limit -----

  ghost predicate FixedLimit(es: seq<Event>, limit: int)
  {
    forall e :: e in es && e.Enter? ==> AtLeastOne(e.limit) == limit
  }

  /** Under one limit a queue forms only when all slots are taken, and grants follow arrivals:
      those granted, followed by those waiting, are those who arrived, in order. */
  ghost predicate Fair(g: Gate)
  {
    && g.active <= g.limit
    && (g.queue != [] ==> g.active == g.limit)
    && g.granted + g.queue == g.arrived
  }

  lemma {:induction false} FairRun(g: Gate, es: seq<Event>)
    requires g.limit >= 1 && Fair(g) && FixedLimit(es, g.limit)
    ensures Fair(Run(g, es)) && Run(g, es).limit == g.limit
    decreases |es|
  {
    if es != [] {
      var next := Step(g, es[0]);
      assert es[0] in es;
      if es[0].Release? && g.queue != [] {
        assert g.granted + [g.queue[0]] + g.queue[1..] == g.granted + g.queue;
      } else if !es[0].Release? && g.active >= g.limit {
        assert next.granted + next.queue == (g.granted + g.queue) + [es[0].id];
      } else if !es[0].Release? {
        assert g.queue == [] && next.granted + [] == g.granted + [es[0].id];
      }
      assert Fair(next) && next.limit == g.limit;
      FairRun(next, es[1..]);
    }
  }

  /** A gate whose limit is not positive never grants a slot, whoever asks. */
  lemma {:induction false} NoSlotsNoGrants(g: Gate, es: seq<Event>)
    requires g.limit <= 0 && g.active == 0 && g.holders == {} && g.granted == []
    requires LegalRun(g, es) && forall e :: e in es ==> !e.Enter?
    ensures Run(g, es).granted == []
    decreases |es|
  {
    if es != [] {
      assert es[0] in es;
      NoSlotsNoGrants(Step(g, es[0]), es[1..]);
    }
  }

  /** A run of the throttle after which somebody holds or has held a slot. */
  ghost predicate Serves(limit: int, es: seq<Event>)
  {
    LegalRun(Fresh(limit), es) && (forall e :: e in es ==> !e.Enter?) && Run(Fresh(limit), es).granted != []
  }

  /** The throttle serves anyone at all iff its limit is at least one; its constructor lets an
      explicit limit through unchecked. */
  lemma ServesIffLimitPositive(limit: int, id: Caller)
    ensures limit >= 1 <==> exists es :: Serves(limit, es)
  {
    if limit >= 1 {
      RunAppend(Fresh(limit), [], Acquire(id));
      assert [] + [Acquire(id)] == [Acquire(id)];
      assert id in Step(Fresh(limit), Acquire(id)).granted;
      assert Serves(limit, [Acquire(id)]);
    } else {
      forall es | Serves(limit, es) ensures false {
        NoSlotsNoGrants(Fresh(limit), es);
      }
    }
  }

  // ----- order and progress, with or without a fixed limit -----

  function Releases(es: seq<Event>): nat
  {
    if es == [] then 0 else (if es[0].Release? then 1 else 0) + Releases(es[1..])
  }

  lemma {:induction false} GrantsStay(g: Gate, es: seq<Event>, id: Caller)
    requires id in g.granted
    ensures id in Run(g, es).granted
    decreases |es|
  {
    if es != [] {
      GrantsStay(Step(g, es[0]), es[1..], id);
    }
  }

  /** One step moves a queue by one place if it is a release, and not at all otherwise. */
  lemma QueueMoves(g: Gate, e: Event, k: nat)
    requires Inv(g) && Legal(g, e) && k < |g.queue|
    ensures !e.Release? ==> k < |Step(g, e).queue| && Step(g, e).queue[k] == g.queue[k]
    ensures e.Release? && k == 0 ==> g.queue[k] in Step(g, e).granted
    ensures e.Release? && k > 0 ==> k - 1 < |Step(g, e).queue| && Step(g, e).queue[k - 1] == g.queue[k]
  {
    if e.Release? && k == 0 {
      assert Step(g, e).granted[|g.granted|] == g.queue[0];
    }
  }

  /** A caller with `k` waiters ahead has its slot after a run iff the run held `k + 1`
      releases: it is granted at exactly the (k+1)-th, whatever the limits and newcomers. */
  lemma {:induction false} GrantedAtItsRelease(g: Gate, es: seq<Event>, k: nat)
    requires Inv(g) && LegalRun(g, es) && k < |g.queue|
    ensures g.queue[k] in Run(g, es).granted <==> Releases(es) >= k + 1
    decreases |es|
  {
    if es == [] {
      assert g.queue[k] in g.queue;
    } else {
      InvStep(g, es[0]);
      QueueMoves(g, es[0], k);
      if !es[0].Release? {
        GrantedAtItsRelease(Step(g, es[0]), es[1..], k);
      } else if k == 0 {
        GrantsStay(Step(g, es[0]), es[1..], g.queue[k]);
      } else {
        GrantedAtItsRelease(Step(g, es[0]), es[1..], k - 1);
      }
    }
  }

  /** Where the changing limit breaks arrival order: a newcomer overtakes the queue iff the
      limit it brings exceeds the number of holders. */
  lemma OvertakesIffLimitRaised(g: Gate, id: Caller, limit: int)
    requires Inv(g) && g.queue != [] && id !in g.arrived
    ensures id in Step(g, Enter(id, limit)).granted <==> AtLeastOne(limit) > g.active
  {
  }

  // ----- the throttle -----

  class LlmThrottle {
    var active: int
    var queue: seq<Caller>
    const limit: int
    ghost var log: Gate

    ghost predicate Valid()
      reads this
    {
      log.limit == limit && log.active == active && log.queue == queue
    }

    constructor (limit: int)
      ensures Valid() && log == Fresh(limit) && this.limit == limit
    {
      this.limit, active, queue := limit, 0, [];
      log := Fresh(limit);
    }

    /** Returns whether the caller has its slot at once; otherwise it waits in the queue. */
    method Acquire(id: Caller) returns (now: bool)
      requires Valid()
      modifies this
      ensures Valid() && log == Step(old(log), Event.Acquire(id))
      ensures now <==> old(active) < limit
    {
      log := Step(log, Event.Acquire(id));
      if active < limit {
        active := active + 1;
        return true;
      }
      queue := queue + [id];
      now := false;
    }

    /** Returns the waiter whose promise is resolved, if there is one. */
    method Release(ghost id: Caller) returns (next: Option<Caller>)
      requires Valid()
      modifies this
      ensures Valid() && log == Step(old(log), Event.Release(id))
      ensures next == if old(queue) == [] then None else Some(old(queue)[0])
    {
      log := Step(log, Event.Release(id));
      active := active - 1;
      next := None;
      if |queue| > 0 {
        next := Some(queue[0]);
        queue := queue[1..];
        active := active + 1;
      }
    }
  }

  // ----- the connection budget -----

  datatype BudgetClass = AgentQuery | SyncWork

  function GateKey(connector: string, cls: BudgetClass): string
  {
    (if cls.AgentQuery? then "agent-query" else "sync-work") + ":" + connector
  }

  /** Different connectors and classes never share a gate. */
  lemma GateKeysDiffer(a: string, x: BudgetClass, b: string, y: BudgetClass)
    requires GateKey(a, x) == GateKey(b, y)
    ensures a == b && x == y
  {
    assert GateKey(a, x)[0] == if x.AgentQuery? then 'a' else 's';
    assert GateKey(b, y)[0] == if y.AgentQuery? then 'a' else 's';
    var n := if x.AgentQuery? then 12 else 10;
    assert GateKey(a, x)[n..] == a && GateKey(b, y)[n..] == b;
  }

  /** What the program keeps of a gate. */
  datatype GateState = GateState(limit: int, active: int, queue: seq<Caller>)

  class MemoryConnectionBudget {
    var gates: map<string, GateState>
    ghost var log: map<string, Gate>

    ghost predicate Valid()
      reads this
    {
      log.Keys == gates.Keys &&
      forall key :: key in gates ==> gates[key] == GateState(log[key].limit, log[key].active, log[key].queue)
    }

    constructor ()
      ensures Valid() && log == map[]
    {
      gates, log := map[], map[];
    }

    /** The synchronous part of `withSlot`: find or make the gate, set its limit, acquire. */
    method Enter(connector: string, cls: BudgetClass, limit: int, id: Caller) returns (now: bool)
      requires Valid()
      modifies this
      ensures Valid()
      ensures var key := GateKey(connector, cls);
        var gate := if key in old(log) then old(log)[key] else Fresh(AtLeastOne(limit));
        log == old(log)[key := Step(gate, Event.Enter(id, limit))] && (now <==> gate.active < AtLeastOne(limit))
    {
      var key := GateKey(connector, cls);
      log := log[key := Step(if key in log then log[key] else Fresh(AtLeastOne(limit)), Event.Enter(id, limit))];
      var gate;
      if key !in gates {
        gate := GateState(AtLeastOne(limit), 0, []);
      } else {
        gate := gates[key].(limit := AtLeastOne(limit));
      }
      if gate.active < gate.limit {
        gate := gate.(active := gate.active + 1);
        now := true;
      } else {
        gate := gate.(queue := gate.queue + [id]);
        now := false;
      }
      gates := gates[key := gate];
    }

    /** The `finally` of `runWithGate`: give the slot back, or hand it to the next waiter. */
    method Leave(connector: string, cls: BudgetClass, ghost id: Caller) returns (next: Option<Caller>)
      requires Valid() && GateKey(connector, cls) in gates
      modifies this
      ensures Valid()
      ensures var key := GateKey(connector, cls);
        log == old(log)[key := Step(old(log)[key], Event.Release(id))] &&
        next == if old(log)[key].queue == [] then None else Some(old(log)[key].queue[0])
    {
      var key := GateKey(connector, cls);
      log := log[key := Step(log[key], Event.Release(id))];
      var gate := gates[key];
      gate := gate.(active := gate.active - 1);
      next := None;
      if |gate.queue| > 0 {
        next := Some(gate.queue[0]);
        gate := gate.(queue := gate.queue[1..], active := gate.active + 1);
      }
      gates := gates[key := gate];
    }
  }

  // ----- the limits of the two classes -----

  /** `Math.max(1, parseInt(env ?? "3") || 3)`, where `None` is an unparsable setting. */
  function Headroom(setting: Option<int>): (h: int)
    ensures h >= 1
  {
    AtLeastOne(if setting.None? || setting.value == 0 then 3 else setting.value)
  }

  function SyncBudgetLimit(poolMax: int, headroom: Option<int>): int
  {
    AtLeastOne(poolMax - Headroom(headroom))
  }

  function AgentBudgetLimit(poolMax: int, headroom: Option<int>, slots: Option<int>): int
  {
    if slots.Some? && slots.value > 0 then (if slots.value < poolMax then slots.value else poolMax)
    else AtLeastOne(if Headroom(headroom) < poolMax then Headroom(headroom) else poolMax)
  }

  predicate PoolSplitFits(poolMax: int, headroom: Option<int>, slots: Option<int>)
  {
    var h := Headroom(headroom);
    if slots.Some? && slots.value > 0
    then if poolMax > h then slots.value <= h else slots.value < poolMax
    else poolMax > h
  }

  /** The two classes' limits stay within a pool of at least one connection iff the split
      fits; without explicit agent slots they use it up exactly, or exceed it by one. */
  lemma LimitsFitThePool(poolMax: int, headroom: Option<int>, slots: Option<int>)
    requires poolMax >= 1
    ensures var both := SyncBudgetLimit(poolMax, headroom) + AgentBudgetLimit(poolMax, headroom, slots);
      (both <= poolMax <==> PoolSplitFits(poolMax, headroom, slots)) &&
      (!(slots.Some? && slots.value > 0) ==> both == if poolMax > Headroom(headroom) then poolMax else poolMax + 1)
  {
  }

  /** The limits of a pool of `n` connections: three slots are kept for the agents unless the
      settings say otherwise. */
  lemma DefaultLimits(n: nat)
    requires n > 3
    ensures SyncBudgetLimit(n, None) == SyncBudgetLimit(n, Some(0)) == n - 3
    ensures AgentBudgetLimit(n, None, None) == AgentBudgetLimit(n, None, Some(0)) == 3
    ensures SyncBudgetLimit(n, Some(1)) == n - 1 && AgentBudgetLimit(n, Some(1), None) == 1
    ensures AgentBudgetLimit(n, None, Some(n + 1)) == n && AgentBudgetLimit(n, None, Some(n - 1)) == n - 1
  {
  }

  ghost predicate LimitsAtMost(es: seq<Event>, limit: int)
  {
    forall e :: e in es ==> !e.Enter? || AtLeastOne(e.limit) <= limit
  }

  lemma {:induction false} PeakBound(g: Gate, es: seq<Event>, limit: int)
    requires g.peak <= limit && LimitsAtMost(es, limit)
    ensures Run(g, es).peak <= limit
    decreases |es|
  {
    if es != [] {
      assert es[0] in es;
      PeakBound(Step(g, es[0]), es[1..], limit);
    }
  }

  /** The bound is reached: as many callers as the limit allows all hold a slot at once. */
  lemma {:induction false} LimitIsReached(limit: nat, n: nat) returns (es: seq<Event>)
    requires n <= limit && limit >= 1
    ensures LegalRun(Fresh(limit), es) && LimitsAtMost(es, limit)
    ensures Run(Fresh(limit), es).active == n && forall id :: id in Run(Fresh(limit), es).arrived ==> id < n
    ensures Run(Fresh(limit), es).limit == limit == Run(Fresh(limit), es).peak
  {
    if n == 0 {
      es := [];
    } else {
      var before := LimitIsReached(limit, n - 1);
      var e := Enter(n - 1, limit);
      es := before + [e];
      RunAppend(Fresh(limit), before, e);
    }
  }

  /** A run of a class whose callers never ask for more than its limit. */
  ghost predicate ClassRun(es: seq<Event>, limit: int)
  {
    LegalRun(Fresh(limit), es) && LimitsAtMost(es, limit)
  }

  lemma ClassRunBound(es: seq<Event>, limit: int)
    requires limit >= 1 && ClassRun(es, limit)
    ensures Run(Fresh(limit), es).active <= limit
  {
    InvRun(Fresh(limit), es);
    PeakBound(Fresh(limit), es, limit);
  }

  /** The slots that two runs, one per class, hold together. */
  ghost function HeldTogether(n: int, sync: seq<Event>, m: int, agent: seq<Event>): int
  {
    Run(Fresh(n), sync).active + Run(Fresh(m), agent).active
  }

  /** The two classes together never hold more than the pool, over any two runs, iff the split
      of the pool fits. */
  lemma PoolNeverOversubscribed(poolMax: int, headroom: Option<int>, slots: Option<int>)
    requires poolMax >= 1
    ensures var n, m := SyncBudgetLimit(poolMax, headroom), AgentBudgetLimit(poolMax, headroom, slots);
      PoolSplitFits(poolMax, headroom, slots) <==>
      forall sync, agent :: ClassRun(sync, n) && ClassRun(agent, m) ==> HeldTogether(n, sync, m, agent) <= poolMax
  {
    var n, m := SyncBudgetLimit(poolMax, headroom), AgentBudgetLimit(poolMax, headroom, slots);
    LimitsFitThePool(poolMax, headroom, slots);
    if PoolSplitFits(poolMax, headroom, slots) {
      forall sync, agent | ClassRun(sync, n) && ClassRun(agent, m) ensures HeldTogether(n, sync, m, agent) <= poolMax {
        ClassRunBound(sync, n);
        ClassRunBound(agent, m);
      }
    } else {
      var sync := LimitIsReached(n, n);
      var agent := LimitIsReached(m, m);
      assert ClassRun(sync, n) && ClassRun(agent, m) && HeldTogether(n, sync, m, agent) > poolMax;
    }
  }

  lemma {:induction false} RunAppend(g: Gate, es: seq<Event>, e: Event)
    ensures Run(g, es + [e]) == Step(Run(g, es), e)
    ensures LegalRun(g, es) && Legal(Run(g, es), e) ==> LegalRun(g, es + [e])
    decreases |es|
  {
    if es == [] {
      assert [e][1..] == [] && [] + [e] == [e];
    } else {
      RunAppend(Step(g, es[0]), es[1..], e);
      assert (es + [e])[1..] == es[1..] + [e];
    }
  }
}
