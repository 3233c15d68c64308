/** The resumable multi-dialect migration runner. */
module Migrations {
  import opened JsText

  datatype Dialect = Sqlite | Mssql | Postgres

  /** A versioned step and the dialects it has a body for. */
  datatype MigrationStep = MigrationStep(version: int, name: string, bodies: set<Dialect>)

  /** How a run ends: at the end, at a step without a body for the dialect, or stopped at some
      await, by a throwing call or by the death of the process. */
  datatype Ending = Completed | NoBody(version: int) | Stopped

  /** The applied set after a run, the bodies that ran to the end in it, and how it ended. */
  datatype Result = Result(applied: set<int>, executed: seq<int>, ending: Ending)

  // ----- order -----

  function Insert(step: MigrationStep, ordered: seq<MigrationStep>): seq<MigrationStep>
  {
    if ordered == [] || step.version <= ordered[0].version then [step] + ordered
    else [ordered[0]] + Insert(step, ordered[1..])
  }

  /** `[...steps].sort((a, b) => a.version - b.version)`, which is stable. */
  function SortByVersion(steps: seq<MigrationStep>): seq<MigrationStep>
  {
    if steps == [] then [] else Insert(steps[0], SortByVersion(steps[1..]))
  }

  ghost predicate Ordered(steps: seq<MigrationStep>)
  {
    forall i, j :: 0 <= i < j < |steps| ==> steps[i].version <= steps[j].version
  }

  lemma {:induction false} InsertPermutes(step: MigrationStep, ordered: seq<MigrationStep>)
    ensures multiset(Insert(step, ordered)) == multiset(ordered) + multiset{step}
  {
    if ordered != [] && step.version > ordered[0].version {
      InsertPermutes(step, ordered[1..]);
      assert ordered == [ordered[0]] + ordered[1..];
    }
  }

  lemma {:induction false} InsertKeepsOrder(step: MigrationStep, ordered: seq<MigrationStep>)
    requires Ordered(ordered)
    ensures Ordered(Insert(step, ordered))
  {
    if ordered != [] && step.version > ordered[0].version {
      InsertKeepsOrder(step, ordered[1..]);
      var rest := Insert(step, ordered[1..]);
      InsertPermutes(step, ordered[1..]);
      forall j | 0 <= j < |rest| ensures ordered[0].version <= rest[j].version {
        assert rest[j] in multiset(rest);
      }
    }
  }

  lemma {:induction false} SortIsAnOrdering(steps: seq<MigrationStep>)
    ensures Ordered(SortByVersion(steps)) && multiset(SortByVersion(steps)) == multiset(steps)
  {
    if steps != [] {
      SortIsAnOrdering(steps[1..]);
      InsertKeepsOrder(steps[0], SortByVersion(steps[1..]));
      InsertPermutes(steps[0], SortByVersion(steps[1..]));
      assert steps == [steps[0]] + steps[1..];
    }
  }

  // ----- the runner -----

  /** A run over ordered steps that is stopped once `awaits` of its moments are past: `has`
      returned, the body ended, `record` took effect, `record` returned. */
  function Apply(dialect: Dialect, steps: seq<MigrationStep>, applied: set<int>, awaits: nat): Result
    decreases |steps|
  {
    if steps == [] then Result(applied, [], Completed)
    else if awaits == 0 then Result(applied, [], Stopped)  // in `has`
    else
      var step := steps[0];
      if step.version in applied then Apply(dialect, steps[1..], applied, awaits - 1)
      else if dialect !in step.bodies then Result(applied, [], NoBody(step.version))
      else if awaits == 1 then Result(applied, [], Stopped)  // in the body
      else if awaits == 2 then Result(applied, [step.version], Stopped)  // before `record` took effect
      else if awaits == 3 then Result(applied + {step.version}, [step.version], Stopped)  // and after
      else
        var rest := Apply(dialect, steps[1..], applied + {step.version}, awaits - 4);
        Result(rest.applied, [step.version] + rest.executed, rest.ending)
  }

  /** Enough moments to get to the end. */
  function Uninterrupted(steps: seq<MigrationStep>): nat
  {
    4 * |steps|
  }

  class MigrationTable {
    var applied: set<int>
    var executed: seq<int>

    /** `applyMultiDialectPending`, stopped once `awaits` of its moments are past. */
    method ApplyMultiDialectPending(dialect: Dialect, steps: seq<MigrationStep>, awaits: nat) returns (ending: Ending)
      modifies this
      ensures var r := Apply(dialect, SortByVersion(steps), old(applied), awaits);
        applied == r.applied && executed == old(executed) + r.executed && ending == r.ending
    {
      var ordered := SortByVersion(steps);
      var left := awaits;
      assert ordered[0..] == ordered;
      ghost var whole := Apply(dialect, ordered, applied, awaits);
      ghost var mine: seq<int> := [];
      for i := 0 to |ordered|
        invariant left >= 0 && executed == old(executed) + mine
        invariant var r := Apply(dialect, ordered[i..], applied, left);
          whole == Result(r.applied, mine + r.executed, r.ending)
      {
        var step := ordered[i];
        assert ordered[i..][1..] == ordered[i + 1..];
        if left == 0 { return Stopped; }
        left := left - 1;
        if step.version in applied { continue; }
        if dialect !in step.bodies { return NoBody(step.version); }
        if left == 0 { return Stopped; }
        left := left - 1;
        Assoc(old(executed), mine, [step.version]);
        ghost var before := mine;
        executed := executed + [step.version];
        mine := mine + [step.version];
        if left == 0 { return Stopped; }
        left := left - 1;
        applied := applied + {step.version};
        if left == 0 { return Stopped; }
        left := left - 1;
        Assoc(before, [step.version], Apply(dialect, ordered[i + 1..], applied, left).executed);
      }
      ending := Completed;
    }
  }

  // ----- prefixes -----

  function Versions(steps: seq<MigrationStep>): set<int>
  {
    set s | s in steps :: s.version
  }

  lemma VersionsCons(steps: seq<MigrationStep>, k: nat)
    requires 0 < k <= |steps|
    ensures Versions(steps[..k]) == {steps[0].version} + Versions(steps[1..][..k - 1])
  {
    assert steps[..k] == [steps[0]] + steps[1..][..k - 1];
  }

  /** How far a run got: the number of leading steps whose versions are applied after it. */
  function Reached(dialect: Dialect, steps: seq<MigrationStep>, applied: set<int>, awaits: nat): (k: nat)
    ensures k <= |steps|
    decreases |steps|
  {
    if steps == [] || awaits == 0 then 0
    else if steps[0].version in applied then 1 + Reached(dialect, steps[1..], applied, awaits - 1)
    else if dialect !in steps[0].bodies || awaits <= 2 then 0
    else if awaits == 3 then 1
    else 1 + Reached(dialect, steps[1..], applied + {steps[0].version}, awaits - 4)
  }

  /** Step `j` has no body and is still to be applied when the steps before it are. */
  predicate Blocks(dialect: Dialect, steps: seq<MigrationStep>, applied: set<int>, j: nat)
    requires j < |steps|
  {
    dialect !in steps[j].bodies && steps[j].version !in applied + Versions(steps[..j])
  }

  lemma BlocksCons(dialect: Dialect, steps: seq<MigrationStep>, applied: set<int>, j: nat)
    requires 0 < j < |steps| && Blocks(dialect, steps, applied, j)
    ensures Blocks(dialect, steps[1..], applied + {steps[0].version}, j - 1)
  {
    VersionsCons(steps, j);
    assert steps[j] == steps[1..][j - 1];
  }

  lemma {:induction false} NeverPassesBlocked(dialect: Dialect, steps: seq<MigrationStep>, applied: set<int>,
                                              awaits: nat, j: nat)
    requires j < |steps| && Blocks(dialect, steps, applied, j)
    ensures Reached(dialect, steps, applied, awaits) <= j
    decreases |steps|
  {
    if j > 0 {
      BlocksCons(dialect, steps, applied, j);
      var more := applied + {steps[0].version};
      if awaits > 0 && steps[0].version in applied {
        assert more == applied;
        NeverPassesBlocked(dialect, steps[1..], more, awaits - 1, j - 1);
      } else if awaits > 3 {
        NeverPassesBlocked(dialect, steps[1..], more, awaits - 4, j - 1);
      }
    } else {
      assert steps[..0] == [];
    }
  }

  lemma OneStepMore(steps: seq<MigrationStep>, applied: set<int>, k: nat)
    requires 0 < k <= |steps|
    ensures applied + Versions(steps[..k]) == (applied + {steps[0].version}) + Versions(steps[1..][..k - 1])
    ensures k < |steps| ==> steps[k] == steps[1..][k - 1]
    ensures k == 1 ==> Versions(steps[1..][..k - 1]) == {}
  {
    VersionsCons(steps, k);
  }

  lemma {:induction false} AppliedUpToReached(dialect: Dialect, steps: seq<MigrationStep>, applied: set<int>,
                                              awaits: nat)
    ensures var r, k := Apply(dialect, steps, applied, awaits), Reached(dialect, steps, applied, awaits);
      r.applied == applied + Versions(steps[..k]) &&
      (r.ending.Completed? ==> k == |steps|) &&
      (r.ending.NoBody? ==>
        k < |steps| && steps[k].version == r.ending.version && dialect !in steps[k].bodies &&
        r.ending.version !in r.applied)
    decreases |steps|
  {
    var k := Reached(dialect, steps, applied, awaits);
    if k > 0 {
      var more := applied + {steps[0].version};
      OneStepMore(steps, applied, k);
      if steps[0].version in applied {
        assert more == applied;
        AppliedUpToReached(dialect, steps[1..], applied, awaits - 1);
      } else if awaits > 3 {
        AppliedUpToReached(dialect, steps[1..], more, awaits - 4);
      }
    }
  }

  /** After any run, however it ends, the applied set is the initial set plus the versions of
      a prefix of the ordered steps. The prefix is everything if the run completes, ends at
      the step without a body if it reports one, and never passes an unapplied step that has
      no body. */
  lemma AppliedIsAPrefix(dialect: Dialect, steps: seq<MigrationStep>, applied: set<int>, awaits: nat)
    ensures var r, k := Apply(dialect, steps, applied, awaits), Reached(dialect, steps, applied, awaits);
      r.applied == applied + Versions(steps[..k]) &&
      (r.ending.Completed? ==> k == |steps|) &&
      (r.ending.NoBody? ==>
        k < |steps| && steps[k].version == r.ending.version && dialect !in steps[k].bodies &&
        r.ending.version !in r.applied) &&
      (forall j :: 0 <= j < |steps| && Blocks(dialect, steps, applied, j) ==> k <= j)
  {
    AppliedUpToReached(dialect, steps, applied, awaits);
    forall j | 0 <= j < |steps| && Blocks(dialect, steps, applied, j)
      ensures Reached(dialect, steps, applied, awaits) <= j
    {
      NeverPassesBlocked(dialect, steps, applied, awaits, j);
    }
  }

  lemma AppliedGrows(dialect: Dialect, steps: seq<MigrationStep>, applied: set<int>, awaits: nat)
    ensures applied <= Apply(dialect, steps, applied, awaits).applied
  {
    AppliedIsAPrefix(dialect, steps, applied, awaits);
  }

  // ----- resuming -----

  /** Picking up where an interrupted run left off reaches the same set, and ends the same way,
      as running without interruption. */
  lemma {:induction false} ResumeReachesTheSame(dialect: Dialect, steps: seq<MigrationStep>, applied: set<int>,
                                                awaits: nat, full: nat)
    requires full >= Uninterrupted(steps)
    ensures var again := Apply(dialect, steps, Apply(dialect, steps, applied, awaits).applied, full);
      var once := Apply(dialect, steps, applied, full);
      again.applied == once.applied && again.ending == once.ending && !again.ending.Stopped?
    decreases |steps|
  {
    if steps != [] {
      var v := steps[0].version;
      if awaits > 0 && v in applied {
        AppliedGrows(dialect, steps[1..], applied, awaits - 1);
        ResumeReachesTheSame(dialect, steps[1..], applied, awaits - 1, full - 1);
      } else if awaits == 3 && dialect in steps[0].bodies {
        NeverStopped(dialect, steps, applied, full);
        FuelIrrelevant(dialect, steps[1..], applied + {v}, full - 1, full - 4);
      } else if awaits > 3 && dialect in steps[0].bodies {
        AppliedGrows(dialect, steps[1..], applied + {v}, awaits - 4);
        ResumeReachesTheSame(dialect, steps[1..], applied + {v}, awaits - 4, full - 4);
        FuelIrrelevant(dialect, steps[1..], Apply(dialect, steps[1..], applied + {v}, awaits - 4).applied, full - 1,
                       full - 4);
      } else {
        assert Apply(dialect, steps, applied, awaits).applied == applied;
        NeverStopped(dialect, steps, applied, full);
      }
    }
  }

  lemma {:induction false} NeverStopped(dialect: Dialect, steps: seq<MigrationStep>, applied: set<int>, full: nat)
    requires full >= Uninterrupted(steps)
    ensures !Apply(dialect, steps, applied, full).ending.Stopped?
    decreases |steps|
  {
    if steps != [] {
      NeverStopped(dialect, steps[1..], applied, full - 1);
      NeverStopped(dialect, steps[1..], applied + {steps[0].version}, full - 4);
    }
  }

  lemma {:induction false} FuelIrrelevant(dialect: Dialect, steps: seq<MigrationStep>, applied: set<int>, a: nat,
                                          b: nat)
    requires a >= Uninterrupted(steps) && b >= Uninterrupted(steps)
    ensures Apply(dialect, steps, applied, a) == Apply(dialect, steps, applied, b)
    decreases |steps|
  {
    if steps != [] {
      FuelIrrelevant(dialect, steps[1..], applied, a - 1, b - 1);
      FuelIrrelevant(dialect, steps[1..], applied + {steps[0].version}, a - 4, b - 4);
    }
  }

  /** The applied set after a series of interrupted runs. */
  function AfterRuns(dialect: Dialect, steps: seq<MigrationStep>, applied: set<int>, stops: seq<nat>): set<int>
    decreases |stops|
  {
    if stops == [] then applied
    else AfterRuns(dialect, steps, Apply(dialect, steps, applied, stops[0]).applied, stops[1..])
  }

  /** Any series of interrupted runs, followed by one that is not interrupted, reaches the same
      applied set as that one alone. */
  lemma {:induction false} InterruptionsDoNotMatter(dialect: Dialect, steps: seq<MigrationStep>, applied: set<int>,
                                                    stops: seq<nat>)
    ensures var full := Uninterrupted(steps);
      var last := Apply(dialect, steps, AfterRuns(dialect, steps, applied, stops), full);
      var once := Apply(dialect, steps, applied, full);
      last.applied == once.applied && last.ending == once.ending
    decreases |stops|
  {
    if stops != [] {
      var full := Uninterrupted(steps);
      InterruptionsDoNotMatter(dialect, steps, Apply(dialect, steps, applied, stops[0]).applied, stops[1..]);
      ResumeReachesTheSame(dialect, steps, applied, stops[0], full);
    }
  }

  /** Once everything is applied, a further run executes no body, wherever it is stopped. */
  lemma {:induction false} NothingLeftToRun(dialect: Dialect, steps: seq<MigrationStep>, applied: set<int>, awaits: nat)
    requires Versions(steps) <= applied
    ensures Apply(dialect, steps, applied, awaits).executed == []
    ensures Apply(dialect, steps, applied, awaits).applied == applied
    decreases |steps|
  {
    if steps != [] {
      assert steps[0] in steps && steps[0].version in Versions(steps);
      assert forall s :: s in steps[1..] ==> s in steps;
      if awaits > 0 {
        NothingLeftToRun(dialect, steps[1..], applied, awaits - 1);
      }
    }
  }

  lemma CompletedMeansNothingLeft(dialect: Dialect, steps: seq<MigrationStep>, applied: set<int>, awaits: nat,
                                  more: nat)
    requires Apply(dialect, steps, applied, awaits).ending.Completed?
    ensures Apply(dialect, steps, Apply(dialect, steps, applied, awaits).applied, more).executed == []
  {
    AppliedIsAPrefix(dialect, steps, applied, awaits);
    assert steps[..|steps|] == steps;
    NothingLeftToRun(dialect, steps, Apply(dialect, steps, applied, awaits).applied, more);
  }

  function SetOf(vs: seq<int>): set<int>
  {
    set v | v in vs
  }

  lemma SetOfCons(v: int, vs: seq<int>)
    ensures SetOf([v] + vs) == {v} + SetOf(vs)
    ensures vs != [] ==> SetOf(([v] + vs)[..|vs|]) == {v} + SetOf(vs[..|vs| - 1])
  {
    if vs != [] {
      assert ([v] + vs)[..|vs|] == [v] + vs[..|vs| - 1];
    }
  }

  /** Within one run each body runs at most once, and only if it was not applied before. */
  lemma {:induction false} BodiesRunOnce(dialect: Dialect, steps: seq<MigrationStep>, applied: set<int>, awaits: nat)
    ensures var vs := Apply(dialect, steps, applied, awaits).executed;
      Distinct(vs) && forall v :: v in vs ==> v !in applied
    decreases |steps|
  {
    if steps != [] && awaits > 0 {
      var v := steps[0].version;
      if v in applied {
        BodiesRunOnce(dialect, steps[1..], applied, awaits - 1);
      } else if dialect in steps[0].bodies && awaits > 3 {
        BodiesRunOnce(dialect, steps[1..], applied + {v}, awaits - 4);
      }
    }
  }

  ghost predicate Recorded(applied: set<int>, r: Result)
  {
    r.applied == applied + SetOf(r.executed)
  }

  /** All bodies that ran are recorded but the last. */
  ghost predicate LastUnrecorded(applied: set<int>, r: Result)
  {
    var n := |r.executed|;
    n > 0 && r.ending.Stopped? && r.executed[n - 1] !in r.applied && r.applied == applied + SetOf(r.executed[..n - 1])
  }

  lemma OneBodyMore(applied: set<int>, v: int, rest: Result)
    ensures var r := Result(rest.applied, [v] + rest.executed, rest.ending);
      (Recorded(applied + {v}, rest) ==> Recorded(applied, r)) &&
      (LastUnrecorded(applied + {v}, rest) ==> LastUnrecorded(applied, r))
  {
    SetOfCons(v, rest.executed);
  }

  /** Every body that ran is recorded, except the last one of a run that was stopped after it
      and before its `record` took effect. */
  lemma {:induction false} BodiesAreRecorded(dialect: Dialect, steps: seq<MigrationStep>, applied: set<int>,
                                             awaits: nat)
    ensures var r := Apply(dialect, steps, applied, awaits);
      Recorded(applied, r) || LastUnrecorded(applied, r)
    decreases |steps|
  {
    if steps != [] && awaits > 0 {
      var v := steps[0].version;
      if v in applied {
        BodiesAreRecorded(dialect, steps[1..], applied, awaits - 1);
      } else if dialect in steps[0].bodies && awaits > 3 {
        BodiesAreRecorded(dialect, steps[1..], applied + {v}, awaits - 4);
        OneBodyMore(applied, v, Apply(dialect, steps[1..], applied + {v}, awaits - 4));
      } else if dialect in steps[0].bodies && awaits == 3 {
        assert SetOf([v]) == {v};
      } else if dialect in steps[0].bodies && awaits == 2 {
        assert SetOf([v][..0]) == {};
      }
    }
  }

  /** A body that ended and was not recorded is the first that the next run executes. */
  lemma {:induction false} LastRunsAgain(dialect: Dialect, steps: seq<MigrationStep>, applied: set<int>,
                                         awaits: nat, full: nat)
    requires full >= Uninterrupted(steps)
    requires var r := Apply(dialect, steps, applied, awaits);
      r.executed != [] && r.executed[|r.executed| - 1] !in r.applied
    ensures var r := Apply(dialect, steps, applied, awaits);
      var again := Apply(dialect, steps, r.applied, full).executed;
      again != [] && again[0] == r.executed[|r.executed| - 1]
    decreases |steps|
  {
    var v := steps[0].version;
    if v in applied {
      AppliedGrows(dialect, steps[1..], applied, awaits - 1);
      LastRunsAgain(dialect, steps[1..], applied, awaits - 1, full - 1);
    } else if awaits > 3 {
      AppliedGrows(dialect, steps[1..], applied + {v}, awaits - 4);
      LastRunsAgain(dialect, steps[1..], applied + {v}, awaits - 4, full - 1);
    }
  }

  /** So if a run's applied set does not hold all the bodies that it ran, then the next run
      that is not stopped begins by running the last of them again. */
  lemma UnrecordedRunsAgain(dialect: Dialect, steps: seq<MigrationStep>, applied: set<int>, awaits: nat, full: nat)
    requires full >= Uninterrupted(steps)
    requires !Recorded(applied, Apply(dialect, steps, applied, awaits))
    ensures var r := Apply(dialect, steps, applied, awaits);
      var again := Apply(dialect, steps, r.applied, full).executed;
      r.executed != [] && again != [] && again[0] == r.executed[|r.executed| - 1]
  {
    BodiesAreRecorded(dialect, steps, applied, awaits);
    LastRunsAgain(dialect, steps, applied, awaits, full);
  }

  /** A body that ran in a run runs again in the next run that is not stopped, iff the first
      run's applied set does not hold all the bodies that it ran. */
  lemma RunsAgainIffUnrecorded(dialect: Dialect, steps: seq<MigrationStep>, applied: set<int>, awaits: nat, full: nat)
    requires full >= Uninterrupted(steps)
    ensures var r := Apply(dialect, steps, applied, awaits);
      var again := Apply(dialect, steps, r.applied, full).executed;
      (exists v :: v in r.executed && v in again) <==> !Recorded(applied, r)
  {
    var r := Apply(dialect, steps, applied, awaits);
    if Recorded(applied, r) {
      BodiesRunOnce(dialect, steps, r.applied, full);
      assert forall v :: v in r.executed ==> v in r.applied;
    } else {
      UnrecordedRunsAgain(dialect, steps, applied, awaits, full);
      assert r.executed[|r.executed| - 1] in r.executed;
    }
  }

  /** One step, stopped between its body and the effect of its `record`. */
  lemma BodyMayRunTwice(dialect: Dialect, version: int, name: string)
    ensures var steps := [MigrationStep(version, name, {dialect})];
      var first := Apply(dialect, steps, {}, 2);
      var second := Apply(dialect, steps, first.applied, Uninterrupted(steps));
      first == Result({}, [version], Stopped) && second.executed == [version] && second.ending.Completed?
  {
    var steps := [MigrationStep(version, name, {dialect})];
    assert steps[1..] == [];
  }
}
