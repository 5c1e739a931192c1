/** What the module manager guarantees in every reachable state and over every run. */
module LoaderTheorems {
  import opened Sequences
  import opened Options
  import opened Graphs
  import opened LoaderModel
  import opened LoaderInvariant
  import opened LoaderSteps

  // ---- what a cascade may change ----

  /** Only completions and releases: no failure, no new edge, nothing completed twice. */
  ghost predicate Cascaded(s: State, t: State) {
    && t.frames == s.frames && t.declared == s.declared && t.cuts == s.cuts && t.requests == s.requests
    && t.modules.Keys == s.modules.Keys
    && (forall m :: m in s.modules ==> t.modules[m].failed == s.modules[m].failed)
    && (forall m :: m in s.modules && s.modules[m].complete ==> t.modules[m].complete)
    && (forall d :: d in t.waiters ==> d in s.waiters && t.waiters[d] == s.waiters[d])
    && Appended(s, t)
  }

  /** The completion log only grows, and only by modules that were not complete. */
  ghost predicate Appended(s: State, t: State) {
    && s.completed <= t.completed
    && forall i :: |s.completed| <= i < |t.completed| ==> !IsComplete(s, t.completed[i])
  }

  lemma CascadedTrans(s: State, t: State, u: State)
    requires Cascaded(s, t) && Cascaded(t, u)
    ensures Cascaded(s, u)
  {
  }

  lemma {:induction false} OnCompleteCascades(s: State, m: Id)
    requires WaitersDefined(s) && m in s.modules
    ensures Cascaded(s, OnComplete(s, m))
    decreases Incomplete(s), 1, 0
  {
    if !s.modules[m].complete {
      var s1 := MarkComplete(s, m);
      assert m in Incomplete(s) && m !in Incomplete(s1);
      assert Incomplete(s1) < Incomplete(s);
      assert Cascaded(s, s1);
      NotifyCascades(s1, WaitersOf(s.waiters, m));
      CascadedTrans(s, s1, OnComplete(s, m));
    }
  }

  lemma {:induction false} ReleaseCascades(s: State, x: Id)
    requires WaitersDefined(s) && x in s.modules
    ensures Cascaded(s, Release(s, x))
    decreases Incomplete(s), 2, 0
  {
    var s1 := Decrement(s, x);
    assert Incomplete(s1) == Incomplete(s);
    assert Cascaded(s, s1);
    if s1.modules[x].unresolved == 0 {
      OnCompleteCascades(s1, x);
      CascadedTrans(s, s1, OnComplete(s1, x));
    }
  }

  lemma {:induction false} NotifyCascades(s: State, list: seq<Id>)
    requires WaitersDefined(s) && forall x :: x in list ==> x in s.modules
    ensures Cascaded(s, Notify(s, list))
    decreases Incomplete(s), 3, |list|
  {
    if list != [] {
      var s1 := Release(s, list[0]);
      ReleaseCascades(s, list[0]);
      NotifyCascades(s1, list[1..]);
      CascadedTrans(s, s1, Notify(s, list));
    }
  }

  lemma FinishCascades(s: State)
    requires s.frames != [] && s.frames[0].id in s.modules && WaitersDefined(s)
    ensures Cascaded(s.(frames := s.frames[1..]), Finish(s))
  {
    var s0 := s.(frames := s.frames[1..]);
    assert Cascaded(s0, s0);
    if s.modules[s.frames[0].id].unresolved == 0 {
      OnCompleteCascades(s0, s.frames[0].id);
    }
  }

  // ---- what no step undoes ----

  ghost predicate Grown(s: State, t: State) {
    && Appended(s, t)
    && s.cuts <= t.cuts
    && (forall m :: m in s.declared ==> m in t.declared && t.declared[m] == s.declared[m])
    && (forall m :: IsComplete(s, m) ==> IsComplete(t, m))
    && (forall m :: IsFailed(s, m) ==> IsFailed(t, m))
  }

  lemma GrownTrans(s: State, t: State, u: State)
    requires Grown(s, t) && Grown(t, u)
    ensures Grown(s, u)
  {
  }

  lemma NextGrown(s: State, e: Event)
    requires Valid(s) && Enabled(s, e)
    ensures Grown(s, Next(s, e))
  {
    hide Valid, Grown, Begin, ResolveOne, Finish, LoadError;
    match e
    case DefineEvent(id, deps) => BeginGrown(s, id, deps);
    case ResolveEvent => ResolveGrown(s);
    case FinishEvent => FinishGrown(s);
    case ErrorEvent(f) => LoadErrorGrown(s, f);
  }

  lemma BeginGrown(s: State, id: Id, deps: seq<Dep>)
    requires Valid(s)
    ensures Grown(s, Begin(s, id, deps))
  {
    hide Valid;
    DefinedModules(s);
  }

  lemma ResolveGrown(s: State)
    requires Resolving(s)
    ensures Grown(s, ResolveOne(s))
  {
  }

  lemma DefinedModules(s: State)
    requires Valid(s)
    ensures forall m :: m in s.declared ==> m in s.modules
  {
  }

  lemma FinishGrown(s: State)
    requires Enabled(s, FinishEvent)
    ensures Grown(s, Finish(s))
  {
    hide Finish;
    FinishCascades(s);
  }

  lemma LoadErrorGrown(s: State, f: Id)
    ensures Grown(s, LoadError(s, f))
  {
  }

  lemma {:induction false} RunGrown(s: State, es: seq<Event>, t: State)
    requires Valid(s) && Run(s, es, t)
    ensures Grown(s, t)
    decreases |es|
  {
    hide Valid, Grown;
    if es == [] {
      GrownRefl(s);
    } else {
      var s1 := Next(s, es[0]);
      NextValid(s, es[0]);
      NextGrown(s, es[0]);
      RunGrown(s1, es[1..], t);
      GrownTrans(s, s1, t);
    }
  }

  lemma GrownRefl(s: State)
    ensures Grown(s, s)
  {
  }

  // ---- counters ----

  /**
   * Between steps, an incomplete module's counter is the number of its occurrences over all
   * inverse-dependency lists plus the dependencies its own _resolve call has still to examine;
   * a completed one occurs nowhere; every listed waiter is defined.
   */
  lemma CounterExactness(t: State)
    requires Reachable(t)
    ensures forall m :: m in t.modules && !t.modules[m].complete ==>
      t.modules[m].unresolved == Total(t.waiters)[m] + Remaining(t.frames, m)
    ensures forall m :: m in t.modules && !t.modules[m].complete && !HasFrame(t.frames, m) ==>
      t.modules[m].unresolved > 0
    ensures forall m :: m in t.completed ==> Total(t.waiters)[m] == 0
    ensures WaitersDefined(t)
  {
    ReachableValid(t);
    Counters(t);
  }

  lemma Counters(t: State)
    requires Valid(t)
    ensures forall m :: m in t.modules && !t.modules[m].complete ==>
      t.modules[m].unresolved == Total(t.waiters)[m] + Remaining(t.frames, m)
    ensures forall m :: m in t.modules && !t.modules[m].complete && !HasFrame(t.frames, m) ==>
      t.modules[m].unresolved > 0
    ensures forall m :: m in t.completed ==> IsComplete(t, m) && Total(t.waiters)[m] == 0 && Remaining(t.frames, m) == 0
    ensures WaitersDefined(t)
  {
  }

  /** The work left in the active _resolve calls: every internal step reduces it. */
  ghost function Work(frames: seq<Frame>): nat {
    if frames == [] then 0 else |frames[0].rest| + 1 + Work(frames[1..])
  }

  /** While a _resolve call is active some internal step is enabled, and it reduces the work left. */
  lemma ResolvingProgresses(t: State)
    requires Reachable(t) && t.frames != []
    ensures Enabled(t, ResolveEvent) || Enabled(t, FinishEvent)
    ensures forall e :: e in {ResolveEvent, FinishEvent} && Enabled(t, e) ==> Work(Next(t, e).frames) < Work(t.frames)
  {
    hide Valid, WaitersDefined, ResolveOne, Finish;
    ReachableValid(t);
    FramesDefined(t);
    if Enabled(t, ResolveEvent) {
      ResolveWork(t);
    }
    if Enabled(t, FinishEvent) {
      FinishCascades(t);
    }
  }

  lemma ResolveWork(t: State)
    requires Resolving(t)
    ensures Work(ResolveOne(t).frames) < Work(t.frames)
  {
  }

  lemma FramesDefined(t: State)
    requires Valid(t) && t.frames != []
    ensures t.frames[0].id in t.modules && WaitersDefined(t)
  {
  }

  // ---- deadlock freedom ----

  /** Every script that was asked for has been answered, by a definition or an error. */
  ghost predicate Answered(t: State) {
    forall x :: x in t.requests ==> x in t.modules
  }

  ghost predicate Quiescent(t: State) {
    t.frames == [] && Answered(t)
  }

  lemma WaitFacts(t: State)
    requires Valid(t)
    ensures Acyclic(WaitEdges(t.waiters))
    ensures forall d :: d in t.waiters && t.waiters[d] != [] ==>
      d !in t.completed && (d in t.modules || d in t.requests)
    ensures forall m :: m in t.modules && t.modules[m].complete && !t.modules[m].failed ==> m in t.completed
    ensures forall m :: m in t.modules && t.modules[m].failed ==> t.modules[m].complete
  {
  }

  /** An incomplete module of a quiescent state waits for one that is incomplete or failed. */
  lemma WaitsForSomething(t: State, m: Id) returns (d: Id)
    requires Valid(t) && Quiescent(t) && m in t.modules && !t.modules[m].complete
    ensures (m, d) in WaitEdges(t.waiters) && d in t.modules && (IsFailed(t, d) || !IsComplete(t, d))
  {
    hide Inv;
    Counters(t);
    WaitFacts(t);
    assert !HasFrame(t.frames, m);
    assert Total(t.waiters)[m] > 0;
    TotalMember(t.waiters, m);
    d :| d in t.waiters && m in t.waiters[d];
    WaiterEdge(t, m, d);
  }

  lemma LeadsToFailure(t: State, m: Id) returns (x: Id)
    requires Valid(t) && Quiescent(t) && m in t.modules && !t.modules[m].complete
    ensures IsFailed(t, x) && Reach(WaitEdges(t.waiters), m, x)
  {
    hide Inv;
    WaitFacts(t);
    var g := WaitEdges(t.waiters);
    var exits := set y | y in t.modules && t.modules[y].failed;
    var open := set y | y in t.modules && (t.modules[y].failed || !t.modules[y].complete);
    forall y | y in open && y !in exits ensures exists z :: z in open && (y, z) in g {
      var z := WaitsForSomething(t, y);
      assert z in open && (y, z) in g;
    }
    x := LeadsToExit(g, open, exits, m, {});
  }

  lemma WaitingIsUnfinished(t: State, m: Id, x: Id)
    requires Valid(t) && Reach(WaitEdges(t.waiters), m, x)
    ensures m in t.modules && m !in t.completed
  {
    hide Inv;
    Counters(t);
    var d := FirstEdge(WaitEdges(t.waiters), m, x);
    WaiterEdge(t, m, d);
    TotalMember(t.waiters, m);
  }

  /**
   * In a quiescent state a module is left incomplete if and only if it waits, directly or
   * transitively, for a failed module without having been failed itself.
   */
  lemma StuckExactly(t: State, m: Id)
    requires Reachable(t) && Quiescent(t) && m in t.modules
    ensures !IsComplete(t, m) <==>
      !IsFailed(t, m) && exists x: Id :: IsFailed(t, x) && Reach(WaitEdges(t.waiters), m, x)
  {
    hide Inv, Valid;
    ReachableValid(t);
    WaitFacts(t);
    if !IsComplete(t, m) {
      var x := LeadsToFailure(t, m);
    } else if !IsFailed(t, m) {
      if x: Id :| IsFailed(t, x) && Reach(WaitEdges(t.waiters), m, x) {
        WaitingIsUnfinished(t, m, x);
      }
    }
  }

  /** Deadlock freedom: without failures every module completes, whatever cycles there were. */
  lemma DeadlockFreedom(t: State)
    requires Reachable(t) && Quiescent(t)
    requires forall m :: m in t.modules ==> !t.modules[m].failed
    ensures forall m :: m in t.modules ==> t.modules[m].complete && m in t.completed
  {
    hide Inv, Valid;
    ReachableValid(t);
    WaitFacts(t);
    forall m | m in t.modules ensures t.modules[m].complete && m in t.completed {
      StuckExactly(t, m);
    }
  }

  // ---- failures at definition time ----

  /** Whoever waits for a failed module has failed too. */
  ghost predicate FailureClosed(s: State) {
    forall e :: e in WaitEdges(s.waiters) && IsFailed(s, e.1) ==> IsFailed(s, e.0)
  }

  /** In a quiescent state, every module has settled exactly when failures reached all waiters. */
  lemma SettledExactly(t: State)
    requires Reachable(t) && Quiescent(t)
    ensures (forall m :: m in t.modules ==> t.modules[m].complete) <==> FailureClosed(t)
  {
    hide Inv, Valid;
    ReachableValid(t);
    WaitFacts(t);
    if FailureClosed(t) {
      var failures := set y | y in t.modules && t.modules[y].failed;
      forall m | m in t.modules ensures t.modules[m].complete {
        if !t.modules[m].complete {
          var x := LeadsToFailure(t, m);
          var p :| p != [] && IsWalk(WaitEdges(t.waiters), m, p, x);
          CoClosedWalk(WaitEdges(t.waiters), failures, m, p, x);
        }
      }
    }
    if forall m :: m in t.modules ==> t.modules[m].complete {
      forall e | e in WaitEdges(t.waiters) && IsFailed(t, e.1) ensures IsFailed(t, e.0) {
        assert e == (e.0, e.1);
        EdgeReach(WaitEdges(t.waiters), e.0, e.1);
        WaitingIsUnfinished(t, e.0, e.1);
      }
    }
  }

  /** The next step fails a module directly, because of a failed dependency, while others wait for it. */
  ghost predicate StrandsWaiters(s: State, e: Event) {
    && e == ResolveEvent
    && Resolving(s)
    && s.frames[0].rest[0].Regular?
    && IsFailed(s, s.frames[0].rest[0].DepId())
    && exists w :: w in WaitersOf(s.waiters, s.frames[0].id) && !IsFailed(s, w)
  }

  /** That step is the only way in which a failure can miss a waiter. */
  lemma FailureClosedExactly(s: State, e: Event)
    requires Reachable(s) && Enabled(s, e) && FailureClosed(s)
    ensures FailureClosed(Next(s, e)) <==> !StrandsWaiters(s, e)
  {
    hide Inv, Valid;
    ReachableValid(s);
    match e
    case DefineEvent(id, deps) => BeginClosed(s, id, deps);
    case ResolveEvent => ResolveClosed(s);
    case FinishEvent => FinishClosed(s);
    case ErrorEvent(f) => ErrorClosed(s, f);
  }

  lemma BeginClosed(s: State, id: Id, deps: seq<Dep>)
    requires Valid(s) && FailureClosed(s)
    ensures FailureClosed(Begin(s, id, deps))
  {
  }

  lemma FinishClosed(s: State)
    requires FailureClosed(s) && Enabled(s, FinishEvent)
    ensures FailureClosed(Finish(s))
  {
    hide Finish;
    FinishCascades(s);
    var t := Finish(s);
    forall e | e in WaitEdges(t.waiters) && IsFailed(t, e.1) ensures IsFailed(t, e.0) {
      assert e in WaitEdges(s.waiters) && IsFailed(s, e.1);
    }
  }

  lemma ErrorClosed(s: State, f: Id)
    requires Valid(s) && FailureClosed(s)
    ensures FailureClosed(LoadError(s, f))
  {
    hide Inv, LoadError;
    Counters(s);
    LoadErrorRecords(s, f);
    LoadErrorLogs(s, f);
    var t, g := LoadError(s, f), WaitEdges(s.waiters);
    forall e | e in WaitEdges(t.waiters) && IsFailed(t, e.1) ensures IsFailed(t, e.0) {
      assert e == (e.0, e.1) && e.0 in s.modules;
      if Affected(s, f, e.1) {
        EdgeReach(g, e.0, e.1);
        ReachTrans(g, e.0, e.1, f);
      } else {
        assert IsFailed(s, e.1);
      }
    }
  }

  lemma ResolveClosed(s: State)
    requires Valid(s) && Resolving(s) && FailureClosed(s)
    ensures FailureClosed(ResolveOne(s)) <==> !StrandsWaiters(s, ResolveEvent)
  {
    hide Inv;
    WaitFacts(s);
    var m, dep, t := s.frames[0].id, s.frames[0].rest[0], ResolveOne(s);
    var d := dep.DepId();
    if dep.Regular? && IsFailed(s, d) {
      assert t == FailInnermost(s);
      FailClosed(s);
    } else if dep.Regular? && !IsComplete(s, d) && !Reach(DepEdges(s.modules), d, m) {
      AddWaiterEdges(Advance(s), d, m);
    } else {
      assert t.waiters == s.waiters;
      assert forall x :: IsFailed(t, x) <==> IsFailed(s, x);
    }
  }

  lemma FailClosed(s: State)
    requires Resolving(s) && FailureClosed(s) && Acyclic(WaitEdges(s.waiters))
    requires s.frames[0].rest[0].Regular? && IsFailed(s, s.frames[0].rest[0].DepId())
    ensures FailureClosed(FailInnermost(s)) <==> !StrandsWaiters(s, ResolveEvent)
  {
    var m, t := s.frames[0].id, FailInnermost(s);
    if StrandsWaiters(s, ResolveEvent) {
      var w :| w in WaitersOf(s.waiters, m) && !IsFailed(s, w);
      WaiterEdge(s, w, m);
      if w == m {
        EdgeReach(WaitEdges(s.waiters), m, m);
      }
      assert IsFailed(t, (w, m).1) && !IsFailed(t, (w, m).0);
    } else {
      forall e | e in WaitEdges(t.waiters) && IsFailed(t, e.1) ensures IsFailed(t, e.0) {
        assert e == (e.0, e.1);
        WaiterEdge(s, e.0, m);
      }
    }
  }

  /** Some step of the run is one of those. */
  ghost predicate StrandsSomeone(s: State, es: seq<Event>)
    decreases |es|
  {
    es != [] && Enabled(s, es[0]) && (StrandsWaiters(s, es[0]) || StrandsSomeone(Next(s, es[0]), es[1..]))
  }

  lemma {:induction false} ClosedRun(s: State, es: seq<Event>, t: State)
    requires Reachable(s) && Run(s, es, t) && FailureClosed(s) && !StrandsSomeone(s, es)
    ensures FailureClosed(t)
    decreases |es|
  {
    hide Reachable, FailureClosed, StrandsWaiters, Next;
    if es != [] {
      FailureClosedExactly(s, es[0]);
      ReachableNext(s, es[0]);
      ClosedRun(Next(s, es[0]), es[1..], t);
    }
  }

  /** A whole run without such a step ends with every waiter told, and settled once it is quiescent. */
  lemma SettledRun(es: seq<Event>, t: State)
    requires Run(INIT, es, t) && !StrandsSomeone(INIT, es)
    ensures FailureClosed(t)
    ensures Quiescent(t) ==> forall m :: m in t.modules ==> t.modules[m].complete
  {
    assert Run(INIT, [], INIT);
    ClosedRun(INIT, es, t);
    if Quiescent(t) {
      SettledExactly(t);
    }
  }

  /**
   * A module that waits for one whose dependency has already failed is stranded: with 10 -> 11,
   * 13 -> 12 and 11 -> 12, if 12 fails to load before 11 is defined, then 11 fails and 10 never settles.
   */
  lemma StrandedRun()
    ensures exists t: State ::
      && Reachable(t) && Quiescent(t)
      && t.requests == [11, 12]
      && 10 in t.modules && !t.modules[10].complete && !t.modules[10].failed
      && IsFailed(t, 11)
  {
    var s1 := Waiting(INIT, 10, 11);
    var es1 := WaitingRun(INIT, 10, 11);
    var s2 := Waiting(s1, 13, 12);
    var es2 := WaitingRun(s1, 13, 12);
    assert s2.waiters == map[11 := [10], 12 := [13]];
    var es3, t := FailingRun(s2);
    RunAppend(INIT, es1, s1, es2, s2);
    RunAppend(INIT, es1 + es2, s2, es3, t);
  }

  /** m has been defined and waits for d, whose script has been asked for. */
  function Waiting(s: State, m: Id, d: Id): State {
    s.(modules := s.modules[m := Module(Some([Regular(d)]), 1, false, false)],
       waiters := s.waiters[d := [m]],
       known := s.known + {d},
       requests := s.requests + [d],
       declared := s.declared[m := [Regular(d)]])
  }

  lemma WaitingRun(s: State, m: Id, d: Id) returns (es: seq<Event>)
    requires s.frames == [] && m !in s.modules && d !in s.modules && d !in s.known && d !in s.waiters && m != d
    requires WaitersDefined(s)
    ensures Run(s, es, Waiting(s, m, d))
  {
    var s1 := Begin(s, m, [Regular(d)]);
    NoEdgesFrom(s1.modules, d, m);
    var s2 := ResolveOne(s1);
    assert [Regular(d)][1..] == [] && s1.frames[1..] == [];
    assert WaitersOf(s.waiters, d) + [m] == [m];
    assert s2 == Waiting(s, m, d).(frames := [Frame(m, [])]);
    assert s2.frames[1..] == [];
    assert Finish(s2) == Waiting(s, m, d);
    es := [DefineEvent(m, [Regular(d)]), ResolveEvent, FinishEvent];
    assert Run(s2, [FinishEvent], Waiting(s, m, d));
    assert es[1..][1..] == [FinishEvent];
    assert Run(s1, es[1..], Waiting(s, m, d));
  }

  lemma FailingRun(s: State) returns (es: seq<Event>, t: State)
    requires s.modules.Keys == {10, 13} && s.waiters == map[11 := [10], 12 := [13]] && s.frames == []
    requires s.modules[10] == Module(Some([Regular(11)]), 1, false, false) && 12 in s.known && s.requests == [11, 12]
    ensures Run(s, es, t)
    ensures t.frames == [] && t.requests == s.requests && 12 in t.modules && IsFailed(t, 11)
    ensures 10 in t.modules && !t.modules[10].complete && !t.modules[10].failed
  {
    NotAffected(s);
    var s1 := LoadError(s, 12);
    assert s1.modules[10] == s.modules[10] && IsFailed(s1, 12) && 11 !in s1.modules by { LoadErrorRecords(s, 12); }
    var s2 := Begin(s1, 11, [Regular(12)]);
    t := ResolveOne(s2);
    es := [ErrorEvent(12), DefineEvent(11, [Regular(12)]), ResolveEvent];
    assert Run(s2, [ResolveEvent], t);
    assert es[1..][1..] == [ResolveEvent];
    assert Run(s1, es[1..], t);
    assert Run(s, es, t);
  }

  lemma NotAffected(s: State)
    requires s.waiters == map[11 := [10], 12 := [13]]
    ensures !Affected(s, 12, 10)
  {
    var g := WaitEdges(s.waiters);
    assert forall e :: e in g ==> e == (10, 11) || e == (13, 12);
    if Reach(g, 10, 12) {
      var y := FirstEdge(g, 10, 12);
      var z := FirstEdge(g, y, 12);
    }
  }

  // ---- what was defined ----

  /** The dependency list of the first event that is about m's definition; None when that is a load error. */
  function DefinedBy(es: seq<Event>, m: Id): Option<seq<Dep>>
    decreases |es|
  {
    if es == [] then None
    else if es[0].DefineEvent? && es[0].id == m then Some(es[0].deps)
    else if es[0] == ErrorEvent(m) then None
    else DefinedBy(es[1..], m)
  }

  /** m -> d when the events define m with d among its dependencies. */
  ghost function DefinedEdges(es: seq<Event>): Graph<Id> {
    set i, k | 0 <= i < |es| && es[i].DefineEvent? && DefinedBy(es, es[i].id).Some?
               && 0 <= k < |DefinedBy(es, es[i].id).value|
      :: (es[i].id, DefinedBy(es, es[i].id).value[k].DepId())
  }

  /** What one step does to the definition of m. */
  lemma StepDefines(s: State, e: Event, m: Id)
    requires Valid(s) && Enabled(s, e)
    ensures m in Next(s, e).modules <==> m in s.modules || (e.DefineEvent? && e.id == m) || e == ErrorEvent(m)
    ensures m in Next(s, e).declared <==> m in s.declared || (m !in s.modules && e.DefineEvent? && e.id == m)
    ensures m in s.declared ==> Next(s, e).declared[m] == s.declared[m]
    ensures m !in s.modules && e.DefineEvent? && e.id == m ==> Next(s, e).declared[m] == e.deps
  {
    hide Valid, Finish, LoadError;
    DefinedModules(s);
    match e
    case FinishEvent => FinishCascades(s);
    case ErrorEvent(f) =>
      LoadErrorRecords(s, f);
      LoadErrorLogs(s, f);
    case _ =>
  }

  lemma {:induction false} RunDefines(s: State, es: seq<Event>, t: State, m: Id)
    requires Valid(s) && Run(s, es, t)
    ensures m in s.modules ==> (m in t.declared <==> m in s.declared)
    ensures m in s.declared ==> m in t.declared && t.declared[m] == s.declared[m]
    ensures m !in s.modules ==> (m in t.declared <==> DefinedBy(es, m).Some?)
    ensures m !in s.modules && m in t.declared ==> t.declared[m] == DefinedBy(es, m).value
    decreases |es|
  {
    hide Valid, Next, Enabled;
    DefinedModules(s);
    if es != [] {
      StepDefines(s, es[0], m);
      NextValid(s, es[0]);
      RunDefines(Next(s, es[0]), es[1..], t, m);
    }
  }

  /** A module is on record with exactly the dependencies of its first definition, unless its script failed before. */
  lemma DeclaredExactly(es: seq<Event>, t: State, m: Id)
    requires Run(INIT, es, t)
    ensures m in t.declared <==> DefinedBy(es, m).Some?
    ensures m in t.declared ==> t.declared[m] == DefinedBy(es, m).value
  {
    hide Inv;
    InitInv();
    RunDefines(INIT, es, t, m);
  }

  lemma {:induction false} DefinitionEvent(es: seq<Event>, m: Id) returns (i: nat)
    requires DefinedBy(es, m).Some?
    ensures i < |es| && es[i] == DefineEvent(m, DefinedBy(es, m).value)
    decreases |es|
  {
    if es[0].DefineEvent? && es[0].id == m {
      i := 0;
    } else {
      i := DefinitionEvent(es[1..], m);
      i := i + 1;
    }
  }

  lemma SameEdges(es: seq<Event>, t: State)
    requires Run(INIT, es, t)
    ensures DefinedEdges(es) == DeclaredEdges(t.declared)
  {
    hide Run;
    forall m: Id, d: Id ensures (m, d) in DefinedEdges(es) <==> (m, d) in DeclaredEdges(t.declared) {
      DeclaredExactly(es, t, m);
      if (m, d) in DeclaredEdges(t.declared) {
        var k :| 0 <= k < |t.declared[m]| && t.declared[m][k].DepId() == d;
        var i := DefinitionEvent(es, m);
        assert (es[i].id, DefinedBy(es, es[i].id).value[k].DepId()) in DefinedEdges(es);
      }
    }
  }

  lemma {:induction false} RunAddsModules(s: State, es: seq<Event>, t: State, m: Id)
    requires Valid(s) && Run(s, es, t)
    ensures m in t.modules <==>
      m in s.modules || exists i :: 0 <= i < |es| && ((es[i].DefineEvent? && es[i].id == m) || es[i] == ErrorEvent(m))
    decreases |es|
  {
    hide Valid, Next, Enabled;
    if es != [] {
      StepDefines(s, es[0], m);
      NextValid(s, es[0]);
      RunAddsModules(Next(s, es[0]), es[1..], t, m);
      assert forall i :: 0 < i < |es| ==> es[i] == es[1..][i - 1];
    }
  }

  /** Deadlock freedom, said of the events: without load errors, whatever was defined has run. */
  lemma EveryDefinitionRuns(es: seq<Event>, t: State, m: Id)
    requires Run(INIT, es, t) && Quiescent(t) && forall i :: 0 <= i < |es| ==> !es[i].ErrorEvent?
    ensures m in t.completed <==> exists i :: 0 <= i < |es| && es[i].DefineEvent? && es[i].id == m
  {
    hide Inv, Run;
    assert Reachable(t);
    NoErrorNoFailure(es, t);
    DeadlockFreedom(t);
    InitInv();
    RunAddsModules(INIT, es, t, m);
    ReachableValid(t);
    Counters(t);
  }

  lemma {:induction false} NoFailureRun(s: State, es: seq<Event>, t: State)
    requires Valid(s) && Run(s, es, t) && (forall i :: 0 <= i < |es| ==> !es[i].ErrorEvent?)
    requires forall m :: m in s.modules ==> !s.modules[m].failed
    ensures forall m :: m in t.modules ==> !t.modules[m].failed
    decreases |es|
  {
    hide Valid, Next, Enabled;
    if es != [] {
      NoFailureStep(s, es[0]);
      NextValid(s, es[0]);
      NoFailureRun(Next(s, es[0]), es[1..], t);
    }
  }

  lemma NoFailureStep(s: State, e: Event)
    requires Valid(s) && Enabled(s, e) && !e.ErrorEvent? && forall m :: m in s.modules ==> !s.modules[m].failed
    ensures forall m :: m in Next(s, e).modules ==> !Next(s, e).modules[m].failed
  {
    hide Valid, Finish;
    if e.FinishEvent? {
      FinishCascades(s);
    }
  }

  lemma NoErrorNoFailure(es: seq<Event>, t: State)
    requires Run(INIT, es, t) && forall i :: 0 <= i < |es| ==> !es[i].ErrorEvent?
    ensures forall m :: m in t.modules ==> !t.modules[m].failed
  {
    hide Inv;
    InitInv();
    NoFailureRun(INIT, es, t);
  }

  /** A module's dependency list is dropped when its factory has run, and only then. */
  lemma DependenciesDropped(t: State, m: Id)
    requires Reachable(t) && m in t.modules
    ensures t.modules[m].deps.None? <==> m in t.completed
    ensures m in t.declared && m !in t.completed ==> t.modules[m].deps == Some(t.declared[m])
  {
    ReachableValid(t);
  }

  /** A script is asked for exactly when a dependency is examined that is neither defined nor asked for. */
  lemma RequestedExactly(s: State, e: Event)
    requires Enabled(s, e)
    ensures Next(s, e).requests ==
      if e.ResolveEvent? && s.frames[0].rest[0].Regular?
         && s.frames[0].rest[0].regularId !in s.modules && s.frames[0].rest[0].regularId !in s.known
      then s.requests + [s.frames[0].rest[0].regularId] else s.requests
  {
    hide Finish, LoadError;
    match e
    case FinishEvent => FinishCascades(s);
    case ErrorEvent(f) => LoadErrorLogs(s, f);
    case ResolveEvent =>
      if s.frames[0].rest[0].Regular? && s.frames[0].rest[0].regularId !in s.modules {
        NoEdgesFrom(s.modules, s.frames[0].rest[0].regularId, s.frames[0].id);
      }
    case DefineEvent(_, _) =>
  }

  // ---- topological execution ----

  /**
   * Whatever the arrival order: no factory runs twice, and a factory runs strictly after those of the regular
   * dependencies with which its module was defined, except for dependencies that lead back to the module.
   */
  lemma TopologicalExecution(es: seq<Event>, t: State, i: nat, d: Id)
    requires Run(INIT, es, t) && i < |t.completed|
    ensures NoDuplicates(t.completed) && DefinedBy(es, t.completed[i]).Some?
    ensures Regular(d) in DefinedBy(es, t.completed[i]).value ==>
      d in t.completed[..i] || Reach(DefinedEdges(es), d, t.completed[i])
  {
    hide Inv, Valid, Run;
    assert Reachable(t);
    ReachableValid(t);
    OrderFacts(t);
    assert t.completed[i] in t.completed;
    DeclaredExactly(es, t, t.completed[i]);
    SameEdges(es, t);
  }

  lemma OrderFacts(t: State)
    requires Valid(t)
    ensures NoDuplicates(t.completed) && NoDuplicates(t.requests) && CutInv(t) && OrderInv(t)
    ensures forall m :: m in t.completed ==> m in t.declared
  {
  }

  /** Without cyclic definitions nothing is cut and the order is topological. */
  lemma AcyclicExecution(es: seq<Event>, t: State)
    requires Run(INIT, es, t) && Acyclic(DefinedEdges(es))
    ensures t.cuts == {}
    ensures forall i :: 0 <= i < |t.completed| ==> DefinedBy(es, t.completed[i]).Some?
    ensures forall i, d: Id :: 0 <= i < |t.completed| && Regular(d) in DefinedBy(es, t.completed[i]).value ==>
      d in t.completed[..i]
  {
    hide Inv, Valid, Run, DefinedBy;
    assert Reachable(t);
    ReachableValid(t);
    OrderFacts(t);
    SameEdges(es, t);
    var g := DefinedEdges(es);
    if t.cuts != {} {
      var c: (Id, Id) :| c in t.cuts;
      var (m, d) := c;
      assert (m, d) in t.cuts;
      EdgeReach(g, m, d);
      ReachTrans(g, m, d, m);
    }
    forall i | 0 <= i < |t.completed|
      ensures DefinedBy(es, t.completed[i]).Some?
      ensures forall d: Id :: Regular(d) in DefinedBy(es, t.completed[i]).value ==> d in t.completed[..i]
    {
      assert t.completed[i] in t.completed;
      DeclaredExactly(es, t, t.completed[i]);
    }
  }

  // ---- the order of waiting ----

  /** A module that comes to wait for d queues up behind those that wait already. */
  lemma QueueUp(s: State, e: Event, d: Id)
    requires Enabled(s, e) && d in s.waiters && d in Next(s, e).waiters
    ensures s.waiters[d] <= Next(s, e).waiters[d]
  {
    hide Finish, LoadError;
    match e
    case FinishEvent => FinishCascades(s);
    case ErrorEvent(f) => LoadErrorLogs(s, f);
    case _ =>
  }

  /** Waiters are released from the front: the first ones, with all that follows from it, before the others. */
  lemma {:induction false} NotifyInOrder(s: State, front: seq<Id>, back: seq<Id>)
    requires WaitersDefined(s) && forall x :: x in front || x in back ==> x in s.modules
    ensures Notify(s, front + back) == Notify(Notify(s, front), back)
    decreases |front|
  {
    if front == [] {
      assert front + back == back;
    } else {
      assert (front + back)[0] == front[0] && (front + back)[1..] == front[1..] + back;
      NotifyInOrder(Release(s, front[0]), front[1..], back);
    }
  }

  // ---- load failures ----

  /**
   * A load error of f fails f and exactly the modules that wait for f, directly or transitively;
   * any other module that had completed keeps its record.
   */
  lemma LoadErrorExact(s: State, f: Id)
    requires Reachable(s)
    ensures forall x: Id :: IsFailed(LoadError(s, f), x) <==>
      IsFailed(s, x) || x == f || (x in s.modules && Reach(WaitEdges(s.waiters), x, f))
    ensures forall x: Id :: x in s.completed && x != f ==>
      x in s.modules && LoadError(s, f).modules[x] == s.modules[x]
  {
    hide Inv, Valid;
    ReachableValid(s);
    LoadErrorRecords(s, f);
    Counters(s);
    forall x: Id | x in s.completed && x != f
      ensures x in s.modules && LoadError(s, f).modules[x] == s.modules[x]
    {
      if Affected(s, f, x) {
        WaitingIsUnfinished(s, x, f);
      }
    }
  }

  /** A settled module never runs its factory (again), and a failure is final. */
  lemma SettledForGood(s: State, es: seq<Event>, t: State, m: Id)
    requires Reachable(s) && Run(s, es, t) && IsComplete(s, m)
    ensures IsComplete(t, m) && (IsFailed(s, m) ==> IsFailed(t, m))
    ensures s.completed <= t.completed && m !in t.completed[|s.completed|..]
  {
    hide Inv, Valid;
    ReachableValid(s);
    RunGrown(s, es, t);
    forall k | 0 <= k < |t.completed| - |s.completed| ensures t.completed[|s.completed|..][k] != m {
      assert !IsComplete(s, t.completed[|s.completed| + k]);
    }
  }

  /** m names the failed d and has failed itself, or its _resolve call will come across d. */
  ghost predicate Doomed(s: State, m: Id, d: Id) {
    && IsFailed(s, d)
    && m !in s.completed
    && (IsFailed(s, m) || InFrame(s, m, d))
  }

  lemma DoomedNext(s: State, e: Event, m: Id, d: Id)
    requires Valid(s) && Enabled(s, e) && Doomed(s, m, d)
    ensures Doomed(Next(s, e), m, d)
  {
    hide Inv, Valid;
    var t := Next(s, e);
    NextGrown(s, e);
    NextValid(s, e);
    WaitFacts(s);
    Counters(t);
    if IsFailed(s, m) {
      NotCompletedLater(s, t, m);
    } else {
      DoomedFrames(s, e, m, d);
      if InFrame(t, m, d) {
        FrameNotCompleted(t, m, d);
      } else {
        assert IsFailed(t, m);
        FailedInStep(s, e, m, d);
      }
    }
  }

  lemma NotCompletedLater(s: State, t: State, m: Id)
    requires Grown(s, t) && IsComplete(s, m) && m !in s.completed
    ensures m !in t.completed
  {
  }

  lemma FrameNotCompleted(t: State, m: Id, d: Id)
    requires InFrame(t, m, d)
    requires forall x :: x in t.completed ==> Remaining(t.frames, x) == 0
    ensures m !in t.completed
  {
    NoFrameNoRemaining(t.frames, m);
  }

  /** No step but the one that fails m takes d out of m's frame. */
  lemma DoomedFrames(s: State, e: Event, m: Id, d: Id)
    requires Enabled(s, e) && IsFailed(s, d) && IsComplete(s, d) && InFrame(s, m, d)
    ensures IsFailed(Next(s, e), m) || InFrame(Next(s, e), m, d)
  {
    var t := Next(s, e);
    var i :| 0 <= i < |s.frames| && s.frames[i].id == m && Regular(d) in s.frames[i].rest;
    match e
    case DefineEvent(id, deps) =>
      assert id !in s.modules ==> t.frames[i + 1] == s.frames[i];
      assert InFrame(t, m, d);
    case ResolveEvent =>
      if t.frames == s.frames[1..] {
        assert i > 0 ==> t.frames[i - 1] == s.frames[i];
      } else {
        assert t.frames == Advance(s).frames;
        assert i > 0 ==> t.frames[i] == s.frames[i];
        assert i == 0 && s.frames[0].rest[0] != Regular(d) ==> Regular(d) in t.frames[0].rest && t.frames[0].id == m;
      }
    case FinishEvent =>
      FinishCascades(s);
      assert t.frames[i - 1] == s.frames[i];
    case ErrorEvent(f) =>
      LoadErrorLogs(s, f);
      assert t.frames[i] == s.frames[i];
  }

  /** A module that a single step fails does not complete in that step. */
  lemma FailedInStep(s: State, e: Event, m: Id, d: Id)
    requires Valid(s) && Enabled(s, e) && m !in s.completed && !IsFailed(s, m) && IsFailed(Next(s, e), m)
    ensures m !in Next(s, e).completed
  {
    hide Valid, Inv;
    if e.FinishEvent? {
      FinishCascades(s);
    } else if e.ErrorEvent? {
      LoadErrorLogs(s, e.f);
    }
  }

  lemma {:induction false} DoomedRun(s: State, es: seq<Event>, t: State, m: Id, d: Id)
    requires Valid(s) && Run(s, es, t) && Doomed(s, m, d)
    ensures Doomed(t, m, d)
    decreases |es|
  {
    hide Valid, Doomed;
    if es != [] {
      NextValid(s, es[0]);
      DoomedNext(s, es[0], m, d);
      DoomedRun(Next(s, es[0]), es[1..], t, m, d);
    }
  }

  /** A module defined after one of its dependencies failed never runs, and fails once its _resolve call is over. */
  lemma LaterDependentsFail(s: State, m: Id, deps: seq<Dep>, d: Id, es: seq<Event>, t: State)
    requires Reachable(s) && IsFailed(s, d) && m !in s.modules && Regular(d) in deps
    requires Run(Begin(s, m, deps), es, t)
    ensures m !in t.completed
    ensures !HasFrame(t.frames, m) ==> IsFailed(t, m)
  {
    hide Valid, Inv;
    ReachableValid(s);
    Counters(s);
    var s1 := Begin(s, m, deps);
    NextValid(s, DefineEvent(m, deps));
    assert s1.frames[0].id == m && Regular(d) in s1.frames[0].rest;
    assert InFrame(s1, m, d);
    DoomedRun(s1, es, t, m, d);
    assert InFrame(t, m, d) ==> HasFrame(t.frames, m);
  }

  /** Every script is asked for at most once, and every awaited id that is not defined has been asked for. */
  lemma RequestsComplete(t: State)
    requires Reachable(t)
    ensures NoDuplicates(t.requests)
    ensures forall e :: e in WaitEdges(t.waiters) ==> e.1 in t.modules || e.1 in t.requests
  {
    hide Valid, Inv;
    ReachableValid(t);
    OrderFacts(t);
    WaitFacts(t);
  }
}
