/** Each step of the module manager preserves the invariant. */
module LoaderSteps {
  import opened Options
  import opened Graphs
  import opened LoaderModel
  import opened LoaderInvariant

  // ---- Begin ----

  lemma BeginCount(s: State, id: Id, deps: seq<Dep>)
    requires DefinedInv(s, multiset{}) && CountInv(s, multiset{}) && id !in s.modules
    ensures CountInv(Begin(s, id, deps), multiset{})
  {
    hide Total, HasFrame;
    var s' := Begin(s, id, deps);
    assert s'.frames[1..] == s.frames;
    NoFrameNoRemaining(s.frames, id);
    TotalMember(s.waiters, id);
  }

  lemma BeginAlive(s: State, id: Id, deps: seq<Dep>)
    requires AliveInv(s, {}) && id !in s.modules
    ensures AliveInv(Begin(s, id, deps), {})
  {
    var s' := Begin(s, id, deps);
    assert s'.frames[0].id == id;
    forall m | HasFrame(s.frames, m) ensures HasFrame(s'.frames, m) {
      var i :| 0 <= i < |s.frames| && s.frames[i].id == m;
      assert s'.frames[i + 1].id == m;
    }
  }

  lemma BeginRecord(s: State, id: Id, deps: seq<Dep>)
    requires id !in s.modules
    ensures DefinedInv(s, multiset{}) ==> DefinedInv(Begin(s, id, deps), multiset{})
    ensures LogInv(s) ==> LogInv(Begin(s, id, deps))
    ensures DeclaredInv(s) && RecordInv(s) ==> RecordInv(Begin(s, id, deps)) && DeclaredInv(Begin(s, id, deps))
  {
  }

  lemma BeginAccount(s: State, id: Id, deps: seq<Dep>)
    requires AccountInv(s) && id !in s.modules
    ensures AccountInv(Begin(s, id, deps))
  {
    var s' := Begin(s, id, deps);
    forall m: Id, d: Id | m in s'.modules && !s'.modules[m].complete && m in s'.declared && Regular(d) in s'.declared[m]
      ensures Accounted(s', m, d)
    {
      if m == id {
        assert s'.frames[0].id == m && Regular(d) in s'.frames[0].rest;
      } else {
        assert Accounted(s, m, d);
        if InFrame(s, m, d) {
          var i :| 0 <= i < |s.frames| && s.frames[i].id == m && Regular(d) in s.frames[i].rest;
          assert s'.frames[i + 1] == s.frames[i];
        }
      }
    }
  }

  lemma DeclaredGrows(s: State, s': State)
    requires forall m :: m in s.declared ==> m in s'.declared && s'.declared[m] == s.declared[m]
    ensures DeclaredEdges(s.declared) <= DeclaredEdges(s'.declared)
  {
  }

  lemma BeginCut(s: State, id: Id, deps: seq<Dep>)
    requires CutInv(s) && DeclaredInv(s) && id !in s.modules
    ensures CutInv(Begin(s, id, deps))
  {
    var s' := Begin(s, id, deps);
    DeclaredGrows(s, s');
    forall m: Id, d: Id | (m, d) in s'.cuts
      ensures (m, d) in DeclaredEdges(s'.declared) && Reach(DeclaredEdges(s'.declared), d, m)
    {
      ReachMono(DeclaredEdges(s.declared), DeclaredEdges(s'.declared), d, m);
    }
  }

  lemma BeginOrder(s: State, id: Id, deps: seq<Dep>)
    requires OrderInv(s) && CountInv(s, multiset{}) && id !in s.modules
    ensures OrderInv(Begin(s, id, deps))
  {
    forall i | 0 <= i < |s.completed| ensures s.completed[i] != id {
      assert s.completed[i] in s.completed;
    }
  }

  lemma BeginInv(s: State, id: Id, deps: seq<Dep>)
    requires Inv(s, multiset{}, {})
    ensures Inv(Begin(s, id, deps), multiset{}, {})
  {
    hide DefinedInv, CountInv, AliveInv, LogInv, RecordInv, DeclaredInv, AccountInv, CutInv, OrderInv;
    if id !in s.modules {
      BeginCount(s, id, deps);
      BeginAlive(s, id, deps);
      BeginRecord(s, id, deps);
      BeginAccount(s, id, deps);
      BeginCut(s, id, deps);
      BeginOrder(s, id, deps);
      DepEdgesMono(s.modules, Begin(s, id, deps).modules);
    }
  }

  // ---- ResolveOne ----

  /** The innermost call moves past its next dependency. */
  function Advance(s: State): State
    requires Resolving(s)
  {
    s.(frames := [Frame(s.frames[0].id, s.frames[0].rest[1..])] + s.frames[1..])
  }

  /** Advancing hands one unit of the counter of m over to `pending`. */
  lemma AdvanceCount(s: State)
    requires CountInv(s, multiset{}) && Resolving(s)
    ensures CountInv(Advance(s), multiset{s.frames[0].id})
    ensures AliveInv(s, {}) ==> AliveInv(Advance(s), {})
  {
  }

  lemma AdvanceRecord(s: State)
    requires Resolving(s)
    ensures DefinedInv(s, multiset{}) ==> DefinedInv(Advance(s), multiset{s.frames[0].id})
    ensures DeclaredInv(s) ==> DeclaredInv(Advance(s))
    ensures LogInv(s) ==> LogInv(Advance(s))
    ensures RecordInv(s) ==> RecordInv(Advance(s))
    ensures CutInv(s) ==> CutInv(Advance(s))
    ensures OrderInv(s) ==> OrderInv(Advance(s))
  {
  }

  /** Only the examined dependency loses its place in the frame. */
  lemma AdvanceAccount(s: State, s': State)
    requires Resolving(s) && AccountInv(s)
    requires s'.frames == Advance(s).frames && s'.declared == s.declared
    requires s.completed == s'.completed && s.cuts <= s'.cuts && WaitEdges(s.waiters) <= WaitEdges(s'.waiters)
    requires forall m :: m in s'.modules ==> m in s.modules && (s.modules[m].complete ==> s'.modules[m].complete)
    requires forall d: Id :: s.frames[0].rest[0] == Regular(d) ==> Accounted(s', s.frames[0].id, d)
    ensures AccountInv(s')
  {
    forall m: Id, d: Id | m in s'.modules && !s'.modules[m].complete && m in s'.declared && Regular(d) in s'.declared[m]
      ensures Accounted(s', m, d)
    {
      assert Accounted(s, m, d);
      if InFrame(s, m, d) {
        var i :| 0 <= i < |s.frames| && s.frames[i].id == m && Regular(d) in s.frames[i].rest;
        assert s'.frames[i].id == m;
        if i == 0 && s.frames[0].rest[0] != Regular(d) {
          assert Regular(d) in s'.frames[0].rest;
        }
      }
    }
  }

  /** The module under resolution has a frame, so it may sit at zero. */
  lemma FramedAlive(s: State, m: Id)
    requires AliveInv(s, {m}) && s.frames != [] && s.frames[0].id == m
    ensures AliveInv(s, {})
  {
  }

  /** The dependency is done with: special, already complete, or cut. */
  lemma ResolveByDecrement(s: State, cuts: set<(Id, Id)>)
    requires Inv(s, multiset{}, {}) && Resolving(s) && s.cuts <= cuts
    requires CutInv(s.(cuts := cuts)) && OrderInv(s.(cuts := cuts))
    requires forall d: Id :: s.frames[0].rest[0] == Regular(d) ==>
      d in s.completed || (s.frames[0].id, d) in cuts
    ensures Inv(Decrement(Advance(s), s.frames[0].id).(cuts := cuts), multiset{}, {})
  {
    hide DefinedInv, CountInv, AliveInv, LogInv, RecordInv, DeclaredInv, AccountInv, CutInv, OrderInv;
    var m := s.frames[0].id;
    var s0 := s.(cuts := cuts);
    var s1 := Advance(s0);
    var s' := Decrement(s1, m);
    assert s' == Decrement(Advance(s), m).(cuts := cuts);
    SameButCuts(s, cuts);
    AdvanceCount(s0);
    AdvanceRecord(s0);
    assert multiset{} + multiset{m} == multiset{m};
    DecrementCount(s1, multiset{}, m);
    DecrementRecord(s1, m);
    FramedAlive(s', m);
    DepEdgesMono(s.modules, s'.modules);
    AdvanceAccount(s, s');
    DecrementDefined(s1, m);
  }

  lemma DecrementDefined(s: State, m: Id)
    requires DefinedInv(s, multiset{m}) && m in s.modules
    ensures DefinedInv(Decrement(s, m), multiset{})
  {
  }

  lemma SameButCuts(s: State, cuts: set<(Id, Id)>)
    ensures DefinedInv(s, multiset{}) ==> DefinedInv(s.(cuts := cuts), multiset{})
    ensures CountInv(s, multiset{}) ==> CountInv(s.(cuts := cuts), multiset{})
    ensures AliveInv(s, {}) ==> AliveInv(s.(cuts := cuts), {})
    ensures LogInv(s) ==> LogInv(s.(cuts := cuts))
    ensures RecordInv(s) ==> RecordInv(s.(cuts := cuts))
    ensures DeclaredInv(s) ==> DeclaredInv(s.(cuts := cuts))
  {
  }

  /** A dependency that is already failed fails the module and ends the call. */
  function FailInnermost(s: State): State
    requires Resolving(s)
  {
    var m := s.frames[0].id;
    s.(modules := s.modules[m := MarkFailed(s.modules[m])], frames := s.frames[1..])
  }

  lemma FailCount(s: State)
    requires CountInv(s, multiset{}) && AliveInv(s, {}) && Resolving(s)
    ensures CountInv(FailInnermost(s), multiset{}) && AliveInv(FailInnermost(s), {})
  {
  }

  lemma FailRecord(s: State)
    requires Resolving(s) && CountInv(s, multiset{})
    ensures DefinedInv(s, multiset{}) ==> DefinedInv(FailInnermost(s), multiset{})
    ensures LogInv(s) ==> LogInv(FailInnermost(s))
    ensures RecordInv(s) ==> RecordInv(FailInnermost(s))
    ensures DeclaredInv(s) ==> DeclaredInv(FailInnermost(s))
    ensures CutInv(s) ==> CutInv(FailInnermost(s))
    ensures OrderInv(s) ==> OrderInv(FailInnermost(s))
  {
  }

  lemma PopAccount(s: State, s': State)
    requires AccountInv(s) && s.frames != [] && s'.frames == s.frames[1..]
    requires s'.declared == s.declared && s'.cuts == s.cuts && s'.waiters == s.waiters && s'.completed == s.completed
    requires forall m :: m in s'.modules && !s'.modules[m].complete ==> m in s.modules && !s.modules[m].complete
    requires s.frames[0].rest == [] || IsComplete(s', s.frames[0].id)
    ensures AccountInv(s')
  {
  }

  lemma ResolveByFailure(s: State)
    requires Inv(s, multiset{}, {}) && Resolving(s)
    ensures Inv(FailInnermost(s), multiset{}, {})
  {
    hide DefinedInv, CountInv, AliveInv, LogInv, RecordInv, DeclaredInv, AccountInv, CutInv, OrderInv;
    FailCount(s);
    FailRecord(s);
    DepEdgesMono(s.modules, FailInnermost(s).modules);
    PopAccount(s, FailInnermost(s));
  }

  /** The module under resolution still has its dependency list. */
  lemma DependencyEdge(s: State, d: Id)
    requires CountInv(s, multiset{}) && RecordInv(s) && DeclaredInv(s) && Resolving(s)
      && s.frames[0].rest[0].DepId() == d
    ensures (s.frames[0].id, d) in DepEdges(s.modules)
    ensures (s.frames[0].id, d) in DeclaredEdges(s.declared)
  {
    var m := s.frames[0].id;
    NoFrameNoRemaining(s.frames, m);
    assert s.frames[0].rest[0] in s.declared[m];
    var i :| 0 <= i < |s.declared[m]| && s.declared[m][i] == s.frames[0].rest[0];
    assert (m, s.declared[m][i].DepId()) in DeclaredEdges(s.declared);
    assert s.modules[m].deps == Some(s.declared[m]);
    assert (m, s.modules[m].deps.value[i].DepId()) in DepEdges(s.modules);
  }

  lemma AddWaiterEdges(s: State, d: Id, m: Id)
    ensures WaitEdges(AddWaiter(s, d, m).waiters) == WaitEdges(s.waiters) + {(m, d)}
  {
    var w, w' := s.waiters, AddWaiter(s, d, m).waiters;
    forall e | e in WaitEdges(w) ensures e in WaitEdges(w') {
      var i :| 0 <= i < |w[e.1]| && w[e.1][i] == e.0;
      assert w'[e.1][i] == e.0;
    }
    assert w'[d][|WaitersOf(w, d)|] == m;
    forall e | e in WaitEdges(w') ensures e in WaitEdges(w) + {(m, d)} {
      var i :| 0 <= i < |w'[e.1]| && w'[e.1][i] == e.0;
      if e.1 != d || i < |WaitersOf(w, d)| {
        assert w[e.1][i] == e.0;
      }
    }
  }

  lemma WaitingCount(s: State, d: Id, m: Id)
    requires CountInv(s, multiset{m})
    ensures CountInv(RequestModule(AddWaiter(s, d, m), d), multiset{})
  {
    var s' := RequestModule(AddWaiter(s, d, m), d);
    TotalPush(s.waiters, d, m);
    assert forall x :: Owed(s', multiset{}, x) == Owed(s, multiset{m}, x);
  }

  lemma WaitingDefined(s: State, d: Id, m: Id)
    requires DefinedInv(s, multiset{m})
    ensures DefinedInv(RequestModule(AddWaiter(s, d, m), d), multiset{})
  {
  }

  lemma WaitingRecord(s: State, d: Id, m: Id)
    ensures LogInv(s) && d !in s.completed ==> LogInv(RequestModule(AddWaiter(s, d, m), d))
    ensures RecordInv(s) ==> RecordInv(RequestModule(AddWaiter(s, d, m), d))
    ensures DeclaredInv(s) ==> DeclaredInv(RequestModule(AddWaiter(s, d, m), d))
    ensures AliveInv(s, {}) ==> AliveInv(RequestModule(AddWaiter(s, d, m), d), {})
    ensures CutInv(s) ==> CutInv(RequestModule(AddWaiter(s, d, m), d))
    ensures OrderInv(s) ==> OrderInv(RequestModule(AddWaiter(s, d, m), d))
  {
    var s' := RequestModule(AddWaiter(s, d, m), d);
    assert forall x :: x in s'.requests <==> x in s.requests || (x == d && d !in s.modules && d !in s.known);
  }

  /** No path of waiting leads from d back to m when no path of dependencies does. */
  lemma WaitingGraph(s: State, s': State, d: Id, m: Id)
    requires GraphInv(s) && (m, d) in DepEdges(s.modules) && !Reach(DepEdges(s.modules), d, m)
    requires s'.modules == s.modules && WaitEdges(s'.waiters) == WaitEdges(s.waiters) + {(m, d)}
    ensures GraphInv(s')
  {
    if d == m {
      EdgeReach(DepEdges(s.modules), m, d);
    } else if Reach(WaitEdges(s.waiters), d, m) {
      ReachMono(WaitEdges(s.waiters), DepEdges(s.modules), d, m);
    }
    AddEdgeAcyclic(WaitEdges(s.waiters), m, d);
  }

  /** The dependency is still missing: m is recorded as waiting for it. */
  lemma ResolveByWaiting(s: State, d: Id)
    requires Inv(s, multiset{}, {}) && Resolving(s) && s.frames[0].rest[0] == Regular(d)
    requires d !in s.completed && !Reach(DepEdges(s.modules), d, s.frames[0].id)
    ensures Inv(RequestModule(AddWaiter(Advance(s), d, s.frames[0].id), d), multiset{}, {})
  {
    hide DefinedInv, CountInv, AliveInv, LogInv, RecordInv, DeclaredInv, AccountInv, CutInv, OrderInv, GraphInv;
    var m, s0 := s.frames[0].id, Advance(s);
    var s' := RequestModule(AddWaiter(s0, d, m), d);
    AdvanceCount(s);
    AdvanceRecord(s);
    AddWaiterEdges(s0, d, m);
    WaitingCount(s0, d, m);
    WaitingDefined(s0, d, m);
    WaitingRecord(s0, d, m);
    DependencyEdge(s, d);
    WaitingGraph(s, s', d, m);
    assert (m, d) in WaitEdges(s'.waiters);
    AdvanceAccount(s, s');
  }

  lemma CutDeclared(s: State, d: Id, m: Id)
    requires RecordInv(s) && Reach(DepEdges(s.modules), d, m)
    ensures Reach(DeclaredEdges(s.declared), d, m)
  {
    forall e | e in DepEdges(s.modules) ensures e in DeclaredEdges(s.declared) {
      var i :| 0 <= i < |s.modules[e.0].deps.value| && s.modules[e.0].deps.value[i].DepId() == e.1;
      assert (e.0, s.declared[e.0][i].DepId()) in DeclaredEdges(s.declared);
    }
    ReachMono(DepEdges(s.modules), DeclaredEdges(s.declared), d, m);
  }

  lemma MoreCuts(s: State, d: Id, m: Id)
    ensures OrderInv(s) ==> OrderInv(s.(cuts := s.cuts + {(m, d)}))
    ensures CutInv(s) && (m, d) in DeclaredEdges(s.declared) && Reach(DeclaredEdges(s.declared), d, m) ==>
      CutInv(s.(cuts := s.cuts + {(m, d)}))
  {
  }

  lemma CompletedAndOk(s: State, d: Id)
    requires CountInv(s, multiset{}) && RecordInv(s)
    ensures IsComplete(s, d) && !IsFailed(s, d) ==> d in s.completed
    ensures d in s.completed ==> IsComplete(s, d)
  {
  }

  lemma ResolveOneInv(s: State)
    requires Inv(s, multiset{}, {}) && Resolving(s)
    ensures Inv(ResolveOne(s), multiset{}, {})
  {
    hide DefinedInv, CountInv, AliveInv, LogInv, RecordInv, DeclaredInv, AccountInv, CutInv, OrderInv, GraphInv;
    var m, dep := s.frames[0].id, s.frames[0].rest[0];
    var d := dep.DepId();
    CompletedAndOk(s, d);
    if !dep.Regular? || (IsComplete(s, d) && !IsFailed(s, d)) {
      var s' := Decrement(Advance(s), m);
      assert s' == s'.(cuts := s.cuts) == ResolveOne(s);
      assert s == s.(cuts := s.cuts);
      ResolveByDecrement(s, s.cuts);
    } else if IsComplete(s, d) {
      ResolveByFailure(s);
    } else if Reach(DepEdges(s.modules), d, m) {
      DependencyEdge(s, d);
      CutDeclared(s, d, m);
      MoreCuts(s, d, m);
      ResolveByDecrement(s, s.cuts + {(m, d)});
    } else {
      ResolveByWaiting(s, d);
    }
  }

  /** An undefined id has no dependencies. */
  lemma NoEdgesFrom(modules: map<Id, Module>, a: Id, b: Id)
    requires a !in modules
    ensures !Reach(DepEdges(modules), a, b)
  {
  }

  // ---- Finish ----

  lemma PopCount(s: State)
    requires CountInv(s, multiset{}) && AliveInv(s, {}) && s.frames != [] && s.frames[0].rest == []
    ensures CountInv(s.(frames := s.frames[1..]), multiset{})
    ensures AliveInv(s.(frames := s.frames[1..]), {s.frames[0].id})
  {
  }

  lemma PopRecord(s: State)
    requires s.frames != []
    ensures DefinedInv(s, multiset{}) ==>
      DefinedInv(s.(frames := s.frames[1..]), multiset{}) && s.frames[0].id in s.modules
    ensures LogInv(s) ==> LogInv(s.(frames := s.frames[1..]))
    ensures RecordInv(s) ==> RecordInv(s.(frames := s.frames[1..]))
    ensures DeclaredInv(s) ==> DeclaredInv(s.(frames := s.frames[1..]))
    ensures CutInv(s) ==> CutInv(s.(frames := s.frames[1..]))
    ensures OrderInv(s) ==> OrderInv(s.(frames := s.frames[1..]))
  {
  }

  lemma FinishInv(s: State)
    requires Inv(s, multiset{}, {}) && s.frames != [] && s.frames[0].rest == []
    ensures s.frames[0].id in s.modules && WaitersDefined(s) && Inv(Finish(s), multiset{}, {})
  {
    hide CountInv, AliveInv, LogInv, RecordInv, DeclaredInv, AccountInv, CutInv, OrderInv;
    var m := s.frames[0].id;
    var s0 := s.(frames := s.frames[1..]);
    PopCount(s);
    PopRecord(s);
    PopAccount(s, s0);
    assert Inv(s0, multiset{}, {m});
    if s.modules[m].unresolved == 0 {
      OnCompleteInv(s0, multiset{}, m);
    } else {
      CoolDown(s0, multiset{}, m);
    }
  }

  // ---- LoadError ----

  lemma LoadErrorRecords(s: State, f: Id)
    ensures LoadError(s, f).modules.Keys == s.modules.Keys + {f}
    ensures forall m :: m in s.modules ==>
      LoadError(s, f).modules[m] == if Affected(s, f, m) then MarkFailed(s.modules[m]) else s.modules[m]
    ensures f !in s.modules ==> LoadError(s, f).modules[f] == Module(Some([]), 0, true, true)
  {
  }

  lemma LoadErrorKeeps(s: State, f: Id)
    ensures DefinedInv(s, multiset{}) ==> DefinedInv(LoadError(s, f), multiset{})
    ensures CountInv(s, multiset{}) ==> CountInv(LoadError(s, f), multiset{})
    ensures AliveInv(s, {}) ==> AliveInv(LoadError(s, f), {})
    ensures LogInv(s) ==> LogInv(LoadError(s, f))
    ensures CutInv(s) ==> CutInv(LoadError(s, f))
    ensures OrderInv(s) ==> OrderInv(LoadError(s, f))
  {
    hide LoadError, Affected;
    LoadErrorRecords(s, f);
    LoadErrorLogs(s, f);
    assert forall m: Id :: Owed(LoadError(s, f), multiset{}, m) == Owed(s, multiset{}, m);
  }

  /** Nothing but the module records changes. */
  lemma LoadErrorLogs(s: State, f: Id)
    ensures LoadError(s, f) == s.(modules := LoadError(s, f).modules)
  {
  }

  lemma LoadErrorKeepsRecord(s: State, f: Id)
    ensures DeclaredInv(s) && RecordInv(s) ==> RecordInv(LoadError(s, f)) && DeclaredInv(LoadError(s, f))
  {
    hide LoadError, Affected;
    LoadErrorRecords(s, f);
    LoadErrorLogs(s, f);
  }

  lemma LoadErrorInv(s: State, f: Id)
    requires Inv(s, multiset{}, {})
    ensures Inv(LoadError(s, f), multiset{}, {})
  {
    hide DefinedInv, CountInv, AliveInv, LogInv, RecordInv, DeclaredInv, AccountInv, CutInv, OrderInv, LoadError,
      Affected;
    var s' := LoadError(s, f);
    LoadErrorRecords(s, f);
    LoadErrorLogs(s, f);
    LoadErrorKeeps(s, f);
    LoadErrorKeepsRecord(s, f);
    DepEdgesMono(s.modules, s'.modules);
    AccountMono(s, s');
  }

  // ---- all steps, all runs ----

  /** Everything that holds between two steps. */
  ghost predicate Valid(s: State) {
    Inv(s, multiset{}, {})
  }

  lemma NextValid(s: State, e: Event)
    requires Valid(s) && Enabled(s, e)
    ensures Valid(Next(s, e))
  {
    hide Inv, ResolveOne, Finish, LoadError, Begin;
    match e
    case DefineEvent(id, deps) => BeginInv(s, id, deps);
    case ResolveEvent => ResolveOneInv(s);
    case FinishEvent => FinishInv(s);
    case ErrorEvent(f) => LoadErrorInv(s, f);
  }

  lemma {:induction false} RunValid(s: State, es: seq<Event>, t: State)
    requires Valid(s) && Run(s, es, t)
    ensures Valid(t)
    decreases |es|
  {
    hide Valid;
    if es != [] {
      NextValid(s, es[0]);
      RunValid(Next(s, es[0]), es[1..], t);
    }
  }

  lemma ReachableValid(t: State)
    requires Reachable(t)
    ensures Valid(t)
  {
    InitInv();
    var es :| Run(INIT, es, t);
    RunValid(INIT, es, t);
  }

  lemma {:induction false} RunAppend(s: State, es: seq<Event>, t: State, es': seq<Event>, u: State)
    requires Run(s, es, t) && Run(t, es', u)
    ensures Run(s, es + es', u)
    decreases |es|
  {
    hide Next, Enabled;
    if es == [] {
      assert es + es' == es';
    } else {
      RunAppend(Next(s, es[0]), es[1..], t, es', u);
      assert (es + es')[1..] == es[1..] + es';
    }
  }

  lemma ReachableLater(s: State, es: seq<Event>, t: State)
    requires Reachable(s) && Run(s, es, t)
    ensures Reachable(t)
  {
    var before :| Run(INIT, before, s);
    RunAppend(INIT, before, s, es, t);
  }

  lemma ReachableNext(s: State, e: Event)
    requires Reachable(s) && Enabled(s, e)
    ensures Reachable(Next(s, e))
  {
    hide Next;
    assert [e][1..] == [];
    assert Run(s, [e], Next(s, e));
    ReachableLater(s, [e], Next(s, e));
  }
}
