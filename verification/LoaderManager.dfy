/** The module manager itself: the fields it mutates and the loops that mutate them. */
module LoaderManager {
  import opened Sequences
  import opened Options
  import opened Graphs
  import opened LoaderModel
  import opened LoaderInvariant
  import opened LoaderSteps
  import LoaderTheorems

  ghost predicate Ready(s: State) {
    s.frames != [] && s.frames[0].id in s.modules && WaitersDefined(s)
  }

  /** The next dependency has failed, so _resolve returns at once. */
  predicate FailsNow(s: State)
    requires Resolving(s)
  {
    s.frames[0].rest[0].Regular? && IsComplete(s, s.frames[0].rest[0].DepId())
      && IsFailed(s, s.frames[0].rest[0].DepId())
  }

  lemma StaysReady(s: State)
    requires Ready(s) && Resolving(s)
    ensures !FailsNow(s) ==> Ready(ResolveOne(s)) && ResolveOne(s).frames == Advance(s).frames
    ensures FailsNow(s) ==> ResolveOne(s) == FailInnermost(s)
  {
  }

  /** _resolve run to its end with scripts loading asynchronously: nothing interleaves. */
  ghost function ResolveAll(s: State): State
    requires Ready(s)
    decreases if s.frames == [] then 0 else |s.frames[0].rest|
  {
    if s.frames[0].rest == [] then Finish(s) else
      StaysReady(s);
      if FailsNow(s) then ResolveOne(s) else ResolveAll(ResolveOne(s))
  }

  ghost function Define(s: State, id: Id, deps: seq<Dep>): State
    requires WaitersDefined(s)
  {
    if id in s.modules then s else ResolveAll(Begin(s, id, deps))
  }

  /** Running _resolve to its end is a run of the machine. */
  lemma {:induction false} ResolveAllRuns(s: State) returns (es: seq<Event>)
    requires Ready(s)
    ensures Run(s, es, ResolveAll(s))
    decreases |s.frames[0].rest|
  {
    hide ResolveOne, Finish, WaitersDefined;
    if s.frames[0].rest == [] {
      es := [FinishEvent];
      assert es[1..] == [];
    } else {
      StaysReady(s);
      if FailsNow(s) {
        es := [ResolveEvent];
        assert es[1..] == [];
      } else {
        var rest := ResolveAllRuns(ResolveOne(s));
        es := [ResolveEvent] + rest;
        assert es[1..] == rest;
      }
    }
  }

  /** So whatever is proved of reachable states holds of a manager after any definitions and errors. */
  lemma DefineReachable(s: State, id: Id, deps: seq<Dep>)
    requires Reachable(s)
    ensures WaitersDefined(s) && Reachable(Define(s, id, deps))
  {
    hide Begin, ResolveAll, Inv, Valid;
    ReachableValid(s);
    WaitersAreDefined(s);
    if id !in s.modules {
      var s1 := Begin(s, id, deps);
      BeginReady(s, id, deps);
      var es := ResolveAllRuns(s1);
      var run := [DefineEvent(id, deps)] + es;
      assert run[1..] == es;
      assert Run(s, run, ResolveAll(s1));
      ReachableLater(s, run, ResolveAll(s1));
    }
  }

  lemma {:induction false} ResolveAllDeclares(s: State)
    requires Ready(s)
    ensures ResolveAll(s).declared == s.declared
    decreases |s.frames[0].rest|
  {
    hide Finish, WaitersDefined;
    if s.frames[0].rest == [] {
      LoaderTheorems.FinishCascades(s);
    } else {
      StaysReady(s);
      if !FailsNow(s) {
        ResolveAllDeclares(ResolveOne(s));
      }
    }
  }

  lemma BeginReady(s: State, id: Id, deps: seq<Dep>)
    requires WaitersDefined(s) && id !in s.modules
    ensures Ready(Begin(s, id, deps))
  {
  }

  /** What _findCyclePath returns: a dependency chain read backwards, ending at `to` unless 50 deep. */
  ghost predicate IsCyclePath(modules: map<Id, Module>, from: Id, to: Id, depth: nat, p: seq<Id>) {
    && p != [] && p[|p| - 1] == from
    && (forall i {:trigger p[i]} :: 0 < i < |p| ==> (p[i], p[i - 1]) in DepEdges(modules))
    && (p[0] == to || |p| + depth == 51)
  }

  class ModuleManager {
    var modules: map<Id, Module>
    var waiters: map<Id, seq<Id>>
    var known: set<Id>
    var requests: seq<Id>
    var completed: seq<Id>
    var cuts: set<(Id, Id)>
    var declared: map<Id, seq<Dep>>

    ghost function Abs(frames: seq<Frame>): State
      reads this
    {
      State(modules, waiters, known, requests, completed, cuts, declared, frames)
    }

    constructor ()
      ensures Abs([]) == INIT && Reachable(Abs([]))
    {
      modules, waiters, known, requests := map[], map[], {}, [];
      completed, cuts, declared := [], {}, map[];
      new;
      assert Run(INIT, [], INIT);
    }

    /** _hasDependencyPath: breadth-first search over the current dependency lists. */
    method HasDependencyPath(from: Id, to: Id) returns (found: bool)
      ensures found <==> Reach(DepEdges(modules), from, to)
    {
      if from !in modules {
        NoEdgesFrom(modules, from, to);
        return false;
      }
      hide Searching;
      var queue, inQueue := [from], {from};
      ghost var done: set<Id> := {};
      SearchStart(modules, from, to);
      while queue != []
        invariant Searching(modules, from, to, queue, inQueue, done)
        decreases modules.Keys - done
      {
        var element := queue[0];
        SearchFacts(modules, from, to, queue, inQueue, done);
        ghost var queued, before := queue, inQueue;
        var dependencies := if modules[element].deps.Some? then modules[element].deps.value else [];
        found, queue, inQueue := ScanDependencies(dependencies, to, queue[1..], inQueue);
        SearchStep(modules, from, to, queued, before, done, dependencies, queue, inQueue);
        if found {
          return;
        }
        done := done + {element};
      }
      SearchEnd(modules, from, to, inQueue, done);
      return false;
    }

    /** The inner loop: looks for `to`, and queues the defined dependencies not queued before. */
    method ScanDependencies(dependencies: seq<Dep>, to: Id, queue: seq<Id>, inQueue: set<Id>)
      returns (found: bool, queue': seq<Id>, inQueue': set<Id>)
      requires NoDuplicates(queue) && forall x :: x in queue ==> x in inQueue
      ensures found <==> Names(dependencies, to)
      ensures !found ==> forall x :: x in inQueue' <==> x in inQueue || (x in modules && Names(dependencies, x))
      ensures !found ==> forall x :: x in queue' <==> x in queue || (x in inQueue' && x !in inQueue)
      ensures NoDuplicates(queue')
    {
      found, queue', inQueue' := false, queue, inQueue;
      for i := 0 to |dependencies|
        invariant !Names(dependencies[..i], to)
        invariant forall x :: x in inQueue' <==> x in inQueue || (x in modules && Names(dependencies[..i], x))
        invariant forall x :: x in queue' <==> x in queue || (x in inQueue' && x !in inQueue)
        invariant NoDuplicates(queue')
      {
        var d := dependencies[i].DepId();
        NamesSnoc(dependencies, i);
        if d == to {
          return true, queue', inQueue';
        }
        if d in modules && d !in inQueue' {
          inQueue' := inQueue' + {d};
          queue' := queue' + [d];
        }
      }
      assert dependencies[..|dependencies|] == dependencies;
    }

    /** _findCyclePath: depth-first search, capped at depth 50. */
    method FindCyclePath(from: Id, to: Id, depth: nat) returns (r: Option<seq<Id>>)
      requires depth <= 50
      ensures r.Some? ==> IsCyclePath(modules, from, to, depth, r.value)
      ensures ReachStar(DepEdges(modules), from, to) ==> r.Some?
      decreases 50 - depth
    {
      if from == to || depth == 50 {
        return Some([from]);
      }
      if from !in modules {
        NoEdgesFrom(modules, from, to);
        return None;
      }
      if modules[from].deps.Some? {
        var dependencies := modules[from].deps.value;
        for i := 0 to |dependencies|
          invariant forall j :: 0 <= j < i ==> !ReachStar(DepEdges(modules), dependencies[j].DepId(), to)
        {
          var d := dependencies[i].DepId();
          var path := FindCyclePath(d, to, depth + 1);
          if path.Some? {
            assert (from, modules[from].deps.value[i].DepId()) in DepEdges(modules);
            return Some(path.value + [from]);
          }
        }
      }
      if Reach(DepEdges(modules), from, to) {
        var d := FirstEdge(DepEdges(modules), from, to);
      }
      return None;
    }

    /** _loadModule: asks the script loader for a module that is neither defined nor known. */
    method LoadModule(d: Id, ghost frames: seq<Frame>)
      modifies this
      ensures Abs(frames) == RequestModule(old(Abs(frames)), d)
    {
      if d in modules || d in known {
        return;
      }
      known := known + {d};
      requests := requests + [d];
    }

    /** _onModuleComplete. */
    method OnModuleComplete(m: Id, ghost frames: seq<Frame>)
      requires WaitersDefined(Abs(frames)) && m in modules
      modifies this
      ensures old(WaitersDefined(Abs(frames)) && m in modules)
      ensures Abs(frames) == OnComplete(old(Abs(frames)), m)
      decreases Incomplete(Abs(frames)), 1
    {
      hide Release;
      if modules[m].complete {
        return;
      }
      modules := modules[m := modules[m].(complete := true, deps := None)];
      completed := completed + [m];
      var inverseDeps := if m in waiters then waiters[m] else [];
      waiters := waiters - {m};
      ghost var s1 := Abs(frames);
      assert s1 == MarkComplete(old(Abs(frames)), m);
      assert m in Incomplete(old(Abs(frames))) && m !in Incomplete(s1);
      assert Incomplete(s1) < Incomplete(old(Abs(frames)));
      var i := 0;
      assert inverseDeps[0..] == inverseDeps;
      while i < |inverseDeps|
        invariant 0 <= i <= |inverseDeps|
        invariant WaitersDefined(Abs(frames)) && modules.Keys == old(modules.Keys)
        invariant Incomplete(Abs(frames)) <= Incomplete(s1)
        invariant Notify(Abs(frames), inverseDeps[i..]) == Notify(s1, inverseDeps)
      {
        assert inverseDeps[i..][0] == inverseDeps[i] && inverseDeps[i..][1..] == inverseDeps[i + 1..];
        ReleaseWaiter(inverseDeps[i], frames);
        i := i + 1;
      }
      assert inverseDeps[i..] == [];
    }

    /** The body of the release loop. */
    method ReleaseWaiter(x: Id, ghost frames: seq<Frame>)
      requires WaitersDefined(Abs(frames)) && x in modules
      modifies this
      ensures old(WaitersDefined(Abs(frames)) && x in modules)
      ensures Abs(frames) == Release(old(Abs(frames)), x)
      decreases Incomplete(Abs(frames)), 2
    {
      modules := modules[x := modules[x].(unresolved := modules[x].unresolved - 1)];
      assert Abs(frames) == Decrement(old(Abs(frames)), x);
      assert Incomplete(Abs(frames)) == Incomplete(old(Abs(frames)));
      if modules[x].unresolved == 0 {
        OnModuleComplete(x, frames);
      }
    }

    /** _resolve. */
    method Resolve(m: Id, dependencies: seq<Dep>)
      requires Ready(Abs([Frame(m, dependencies)]))
      modifies this
      ensures old(Ready(Abs([Frame(m, dependencies)])))
      ensures Abs([]) == ResolveAll(old(Abs([Frame(m, dependencies)])))
    {
      hide ResolveOne, OnComplete;
      ghost var s0 := Abs([Frame(m, dependencies)]);
      var i := 0;
      assert dependencies[0..] == dependencies;
      while i < |dependencies|
        invariant 0 <= i <= |dependencies|
        invariant Ready(Abs([Frame(m, dependencies[i..])]))
        invariant ResolveAll(Abs([Frame(m, dependencies[i..])])) == ResolveAll(s0)
      {
        ghost var s := Abs([Frame(m, dependencies[i..])]);
        assert dependencies[i..][0] == dependencies[i] && dependencies[i..][1..] == dependencies[i + 1..];
        var failed := ResolveDependency(m, dependencies[i], s.frames);
        StaysReady(s);
        if failed {
          assert s.frames[1..] == [];
          return;
        }
        assert Advance(s).frames == [Frame(m, dependencies[i + 1..])];
        i := i + 1;
      }
      assert dependencies[i..] == [];
      assert Abs([Frame(m, [])]).frames[1..] == [];
      if modules[m].unresolved == 0 {
        OnModuleComplete(m, []);
      }
    }

    /** One iteration of _resolve's loop; the result says that the module failed. */
    method ResolveDependency(m: Id, dependency: Dep, ghost frames: seq<Frame>) returns (failed: bool)
      requires Resolving(Abs(frames)) && frames[0].id == m && frames[0].rest[0] == dependency
      modifies this
      ensures old(Resolving(Abs(frames))) && failed == old(FailsNow(Abs(frames)))
      ensures Abs(if failed then frames[1..] else [Frame(m, frames[0].rest[1..])] + frames[1..]) ==
        ResolveOne(old(Abs(frames)))
    {
      failed := false;
      if !dependency.Regular? {
        modules := modules[m := modules[m].(unresolved := modules[m].unresolved - 1)];
        return;
      }
      var d := dependency.DepId();
      if d in modules && modules[d].complete {
        if modules[d].failed {
          modules := modules[m := modules[m].(complete := true, failed := true)];
          return true;
        }
        modules := modules[m := modules[m].(unresolved := modules[m].unresolved - 1)];
        return;
      }
      var cyclic := HasDependencyPath(d, m);
      if cyclic {
        cuts := cuts + {(m, d)};
        modules := modules[m := modules[m].(unresolved := modules[m].unresolved - 1)];
        return;
      }
      waiters := waiters[d := (if d in waiters then waiters[d] else []) + [m]];
      LoadModule(d, [Frame(m, frames[0].rest[1..])] + frames[1..]);
    }

    /** defineModule. */
    method DefineModule(id: Id, dependencies: seq<Dep>)
      requires Reachable(Abs([]))
      modifies this
      ensures Reachable(Abs([]))
      ensures old(WaitersDefined(Abs([]))) && Abs([]) == Define(old(Abs([])), id, dependencies)
      ensures id in old(modules) ==> Abs([]) == old(Abs([]))
      ensures id !in old(modules) ==> declared == old(declared)[id := dependencies]
    {
      hide ResolveAll, Reachable;
      ghost var s := Abs([]);
      DefineReachable(s, id, dependencies);
      if id in modules {
        return;
      }
      modules := modules[id := Module(Some(dependencies), |dependencies|, false, false)];
      declared := declared[id := dependencies];
      assert Abs([Frame(id, dependencies)]) == Begin(s, id, dependencies);
      BeginReady(s, id, dependencies);
      ResolveAllDeclares(Begin(s, id, dependencies));
      Resolve(id, dependencies);
    }

    /** _onLoadError: breadth-first search over the inverse dependencies. */
    method OnLoadError(f: Id)
      requires Reachable(Abs([])) && f in known
      modifies this`modules
      ensures Reachable(Abs([]))
      ensures Abs([]) == LoadError(old(Abs([])), f)
    {
      hide Reachable, Valid, Flooding, LoadError, WaitersDefined, MarkAll;
      ghost var s := Abs([]);
      ReachableValid(s);
      WaitersAreDefined(s);
      if f !in modules {
        modules := modules[f := Module(Some([]), 0, false, false)];
      }

      ghost var before := modules;
      var queue, seen := [f], {f};
      ghost var done: set<Id> := {};
      FloodStart(s, f);
      MarkNone(before);
      while queue != []
        invariant Flooding(s, f, queue, seen, done)
        invariant modules == MarkAll(before, done)
        decreases before.Keys - done
      {
        var element := queue[0];
        FloodFacts(s, f, queue, seen, done);
        MarkMore(before, done, element);
        if element in modules {
          modules := modules[element := modules[element].(complete := true, failed := true)];
        }
        var inverseDeps := if element in waiters then waiters[element] else [];
        ghost var queued, seenBefore := queue, seen;
        queue, seen := EnqueueNew(inverseDeps, queue[1..], seen);
        FloodStep(s, f, queued, seenBefore, done, queue, seen);
        done := done + {element};
      }
      FloodEnd(s, f, seen, done);
      ReachableNext(s, ErrorEvent(f));
    }
  }

  /** The search between two elements: `done` have been failed, `queue` are still to be. */
  ghost predicate Flooding(s: State, f: Id, queue: seq<Id>, seen: set<Id>, done: set<Id>) {
    && f in seen && seen <= s.modules.Keys + {f}
    && (forall x :: x in seen ==> Affected(s, f, x))
    && (forall x :: x in seen <==> x in done || x in queue)
    && NoDuplicates(queue) && (forall x :: x in queue ==> x !in done)
    && (forall e :: e in WaitEdges(s.waiters) && e.1 in done ==> e.0 in seen)
  }

  lemma FloodStart(s: State, f: Id)
    ensures Flooding(s, f, [f], {f}, {})
  {
  }

  lemma FloodFacts(s: State, f: Id, queue: seq<Id>, seen: set<Id>, done: set<Id>)
    requires Flooding(s, f, queue, seen, done) && queue != []
    ensures queue[0] in s.modules.Keys + {f} && queue[0] !in done
    ensures NoDuplicates(queue[1..]) && forall x :: x in queue[1..] ==> x in seen
  {
  }

  lemma FloodStep(s: State, f: Id, queue: seq<Id>, seen: set<Id>, done: set<Id>, queue': seq<Id>, seen': set<Id>)
    requires Flooding(s, f, queue, seen, done) && queue != [] && WaitersDefined(s)
    requires forall x :: x in seen' <==> x in seen || x in WaitersOf(s.waiters, queue[0])
    requires forall x :: x in queue' <==> x in queue[1..] || (x in WaitersOf(s.waiters, queue[0]) && x !in seen)
    requires NoDuplicates(queue')
    ensures Flooding(s, f, queue', seen', done + {queue[0]})
  {
    AffectedWaiters(s, queue[0], f);
    forall e | e in WaitEdges(s.waiters) && e.1 in done + {queue[0]} ensures e.0 in seen' {
      assert e == (e.0, e.1);
      WaiterEdge(s, e.0, e.1);
    }
    assert forall x :: x in queue <==> x == queue[0] || x in queue[1..];
  }

  lemma FloodEnd(s: State, f: Id, seen: set<Id>, done: set<Id>)
    requires Flooding(s, f, [], seen, done)
    ensures LoadError(s, f) == s.(modules := MarkAll(EnsureModule(s, f).modules, done))
  {
    FloodExhausted(WaitEdges(s.waiters), done, f);
    assert forall x: Id :: Affected(s, f, x) <==> x in done;
  }

  /** Some dependency of the list has the id d. */
  ghost predicate Names(dependencies: seq<Dep>, d: Id) {
    exists j :: 0 <= j < |dependencies| && dependencies[j].DepId() == d
  }

  lemma NamesSnoc(dependencies: seq<Dep>, i: nat)
    requires i < |dependencies|
    ensures forall x: Id :: Names(dependencies[..i + 1], x) <==>
      Names(dependencies[..i], x) || x == dependencies[i].DepId()
    ensures Names(dependencies, dependencies[i].DepId())
  {
    var front, longer := dependencies[..i], dependencies[..i + 1];
    assert longer[i] == dependencies[i];
    forall x: Id ensures Names(longer, x) <==> Names(front, x) || x == dependencies[i].DepId() {
      if j :| 0 <= j < i && front[j].DepId() == x {
        assert longer[j] == front[j];
      }
      if j :| 0 <= j < i && longer[j].DepId() == x {
        assert front[j] == longer[j];
      }
    }
  }

  /** The search between two elements: `done` have been scanned without meeting `to`. */
  ghost predicate Searching(
    modules: map<Id, Module>, from: Id, to: Id, queue: seq<Id>, inQueue: set<Id>, done: set<Id>)
  {
    && from in inQueue && inQueue <= modules.Keys
    && (forall x :: x in inQueue ==> ReachStar(DepEdges(modules), from, x))
    && (forall x :: x in inQueue <==> x in done || x in queue)
    && NoDuplicates(queue) && (forall x :: x in queue ==> x !in done)
    && (forall e :: e in DepEdges(modules) && e.0 in done ==> e.1 != to && (e.1 in modules ==> e.1 in inQueue))
  }

  lemma SearchStart(modules: map<Id, Module>, from: Id, to: Id)
    requires from in modules
    ensures Searching(modules, from, to, [from], {from}, {})
  {
  }

  lemma SearchFacts(modules: map<Id, Module>, from: Id, to: Id, queue: seq<Id>, inQueue: set<Id>, done: set<Id>)
    requires Searching(modules, from, to, queue, inQueue, done) && queue != []
    ensures queue[0] in modules && queue[0] !in done
    ensures NoDuplicates(queue[1..]) && forall x :: x in queue[1..] ==> x in inQueue
  {
  }

  lemma DepEdgeIff(modules: map<Id, Module>, m: Id, d: Id)
    requires m in modules
    ensures (m, d) in DepEdges(modules) <==> modules[m].deps.Some? && Names(modules[m].deps.value, d)
  {
  }

  lemma SearchStep(modules: map<Id, Module>, from: Id, to: Id, queue: seq<Id>, inQueue: set<Id>, done: set<Id>,
                   dependencies: seq<Dep>, queue': seq<Id>, inQueue': set<Id>)
    requires Searching(modules, from, to, queue, inQueue, done) && queue != [] && queue[0] in modules
    requires dependencies == if modules[queue[0]].deps.Some? then modules[queue[0]].deps.value else []
    requires !Names(dependencies, to) ==>
      && NoDuplicates(queue')
      && (forall x :: x in inQueue' <==> x in inQueue || (x in modules && Names(dependencies, x)))
      && (forall x :: x in queue' <==> x in queue[1..] || (x in inQueue' && x !in inQueue))
    ensures Names(dependencies, to) ==> Reach(DepEdges(modules), from, to)
    ensures !Names(dependencies, to) ==> Searching(modules, from, to, queue', inQueue', done + {queue[0]})
  {
    var g, m := DepEdges(modules), queue[0];
    forall d: Id | Names(dependencies, d) ensures Reach(g, from, d) {
      DepEdgeIff(modules, m, d);
      EdgeReach(g, m, d);
      ReachTrans(g, from, m, d);
    }
    if !Names(dependencies, to) {
      forall e | e in g && e.0 in done + {m} ensures e.1 != to && (e.1 in modules ==> e.1 in inQueue') {
        assert e == (e.0, e.1);
        if e.0 == m {
          DepEdgeIff(modules, m, e.1);
        }
      }
      assert forall x :: x in queue <==> x == m || x in queue[1..];
    }
  }

  lemma SearchEnd(modules: map<Id, Module>, from: Id, to: Id, inQueue: set<Id>, done: set<Id>)
    requires Searching(modules, from, to, [], inQueue, done)
    ensures !Reach(DepEdges(modules), from, to)
  {
    SearchExhausted(modules, done, from, to);
  }

  /** The loop that queues the inverse dependencies not seen before. */
  method EnqueueNew(list: seq<Id>, queue: seq<Id>, seen: set<Id>) returns (queue': seq<Id>, seen': set<Id>)
    requires NoDuplicates(queue) && forall x :: x in queue ==> x in seen
    ensures forall x :: x in seen' <==> x in seen || x in list
    ensures forall x :: x in queue' <==> x in queue || (x in list && x !in seen)
    ensures NoDuplicates(queue')
  {
    queue', seen' := queue, seen;
    for i := 0 to |list|
      invariant forall x :: x in seen' <==> x in seen || x in list[..i]
      invariant forall x :: x in queue' <==> x in queue || (x in list[..i] && x !in seen)
      invariant NoDuplicates(queue')
    {
      assert list[..i + 1] == list[..i] + [list[i]];
      if list[i] !in seen' {
        queue' := queue' + [list[i]];
        seen' := seen' + {list[i]};
      }
    }
    assert list[..|list|] == list;
  }

  /** Whoever waits for an affected module is affected. */
  lemma AffectedWaiters(s: State, element: Id, f: Id)
    requires Affected(s, f, element)
    ensures forall x :: x in WaitersOf(s.waiters, element) ==> Affected(s, f, x)
  {
    var g := WaitEdges(s.waiters);
    forall x | x in WaitersOf(s.waiters, element) ensures Affected(s, f, x) {
      WaiterEdge(s, x, element);
      EdgeReach(g, x, element);
      ReachTrans(g, x, element, f);
    }
  }

  /** The records after the error has reached every module of `xs`. */
  ghost function MarkAll(modules: map<Id, Module>, xs: set<Id>): map<Id, Module> {
    map x | x in modules :: if x in xs then MarkFailed(modules[x]) else modules[x]
  }

  lemma MarkNone(modules: map<Id, Module>)
    ensures MarkAll(modules, {}) == modules
  {
  }

  lemma MarkMore(modules: map<Id, Module>, xs: set<Id>, x: Id)
    ensures MarkAll(modules, xs).Keys == modules.Keys
    ensures MarkAll(modules, xs + {x}) ==
      if x in modules then MarkAll(modules, xs)[x := MarkFailed(MarkAll(modules, xs)[x])] else MarkAll(modules, xs)
  {
  }

  /** A set of searched modules that never names `to` and leads nowhere else cannot reach `to`. */
  lemma SearchExhausted(modules: map<Id, Module>, done: set<Id>, from: Id, to: Id)
    requires from in done
    requires forall e :: e in DepEdges(modules) && e.0 in done ==> e.1 != to && (e.1 in modules ==> e.1 in done)
    ensures !Reach(DepEdges(modules), from, to)
  {
    forall p: seq<Id> | p != [] ensures !IsWalk(DepEdges(modules), from, p, to) {
      if IsWalk(DepEdges(modules), from, p, to) {
        SearchWalk(modules, done, from, p, to);
      }
    }
  }

  lemma {:induction false} SearchWalk(modules: map<Id, Module>, done: set<Id>, a: Id, p: seq<Id>, to: Id)
    requires a in done && p != []
    requires forall e :: e in DepEdges(modules) && e.0 in done ==> e.1 != to && (e.1 in modules ==> e.1 in done)
    ensures !IsWalk(DepEdges(modules), a, p, to)
    decreases p
  {
    if (a, p[0]) in DepEdges(modules) {
      assert (a, p[0]).1 != to;
      if p[1..] != [] {
        if p[0] in modules {
          SearchWalk(modules, done, p[0], p[1..], to);
        } else {
          NoEdgesFrom(modules, p[0], to);
        }
      }
    }
  }

  lemma FloodExhausted(g: Graph<Id>, done: set<Id>, f: Id)
    requires f in done && forall e :: e in g && e.1 in done ==> e.0 in done
    ensures forall x: Id :: ReachStar(g, x, f) ==> x in done
  {
    forall x: Id | ReachStar(g, x, f) ensures x in done {
      if x != f {
        var p :| p != [] && IsWalk(g, x, p, f);
        CoClosedWalk(g, done, x, p, f);
      }
    }
  }

  lemma WaitersAreDefined(s: State)
    requires Valid(s)
    ensures WaitersDefined(s)
  {
  }
}
