/**
 * The AMD module manager as a small-step machine over a heap of module records.
 * An active `_resolve` call is a frame on a stack, so that a script loader may define
 * further modules, or report errors, between two dependencies of the same module.
 */
module LoaderModel {
  import opened Options
  import opened Graphs

  type Id = nat

  /** The three special dependencies carry the fixed ids 0, 1 and 2. */
  datatype Dep = ExportsDep | ModuleDep | RequireDep | Regular(regularId: Id) {
    function DepId(): Id {
      match this
      case ExportsDep => 0
      case ModuleDep => 1
      case RequireDep => 2
      case Regular(id) => id
    }
  }

  /** `deps` becomes None when the module completes; `failed` says that an error is set. */
  datatype Module = Module(deps: Option<seq<Dep>>, unresolved: int, complete: bool, failed: bool)

  /** An active `_resolve` call: the module and the dependencies it has still to examine. */
  datatype Frame = Frame(id: Id, rest: seq<Dep>)

  datatype State = State(
    modules: map<Id, Module>,
    waiters: map<Id, seq<Id>>,     // inverse dependencies; absent when null
    known: set<Id>,                // ids whose script has been asked for
    requests: seq<Id>,             // calls to the script loader, in order
    completed: seq<Id>,            // calls to Module.complete, in order
    cuts: set<(Id, Id)>,           // cycle warnings: (module, dependency)
    declared: map<Id, seq<Dep>>,   // dependency lists of the accepted definitions
    frames: seq<Frame>)            // active _resolve calls, innermost first

  const INIT := State(map[], map[], {}, [], [], {}, map[], [])

  function WaitersOf(waiters: map<Id, seq<Id>>, d: Id): seq<Id> {
    if d in waiters then waiters[d] else []
  }

  /** m -> d when m is recorded as waiting for d. */
  ghost function WaitEdges(waiters: map<Id, seq<Id>>): Graph<Id> {
    set d, i | d in waiters && 0 <= i < |waiters[d]| :: (waiters[d][i], d)
  }

  /** m -> d when m's current dependency list names d. */
  ghost function DepEdges(modules: map<Id, Module>): Graph<Id> {
    set m, i | m in modules && modules[m].deps.Some? && 0 <= i < |modules[m].deps.value|
      :: (m, modules[m].deps.value[i].DepId())
  }

  /** m -> d when m was defined with d among its dependencies. */
  ghost function DeclaredEdges(declared: map<Id, seq<Dep>>): Graph<Id> {
    set m, i | m in declared && 0 <= i < |declared[m]| :: (m, declared[m][i].DepId())
  }

  predicate IsComplete(s: State, m: Id) {
    m in s.modules && s.modules[m].complete
  }

  predicate IsFailed(s: State, m: Id) {
    m in s.modules && s.modules[m].failed
  }

  /** Every recorded waiter is a defined module. */
  ghost predicate WaitersDefined(s: State) {
    forall d, i :: d in s.waiters && 0 <= i < |s.waiters[d]| ==> s.waiters[d][i] in s.modules
  }

  ghost function Incomplete(s: State): set<Id> {
    set m | m in s.modules && !s.modules[m].complete
  }

  // ---- elementary updates ----

  function Decrement(s: State, m: Id): State
    requires m in s.modules
  {
    var r := s.modules[m];
    s.(modules := s.modules[m := r.(unresolved := r.unresolved - 1)])
  }

  /** Module.complete, followed by clearing the inverse dependencies of m. */
  function MarkComplete(s: State, m: Id): State
    requires m in s.modules
  {
    s.(modules := s.modules[m := s.modules[m].(complete := true, deps := None)],
       completed := s.completed + [m],
       waiters := s.waiters - {m})
  }

  function MarkFailed(r: Module): Module {
    r.(complete := true, failed := true)
  }

  function RequestModule(s: State, d: Id): State {
    if d in s.modules || d in s.known then s
    else s.(known := s.known + {d}, requests := s.requests + [d])
  }

  function AddWaiter(s: State, d: Id, m: Id): State {
    s.(waiters := s.waiters[d := WaitersOf(s.waiters, d) + [m]])
  }

  // ---- completion cascade ----

  ghost function OnComplete(s: State, m: Id): (s': State)
    requires WaitersDefined(s) && m in s.modules
    ensures s'.modules.Keys == s.modules.Keys && WaitersDefined(s')
    ensures Incomplete(s') <= Incomplete(s)
    decreases Incomplete(s), 1, 0
  {
    if s.modules[m].complete then s else
      var s1 := MarkComplete(s, m);
      assert m in Incomplete(s) && m !in Incomplete(s1);
      assert Incomplete(s1) < Incomplete(s);
      Notify(s1, WaitersOf(s.waiters, m))
  }

  /** Releases the waiters one at a time, completing those that reach zero. */
  ghost function Notify(s: State, list: seq<Id>): (s': State)
    requires WaitersDefined(s) && forall x :: x in list ==> x in s.modules
    ensures s'.modules.Keys == s.modules.Keys && WaitersDefined(s')
    ensures Incomplete(s') <= Incomplete(s)
    decreases Incomplete(s), 3, |list|
  {
    if list == [] then s else Notify(Release(s, list[0]), list[1..])
  }

  ghost function Release(s: State, x: Id): (s': State)
    requires WaitersDefined(s) && x in s.modules
    ensures s'.modules.Keys == s.modules.Keys && WaitersDefined(s')
    ensures Incomplete(s') <= Incomplete(s)
    decreases Incomplete(s), 2, 0
  {
    var s1 := Decrement(s, x);
    assert Incomplete(s1) == Incomplete(s);
    if s1.modules[x].unresolved == 0 then OnComplete(s1, x) else s1
  }

  // ---- the steps ----

  /** defineModule up to the start of _resolve; a duplicate definition is ignored. */
  function Begin(s: State, id: Id, deps: seq<Dep>): State {
    if id in s.modules then s else
    s.(modules := s.modules[id := Module(Some(deps), |deps|, false, false)],
       declared := s.declared[id := deps],
       frames := [Frame(id, deps)] + s.frames)
  }

  predicate Resolving(s: State) {
    s.frames != [] && s.frames[0].rest != [] && s.frames[0].id in s.modules
  }

  /** One iteration of the loop of _resolve, for the innermost active call. */
  ghost function ResolveOne(s: State): State
    requires Resolving(s)
  {
    var m, d := s.frames[0].id, s.frames[0].rest[0];
    var s0 := s.(frames := [Frame(m, s.frames[0].rest[1..])] + s.frames[1..]);
    if !d.Regular? then Decrement(s0, m)
    else if IsComplete(s, d.DepId()) then
      if IsFailed(s, d.DepId()) then
        s.(modules := s.modules[m := MarkFailed(s.modules[m])], frames := s.frames[1..])
      else Decrement(s0, m)
    else if Reach(DepEdges(s.modules), d.DepId(), m) then
      Decrement(s0, m).(cuts := s.cuts + {(m, d.DepId())})
    else RequestModule(AddWaiter(s0, d.DepId(), m), d.DepId())
  }

  /** The end of _resolve. */
  ghost function Finish(s: State): State
    requires s.frames != [] && s.frames[0].id in s.modules && WaitersDefined(s)
  {
    var m := s.frames[0].id;
    var s0 := s.(frames := s.frames[1..]);
    if s.modules[m].unresolved == 0 then OnComplete(s0, m) else s0
  }

  function EnsureModule(s: State, f: Id): State {
    if f in s.modules then s
    else s.(modules := s.modules[f := Module(Some([]), 0, false, false)])
  }

  /** x is f or waits, directly or transitively, for f. */
  ghost predicate Affected(s: State, f: Id, x: Id) {
    ReachStar(WaitEdges(s.waiters), x, f)
  }

  /** _onLoadError: fails f and everything that waits for it. */
  ghost function LoadError(s: State, f: Id): State {
    var s0 := EnsureModule(s, f);
    s0.(modules := map x | x in s0.modules ::
          if Affected(s, f, x) then MarkFailed(s0.modules[x]) else s0.modules[x])
  }

  // ---- runs ----

  datatype Event =
    | DefineEvent(id: Id, deps: seq<Dep>)
    | ResolveEvent
    | FinishEvent
    | ErrorEvent(f: Id)

  /** Only a script that has been asked for can fail to load. */
  ghost predicate Enabled(s: State, e: Event) {
    match e
    case DefineEvent(_, _) => true
    case ResolveEvent => Resolving(s)
    case FinishEvent => s.frames != [] && s.frames[0].rest == [] && s.frames[0].id in s.modules && WaitersDefined(s)
    case ErrorEvent(f) => f in s.known
  }

  ghost function Next(s: State, e: Event): State
    requires Enabled(s, e)
  {
    match e
    case DefineEvent(id, deps) => Begin(s, id, deps)
    case ResolveEvent => ResolveOne(s)
    case FinishEvent => Finish(s)
    case ErrorEvent(f) => LoadError(s, f)
  }

  /** `es` takes the machine from s to t. */
  ghost predicate Run(s: State, es: seq<Event>, t: State)
    decreases |es|
  {
    if es == [] then s == t else Enabled(s, es[0]) && Run(Next(s, es[0]), es[1..], t)
  }

  ghost predicate Reachable(t: State) {
    exists es: seq<Event> :: Run(INIT, es, t)
  }
}
