/**
 * ModuleLoader: loading an entry module with everything it asks for. Every file has one promise; reading
 * a file and the settling of Promise.all are the steps, and steps of different promises interleave freely.
 */
module ModuleLoader {
  import opened Options
  import opened Graphs
  import opened Vlq
  import Model = SourceMapModel

  type Path = string

  /** What parseModule finds in a file with a `define` call. */
  datatype Parsed = Parsed(requests: seq<string>, source: Model.Source)

  datatype ModuleRec = ModuleRec(requests: seq<string>, dependencies: seq<Path>, source: Model.Source)

  /**
   * parseModule, the path mapper, and the text of the comment line that holds a source map. Requests
   * that are not files (`require`, `exports`, `module` and style sheets) resolve to None.
   */
  datatype Env = Env(
    parse: (string, Path) -> Option<Parsed>,
    resolve: (string, Path) -> Option<Path>,
    comment: Model.SourceMap -> seq<Byte>)

  /** The text of every file. */
  type Files = Path -> string

  function ResolveAll(env: Env, path: Path, requests: seq<string>): seq<Path> {
    if requests == [] then [] else
      var rest := ResolveAll(env, path, requests[1..]);
      match env.resolve(requests[0], path)
      case None => rest
      case Some(d) => [d] + rest
  }

  /** Each request is resolved on its own, and those that are not files are left out. */
  lemma {:induction false} ResolveAllSplit(env: Env, path: Path, a: seq<string>, b: seq<string>)
    ensures ResolveAll(env, path, a + b) == ResolveAll(env, path, a) + ResolveAll(env, path, b)
    decreases |a|
  {
    if a == [] {
      assert a + b == b;
    } else {
      assert (a + b)[0] == a[0] && (a + b)[1..] == a[1..] + b;
      ResolveAllSplit(env, path, a[1..], b);
    }
  }

  lemma ResolveSingle(env: Env, path: Path, request: string)
    ensures ResolveAll(env, path, [request]) ==
      if env.resolve(request, path).Some? then [env.resolve(request, path).value] else []
  {
    assert [request][1..] == [];
  }

  /** The i-th of the requests resolves to the file d. */
  predicate Resolves(env: Env, path: Path, requests: seq<string>, i: int, d: Path) {
    0 <= i < |requests| && env.resolve(requests[i], path) == Some(d)
  }

  /** The request with number i in the text of p resolves to the file d. */
  predicate AsksFor(env: Env, files: Files, p: Path, i: int, d: Path) {
    env.parse(files(p), p).Some? && Resolves(env, p, env.parse(files(p), p).value.requests, i, d)
  }

  lemma {:induction false} ResolveAllExact(env: Env, path: Path, requests: seq<string>, d: Path)
    ensures d in ResolveAll(env, path, requests) <==> exists i :: Resolves(env, path, requests, i, d)
  {
    if requests != [] {
      var rest := requests[1..];
      ResolveAllExact(env, path, rest, d);
      if i :| Resolves(env, path, rest, i, d) {
        assert Resolves(env, path, requests, i + 1, d);
      }
      if i :| Resolves(env, path, requests, i, d) {
        assert i > 0 ==> Resolves(env, path, rest, i - 1, d);
      }
      if env.resolve(requests[0], path) == Some(d) {
        assert Resolves(env, path, requests, 0, d);
      }
    }
  }

  /** The files that a file asks for. */
  function Asks(env: Env, files: Files, p: Path): seq<Path> {
    match env.parse(files(p), p)
    case None => []
    case Some(m) => ResolveAll(env, p, m.requests)
  }

  ghost function RequestEdges(env: Env, files: Files, ps: set<Path>): Graph<Path> {
    set p, d | p in ps && d in Asks(env, files, p) :: (p, d)
  }

  // ---- what loading is for ----

  type Loaded = map<Path, Option<ModuleRec>>

  /** Dependencies that did not parse are dropped. */
  function KeepParsed(loaded: Loaded, paths: seq<Path>): (r: seq<Path>)
    ensures forall d :: d in r <==> d in paths && d in loaded && loaded[d].Some?
  {
    if paths == [] then []
    else if paths[0] in loaded && loaded[paths[0]].Some? then [paths[0]] + KeepParsed(loaded, paths[1..])
    else KeepParsed(loaded, paths[1..])
  }

  /** The others stay, in order. */
  lemma {:induction false} KeepParsedSplit(loaded: Loaded, a: seq<Path>, b: seq<Path>)
    ensures KeepParsed(loaded, a + b) == KeepParsed(loaded, a) + KeepParsed(loaded, b)
    decreases |a|
  {
    if a == [] {
      assert a + b == b;
    } else {
      assert (a + b)[0] == a[0] && (a + b)[1..] == a[1..] + b;
      KeepParsedSplit(loaded, a[1..], b);
    }
  }

  lemma KeepParsedSingle(loaded: Loaded, p: Path)
    ensures KeepParsed(loaded, [p]) == if p in loaded && loaded[p].Some? then [p] else []
  {
    assert [p][1..] == [];
  }

  function ModuleOf(env: Env, files: Files, loaded: Loaded, p: Path): Option<ModuleRec> {
    match env.parse(files(p), p)
    case None => None
    case Some(m) => Some(ModuleRec(m.requests, KeepParsed(loaded, Asks(env, files, p)), m.source))
  }

  ghost predicate Complete(env: Env, files: Files, entry: Path, ps: set<Path>) {
    && entry in ps
    && (forall p, d :: p in ps && d in Asks(env, files, p) ==> d in ps)
    && (forall p :: p in ps ==> ReachStar(RequestEdges(env, files, ps), entry, p))
  }

  /**
   * The right module map for these files: exactly the files that the entry leads to, each with what its
   * text says, and no file asking, directly or transitively, for itself.
   */
  ghost predicate IsLoaded(env: Env, files: Files, entry: Path, loaded: Loaded) {
    && Complete(env, files, entry, loaded.Keys)
    && Acyclic(RequestEdges(env, files, loaded.Keys))
    && (forall p :: p in loaded ==> loaded[p] == ModuleOf(env, files, loaded, p))
  }

  lemma EdgeIff(env: Env, files: Files, ps: set<Path>, e: (Path, Path))
    ensures e in RequestEdges(env, files, ps) <==> e.0 in ps && e.1 in Asks(env, files, e.0)
  {
    assert e == (e.0, e.1);
  }

  /** p -> d when a request in the text of p resolves to d. */
  lemma RequestEdgesExact(env: Env, files: Files, ps: set<Path>, p: Path, d: Path)
    ensures (p, d) in RequestEdges(env, files, ps) <==>
      p in ps && exists i :: AsksFor(env, files, p, i, d)
  {
    EdgeIff(env, files, ps, (p, d));
    AsksExact(env, files, p, d);
  }

  lemma AsksExact(env: Env, files: Files, p: Path, d: Path)
    ensures d in Asks(env, files, p) <==> exists i :: AsksFor(env, files, p, i, d)
  {
    if env.parse(files(p), p).Some? {
      var requests := env.parse(files(p), p).value.requests;
      ResolveAllExact(env, p, requests, d);
      if i :| Resolves(env, p, requests, i, d) {
        assert AsksFor(env, files, p, i, d);
      }
    }
  }

  /**
   * The right module map, said of the files: it holds the entry and every file to which a request of a held file
   * resolves; a held file is a module exactly when it parses, with its own requests and source; its dependencies
   * are exactly the modules to which its requests resolve.
   */
  lemma LoadedMeans(env: Env, files: Files, entry: Path, loaded: Loaded, p: Path)
    requires IsLoaded(env, files, entry, loaded) && p in loaded
    ensures entry in loaded && (loaded[p].Some? <==> env.parse(files(p), p).Some?)
    ensures loaded[p].Some? ==>
      var m := env.parse(files(p), p).value;
      && loaded[p].value.requests == m.requests && loaded[p].value.source == m.source
      && (forall i, d :: AsksFor(env, files, p, i, d) ==> d in loaded)
      && forall d :: d in loaded[p].value.dependencies <==>
           d in loaded && loaded[d].Some? && exists i :: AsksFor(env, files, p, i, d)
  {
    hide Reach, Acyclic;
    assert loaded[p] == ModuleOf(env, files, loaded, p);
    if loaded[p].Some? {
      forall d: Path ensures d in Asks(env, files, p) <==> exists i :: AsksFor(env, files, p, i, d) {
        AsksExact(env, files, p, d);
      }
    }
  }

  /** Files that the entry leads to lie in every set with the entry that is closed under requests. */
  lemma ReachedWithin(env: Env, files: Files, entry: Path, ps: set<Path>, qs: set<Path>)
    requires forall p :: p in ps ==> ReachStar(RequestEdges(env, files, ps), entry, p)
    requires entry in qs
    requires forall p, d :: p in qs && d in Asks(env, files, p) ==> d in qs
    ensures ps <= qs
  {
    var g := RequestEdges(env, files, ps);
    forall p | p in ps ensures p in qs {
      assert ReachStar(g, entry, p);
      if p != entry {
        var w :| w != [] && IsWalk(g, entry, w, p);
        forall e | e in g && e.0 in qs ensures e.1 in qs {
          EdgeIff(env, files, ps, e);
        }
        ClosedWalk(g, qs, entry, w, p);
      }
    }
  }

  /** The files determine the module map. */
  lemma LoadedUnique(env: Env, files: Files, entry: Path, a: Loaded, b: Loaded)
    requires IsLoaded(env, files, entry, a) && IsLoaded(env, files, entry, b)
    ensures a == b
  {
    hide Reach, Acyclic, Asks, KeepParsed;
    SameComplete(env, files, entry, a.Keys, b.Keys);
    assert a.Keys == b.Keys;
    forall p | p in a ensures a[p] == b[p] {
      assert a[p] == ModuleOf(env, files, a, p) && b[p] == ModuleOf(env, files, b, p);
      KeepParsedSame(a, b, Asks(env, files, p));
    }
  }

  lemma SameComplete(env: Env, files: Files, entry: Path, ps: set<Path>, qs: set<Path>)
    requires Complete(env, files, entry, ps) && Complete(env, files, entry, qs)
    ensures ps == qs
  {
    hide Reach;
    ReachedWithin(env, files, entry, ps, qs);
    ReachedWithin(env, files, entry, qs, ps);
  }

  lemma {:induction false} KeepParsedSame(a: Loaded, b: Loaded, paths: seq<Path>)
    requires forall p :: p in paths ==> (p in a <==> p in b) && (p in a ==> (a[p].Some? <==> b[p].Some?))
    ensures KeepParsed(a, paths) == KeepParsed(b, paths)
  {
    if paths != [] {
      KeepParsedSame(a, b, paths[1..]);
    }
  }

  // ---- the promises ----

  /** Waiting for the file; waiting for the promises of the files asked for; settled. */
  datatype Promise = Reading | Waiting(parsed: Parsed, asked: seq<Path>) | Settled(result: Option<ModuleRec>)

  /** The map of promises, and the settled paths in order. */
  datatype State = State(modules: map<Path, Promise>, log: seq<Path>)

  /** addModuleAndDependencies: a path that has a promise gets no second one. */
  function Add(modules: map<Path, Promise>, p: Path): map<Path, Promise> {
    if p in modules then modules else modules[p := Reading]
  }

  function AddAll(modules: map<Path, Promise>, ps: seq<Path>): (r: map<Path, Promise>)
    ensures forall p :: p in r <==> p in modules || p in ps
    ensures forall p :: p in r ==> r[p] == if p in modules then modules[p] else Reading
    decreases |ps|
  {
    if ps == [] then modules else AddAll(Add(modules, ps[0]), ps[1..])
  }

  function Init(entry: Path): State {
    State(Add(map[], entry), [])
  }

  predicate IsSettled(s: State, p: Path) {
    p in s.modules && s.modules[p].Settled?
  }

  function Results(s: State): Loaded {
    map p | p in s.modules && s.modules[p].Settled? :: s.modules[p].result
  }

  datatype Event = FileRead(path: Path) | AllSettled(path: Path)

  predicate Enabled(s: State, e: Event) {
    && e.path in s.modules
    && match e
       case FileRead(p) => s.modules[p].Reading?
       case AllSettled(p) => s.modules[p].Waiting? && forall d :: d in s.modules[p].asked ==> IsSettled(s, d)
  }

  function Settle(s: State, p: Path, r: Option<ModuleRec>): State {
    State(s.modules[p := Settled(r)], s.log + [p])
  }

  function Next(env: Env, files: Files, s: State, e: Event): State
    requires Enabled(s, e)
  {
    match e
    case FileRead(p) =>
      (match env.parse(files(p), p)
       case None => Settle(s, p, None)
       case Some(m) =>
         var asked := ResolveAll(env, p, m.requests);
         s.(modules := AddAll(s.modules, asked)[p := Waiting(m, asked)]))
    case AllSettled(p) =>
      var Waiting(m, asked) := s.modules[p];
      Settle(s, p, Some(ModuleRec(m.requests, KeepParsed(Results(s), asked), m.source)))
  }

  ghost predicate Run(env: Env, files: Files, s: State, es: seq<Event>, t: State)
    decreases |es|
  {
    if es == [] then s == t
    else Enabled(s, es[0]) && Run(env, files, Next(env, files, s, es[0]), es[1..], t)
  }

  ghost predicate Quiescent(s: State) {
    forall e: Event :: !Enabled(s, e)
  }

  // ---- what every step keeps ----

  ghost predicate PromiseOk(env: Env, files: Files, s: State, p: Path)
    requires p in s.modules
  {
    match s.modules[p]
    case Reading => true
    case Waiting(m, asked) =>
      && env.parse(files(p), p) == Some(m) && asked == Asks(env, files, p)
      && forall d :: d in asked ==> d in s.modules
    case Settled(r) =>
      && r == ModuleOf(env, files, Results(s), p)
      && forall d :: d in Asks(env, files, p) ==> IsSettled(s, d)
  }

  /** What a settled file asks for was settled before it. */
  ghost predicate LogOk(env: Env, files: Files, s: State) {
    && (forall p :: p in s.log <==> IsSettled(s, p))
    && (forall i, d :: 0 <= i < |s.log| && d in Asks(env, files, s.log[i]) ==> d in s.log[..i])
  }

  ghost predicate Inv(env: Env, files: Files, entry: Path, s: State) {
    && entry in s.modules
    && (forall p :: p in s.modules ==> ReachStar(RequestEdges(env, files, s.modules.Keys), entry, p))
    && (forall p :: p in s.modules ==> PromiseOk(env, files, s, p))
    && LogOk(env, files, s)
  }

  lemma InitInv(env: Env, files: Files, entry: Path)
    ensures Inv(env, files, entry, Init(entry))
  {
  }

  /** No promise is taken back: settled ones keep their result. */
  ghost predicate Grown(s: State, t: State) {
    && s.modules.Keys <= t.modules.Keys
    && forall p :: IsSettled(s, p) ==> IsSettled(t, p) && t.modules[p] == s.modules[p]
  }

  lemma OtherPromise(env: Env, files: Files, s: State, t: State, p: Path)
    requires p in s.modules && p in t.modules && t.modules[p] == s.modules[p]
    requires PromiseOk(env, files, s, p) && Grown(s, t)
    ensures PromiseOk(env, files, t, p)
  {
    if s.modules[p].Settled? {
      KeepParsedSame(Results(s), Results(t), Asks(env, files, p));
    }
  }

  /** Every file with a promise is reachable, and remains so when more promises are made for what one asks. */
  lemma StillReachable(env: Env, files: Files, entry: Path, s: State, t: State, p: Path)
    requires p in s.modules && s.modules.Keys <= t.modules.Keys
    requires forall q :: q in s.modules ==> ReachStar(RequestEdges(env, files, s.modules.Keys), entry, q)
    requires forall q :: q in t.modules && q !in s.modules ==> q in Asks(env, files, p)
    ensures forall q :: q in t.modules ==> ReachStar(RequestEdges(env, files, t.modules.Keys), entry, q)
  {
    var g, h := RequestEdges(env, files, s.modules.Keys), RequestEdges(env, files, t.modules.Keys);
    assert g <= h;
    forall q | q in s.modules ensures ReachStar(h, entry, q) {
      assert ReachStar(g, entry, q);
      if q != entry {
        ReachMono(g, h, entry, q);
      }
    }
    forall q | q in t.modules && q !in s.modules ensures ReachStar(h, entry, q) {
      EdgeIff(env, files, t.modules.Keys, (p, q));
      EdgeReach(h, p, q);
      ReachTrans(h, entry, p, q);
    }
  }

  lemma SettleLog(env: Env, files: Files, s: State, p: Path, r: Option<ModuleRec>)
    requires LogOk(env, files, s) && p in s.modules && !IsSettled(s, p)
    requires forall d :: d in Asks(env, files, p) ==> IsSettled(s, d)
    ensures LogOk(env, files, Settle(s, p, r))
  {
    var t := Settle(s, p, r);
    forall i, d | 0 <= i < |t.log| && d in Asks(env, files, t.log[i]) ensures d in t.log[..i] {
      if i < |s.log| {
        assert t.log[..i] == s.log[..i];
      } else {
        assert t.log[..i] == s.log;
      }
    }
  }

  lemma ReadInv(env: Env, files: Files, entry: Path, s: State, p: Path)
    requires Inv(env, files, entry, s) && Enabled(s, FileRead(p))
    ensures Inv(env, files, entry, Next(env, files, s, FileRead(p)))
  {
    hide LogOk, Grown, Reach, RequestEdges;
    var t := Next(env, files, s, FileRead(p));
    if env.parse(files(p), p).None? {
      SettleLog(env, files, s, p, None);
    } else {
      SameLog(env, files, s, t);
    }
    StillReachable(env, files, entry, s, t, p);
    StepGrows(env, files, s, FileRead(p));
    forall q | q in t.modules ensures PromiseOk(env, files, t, q) {
      if q != p && q in s.modules {
        OtherPromise(env, files, s, t, q);
      }
    }
  }

  lemma SameLog(env: Env, files: Files, s: State, t: State)
    requires LogOk(env, files, s) && t.log == s.log && forall p :: IsSettled(s, p) <==> IsSettled(t, p)
    ensures LogOk(env, files, t)
  {
  }

  lemma StepGrows(env: Env, files: Files, s: State, e: Event)
    requires Enabled(s, e)
    ensures Grown(s, Next(env, files, s, e))
  {
  }

  lemma SettleInv(env: Env, files: Files, entry: Path, s: State, p: Path)
    requires Inv(env, files, entry, s) && Enabled(s, AllSettled(p))
    ensures Inv(env, files, entry, Next(env, files, s, AllSettled(p)))
  {
    hide LogOk, Grown, Reach, RequestEdges;
    var t := Next(env, files, s, AllSettled(p));
    assert PromiseOk(env, files, s, p);
    SettleLog(env, files, s, p, t.modules[p].result);
    StillReachable(env, files, entry, s, t, p);
    StepGrows(env, files, s, AllSettled(p));
    forall q | q in t.modules && q != p ensures PromiseOk(env, files, t, q) {
      OtherPromise(env, files, s, t, q);
    }
    SettledOk(env, files, s, p);
  }

  /** The new record is what the file says, and the files it asks for keep their results. */
  lemma SettledOk(env: Env, files: Files, s: State, p: Path)
    requires Enabled(s, AllSettled(p)) && PromiseOk(env, files, s, p)
    ensures PromiseOk(env, files, Next(env, files, s, AllSettled(p)), p)
  {
    var t := Next(env, files, s, AllSettled(p));
    assert p !in s.modules[p].asked;
    KeepParsedSame(Results(s), Results(t), s.modules[p].asked);
  }

  lemma {:induction false} RunInv(env: Env, files: Files, entry: Path, s: State, es: seq<Event>, t: State)
    requires Inv(env, files, entry, s) && Run(env, files, s, es, t)
    ensures Inv(env, files, entry, t)
    decreases |es|
  {
    hide Inv, Next;
    if es != [] {
      match es[0] {
        case FileRead(p) => ReadInv(env, files, entry, s, p);
        case AllSettled(p) => SettleInv(env, files, entry, s, p);
      }
      RunInv(env, files, entry, Next(env, files, s, es[0]), es[1..], t);
    }
  }

  // ---- loading ends, and when it yields a module map ----

  /** Promises whose file has been read. */
  ghost function Read(s: State): set<Path> {
    set p | p in s.modules && !s.modules[p].Reading?
  }

  ghost function Done(s: State): set<Path> {
    set p | p in s.modules && s.modules[p].Settled?
  }

  lemma StepCounts(env: Env, files: Files, s: State, e: Event)
    requires Enabled(s, e)
    ensures |Read(s)| + |Done(s)| < |Read(Next(env, files, s, e))| + |Done(Next(env, files, s, e))|
  {
    var t := Next(env, files, s, e);
    SubsetSize(Read(s), Read(t));
    SubsetSize(Done(s), Done(t));
    if e.FileRead? {
      assert e.path in Read(t) && e.path !in Read(s);
    } else {
      assert e.path in Done(t) && e.path !in Done(s);
    }
  }

  lemma {:induction false} SubsetSize(a: set<Path>, b: set<Path>)
    requires a <= b
    ensures |a| <= |b| && (a != b ==> |a| < |b|)
  {
    if a != {} {
      var x :| x in a;
      SubsetSize(a - {x}, b - {x});
    } else if b != {} {
      assert |b| > 0;
    }
  }

  lemma {:induction false} RunCounts(env: Env, files: Files, s: State, es: seq<Event>, t: State)
    requires Run(env, files, s, es, t)
    ensures |Read(s)| + |Done(s)| + |es| <= |Read(t)| + |Done(t)|
    decreases |es|
  {
    hide Next, Enabled, Read, Done;
    if es != [] {
      StepCounts(env, files, s, es[0]);
      RunCounts(env, files, Next(env, files, s, es[0]), es[1..], t);
    }
  }

  /** Loading ends: there are at most two steps for each of the files that the entry leads to. */
  lemma LoadingEnds(env: Env, files: Files, entry: Path, es: seq<Event>, t: State, ps: set<Path>)
    requires Run(env, files, Init(entry), es, t)
    requires entry in ps && forall p, d :: p in ps && d in Asks(env, files, p) ==> d in ps
    ensures |es| <= 2 * |ps|
  {
    hide Inv;
    RunCounts(env, files, Init(entry), es, t);
    ReachedInv(env, files, entry, es, t);
    PromisesReached(env, files, entry, t);
    ReachedWithin(env, files, entry, t.modules.Keys, ps);
    SubsetSize(Read(t), ps);
    SubsetSize(Done(t), ps);
  }

  lemma PromisesReached(env: Env, files: Files, entry: Path, t: State)
    requires Inv(env, files, entry, t)
    ensures forall p :: p in t.modules ==> ReachStar(RequestEdges(env, files, t.modules.Keys), entry, p)
  {
  }

  /** A list in which everything asked for comes earlier has no cycles. */
  lemma OrderedIsAcyclic(env: Env, files: Files, log: seq<Path>, ps: set<Path>)
    requires forall p :: p in ps ==> p in log
    requires forall i, d :: 0 <= i < |log| && d in Asks(env, files, log[i]) ==> d in log[..i]
    ensures Acyclic(RequestEdges(env, files, ps))
  {
    var g := RequestEdges(env, files, ps);
    forall x: Path ensures !Reach(g, x, x) {
      if Reach(g, x, x) {
        var d := FirstEdge(g, x, x);
        EdgeIff(env, files, ps, (x, d));
        var k := FirstIndex(log, x);
        var before := set y | y in log[..k];
        assert d in before;
        forall e | e in g && e.0 in before ensures e.1 in before {
          EdgeIff(env, files, ps, e);
          var j :| 0 <= j < k && log[j] == e.0;
          assert e.1 in log[..j];
        }
        if d != x {
          var w :| w != [] && IsWalk(g, d, w, x);
          ClosedWalk(g, before, d, w, x);
        }
      }
    }
  }

  lemma FirstIndex(log: seq<Path>, x: Path) returns (k: nat)
    requires x in log
    ensures k < |log| && log[k] == x && x !in log[..k]
  {
    if log[0] == x {
      k := 0;
    } else {
      k := FirstIndex(log[1..], x);
      k := k + 1;
      assert log[..k] == [log[0]] + log[1..][..k - 1];
    }
  }

  /** A settled entry has everything settled. */
  lemma AllDone(env: Env, files: Files, entry: Path, t: State)
    requires Inv(env, files, entry, t) && IsSettled(t, entry)
    ensures forall p :: p in t.modules ==> IsSettled(t, p)
  {
    forall p, d | p in Done(t) && d in Asks(env, files, p) ensures d in Done(t) {
      assert PromiseOk(env, files, t, p);
    }
    ReachedWithin(env, files, entry, t.modules.Keys, Done(t));
  }

  lemma SettledIsLoaded(env: Env, files: Files, entry: Path, t: State)
    requires Inv(env, files, entry, t) && IsSettled(t, entry)
    ensures Results(t).Keys == t.modules.Keys && IsLoaded(env, files, entry, Results(t))
  {
    AllDone(env, files, entry, t);
    assert Results(t).Keys == t.modules.Keys;
    OrderedIsAcyclic(env, files, t.log, t.modules.Keys);
    forall p | p in Results(t)
      ensures Results(t)[p] == ModuleOf(env, files, Results(t), p)
      ensures forall d :: d in Asks(env, files, p) ==> d in Results(t)
    {
      assert PromiseOk(env, files, t, p);
    }
  }

  /** When nothing can happen any more, every file has been read and everything asked for has a promise. */
  lemma QuiescentComplete(env: Env, files: Files, entry: Path, t: State)
    requires Inv(env, files, entry, t) && Quiescent(t)
    ensures Complete(env, files, entry, t.modules.Keys)
  {
    forall p, d | p in t.modules && d in Asks(env, files, p) ensures d in t.modules {
      assert !Enabled(t, FileRead(p));
      assert PromiseOk(env, files, t, p);
    }
  }

  /** Some file that p leads to asks, directly or transitively, for itself. */
  ghost predicate LeadsToCycle(g: Graph<Path>, p: Path) {
    exists q: Path :: ReachStar(g, p, q) && Reach(g, q, q)
  }

  /** What a settled file leads to is settled, in order. */
  lemma SettledHasNoCycle(env: Env, files: Files, entry: Path, t: State, p: Path)
    requires Inv(env, files, entry, t) && IsSettled(t, p)
    ensures !LeadsToCycle(RequestEdges(env, files, t.modules.Keys), p)
  {
    var g, h := RequestEdges(env, files, t.modules.Keys), RequestEdges(env, files, Done(t));
    forall e | e in g && e.0 in Done(t) ensures e.1 in Done(t) && e in h {
      EdgeIff(env, files, t.modules.Keys, e);
      EdgeIff(env, files, Done(t), e);
      assert PromiseOk(env, files, t, e.0);
    }
    OrderedIsAcyclic(env, files, t.log, Done(t));
    forall q: Path | ReachStar(g, p, q) ensures !Reach(g, q, q) {
      if q != p {
        var w :| w != [] && IsWalk(g, p, w, q);
        ClosedWalk(g, Done(t), p, w, q);
      }
      if Reach(g, q, q) {
        var w :| w != [] && IsWalk(g, q, w, q);
        WalkInside(g, h, Done(t), q, w, q);
        assert Reach(h, q, q);
      }
    }
  }

  /** An unsettled file waits for another one. */
  lemma WaitsForUnsettled(env: Env, files: Files, entry: Path, t: State, p: Path) returns (d: Path)
    requires Inv(env, files, entry, t) && Quiescent(t) && p in t.modules && !IsSettled(t, p)
    ensures (p, d) in RequestEdges(env, files, t.modules.Keys) && d in t.modules && !IsSettled(t, d)
  {
    assert !Enabled(t, FileRead(p)) && !Enabled(t, AllSettled(p));
    assert PromiseOk(env, files, t, p);
    d :| d in t.modules[p].asked && !IsSettled(t, d);
    EdgeIff(env, files, t.modules.Keys, (p, d));
  }

  /** Following unsettled files from p, one comes back to a file seen before. */
  lemma UnsettledHasCycle(env: Env, files: Files, entry: Path, t: State, p: Path)
    requires Inv(env, files, entry, t) && Quiescent(t) && p in t.modules && !IsSettled(t, p)
    ensures LeadsToCycle(RequestEdges(env, files, t.modules.Keys), p)
  {
    hide Inv, Quiescent, RequestEdges;
    var g := RequestEdges(env, files, t.modules.Keys);
    var open := set q | q in t.modules && !IsSettled(t, q) && ReachStar(g, p, q);
    var h := set e | e in g && e.0 in open;
    if !LeadsToCycle(g, p) {
      forall x: Path ensures !Reach(h, x, x) {
        if Reach(h, x, x) {
          var y := FirstEdge(h, x, x);
          ReachMono(h, g, x, x);
        }
      }
      forall q | q in open && q !in {} ensures exists d :: d in open && (q, d) in h {
        var d := WaitsForUnsettled(env, files, entry, t, q);
        EdgeReach(g, q, d);
        ReachTrans(g, p, q, d);
        assert d in open && (q, d) in h;
      }
      var e := LeadsToExit(h, open, {}, p, {});
    }
  }

  /** Once no step is left, a file's promise has settled if and only if the file does not lead to a cycle. */
  lemma SettlesExactly(env: Env, files: Files, entry: Path, es: seq<Event>, t: State, p: Path)
    requires Run(env, files, Init(entry), es, t) && Quiescent(t) && p in t.modules
    ensures IsSettled(t, p) <==> !LeadsToCycle(RequestEdges(env, files, t.modules.Keys), p)
  {
    hide Inv, Quiescent, LeadsToCycle;
    ReachedInv(env, files, entry, es, t);
    if IsSettled(t, p) {
      SettledHasNoCycle(env, files, entry, t, p);
    } else {
      UnsettledHasCycle(env, files, entry, t, p);
    }
  }

  lemma ReachedInv(env: Env, files: Files, entry: Path, es: seq<Event>, t: State)
    requires Run(env, files, Init(entry), es, t)
    ensures Inv(env, files, entry, t)
  {
    hide Inv;
    InitInv(env, files, entry);
    RunInv(env, files, entry, Init(entry), es, t);
  }

  lemma AcyclicSettles(env: Env, files: Files, entry: Path, t: State)
    requires Inv(env, files, entry, t) && Quiescent(t) && Acyclic(RequestEdges(env, files, t.modules.Keys))
    ensures IsSettled(t, entry)
  {
    hide Quiescent, RequestEdges, PromiseOk, LogOk;
    if !IsSettled(t, entry) {
      UnsettledHasCycle(env, files, entry, t, entry);
      assert false;
    }
  }

  /**
   * Loading, in every interleaving: once no step is left, the entry's promise has settled if and only if
   * no file among those the entry leads to asks, directly or transitively, for itself; if it has, the
   * promises spell the right module map; if it has not, there is no such map and it never settles.
   */
  lemma LoadsExactly(env: Env, files: Files, entry: Path, es: seq<Event>, t: State)
    requires Run(env, files, Init(entry), es, t) && Quiescent(t)
    ensures Complete(env, files, entry, t.modules.Keys)
    ensures forall p, i, d :: p in t.modules && AsksFor(env, files, p, i, d) ==> d in t.modules
    ensures IsSettled(t, entry) <==> Acyclic(RequestEdges(env, files, t.modules.Keys))
    ensures IsSettled(t, entry) ==> IsLoaded(env, files, entry, Results(t))
    ensures IsSettled(t, entry) <==> exists loaded :: IsLoaded(env, files, entry, loaded)
  {
    hide Inv, Quiescent, Complete, IsLoaded;
    ReachedInv(env, files, entry, es, t);
    QuiescentComplete(env, files, entry, t);
    CompleteCloses(env, files, entry, t.modules.Keys);
    if IsSettled(t, entry) {
      SettledIsLoaded(env, files, entry, t);
      LoadedAcyclic(env, files, entry, Results(t), t.modules.Keys);
    }
    if Acyclic(RequestEdges(env, files, t.modules.Keys)) {
      AcyclicSettles(env, files, entry, t);
    }
    if loaded :| IsLoaded(env, files, entry, loaded) {
      LoadedAcyclic(env, files, entry, loaded, t.modules.Keys);
      AcyclicSettles(env, files, entry, t);
    }
  }

  lemma CompleteCloses(env: Env, files: Files, entry: Path, ps: set<Path>)
    requires Complete(env, files, entry, ps)
    ensures forall p, i, d :: p in ps && AsksFor(env, files, p, i, d) ==> d in ps
  {
    hide Reach;
    forall p, i, d | p in ps && AsksFor(env, files, p, i, d) ensures d in ps {
      AsksExact(env, files, p, d);
    }
  }

  lemma LoadedAcyclic(env: Env, files: Files, entry: Path, loaded: Loaded, ps: set<Path>)
    requires IsLoaded(env, files, entry, loaded) && Complete(env, files, entry, ps)
    ensures loaded.Keys == ps && Acyclic(RequestEdges(env, files, ps))
  {
    SameComplete(env, files, entry, ps, loaded.Keys);
  }
}
