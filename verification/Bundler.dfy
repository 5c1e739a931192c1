/** bundleWithDependencies: a post-order walk of the module graph that feeds the source-map builder. */
module Bundler {
  import opened Sequences
  import opened Options
  import opened Graphs
  import Model = SourceMapModel
  import SMB = SourceMapBuilder
  import Theorems = SourceMapTheorems
  import opened Mappings
  import opened Vlq

  /** Modules are told apart by their path. */
  type Id = string

  /** A module's dependencies, in the order of its define call. */
  type Modules = map<Id, seq<Id>>

  ghost predicate Closed(g: Modules) {
    forall m, i :: m in g && 0 <= i < |g[m]| ==> g[m][i] in g
  }

  ghost function Edges(g: Modules): Graph<Id> {
    set m, i | m in g && 0 <= i < |g[m]| :: (m, g[m][i])
  }

  /** The visited set and the modules emitted so far. */
  datatype Walk = Walk(visited: set<Id>, order: seq<Id>)

  ghost function Visit(g: Modules, w: Walk, m: Id): (w': Walk)
    requires Closed(g) && m in g && w.visited <= g.Keys
    ensures w.visited <= w'.visited <= g.Keys
    ensures w.order <= w'.order && forall x :: x in w'.order ==> x in w.order || x in g
    decreases g.Keys - w.visited, 0
  {
    if m in w.visited then w else
      var w1 := VisitAll(g, w.(visited := w.visited + {m}), g[m]);
      w1.(order := w1.order + [m])
  }

  ghost function VisitAll(g: Modules, w: Walk, ms: seq<Id>): (w': Walk)
    requires Closed(g) && w.visited <= g.Keys && forall i :: 0 <= i < |ms| ==> ms[i] in g
    ensures w.visited <= w'.visited <= g.Keys
    ensures w.order <= w'.order && forall x :: x in w'.order ==> x in w.order || x in g
    decreases g.Keys - w.visited, 1 + |ms|
  {
    if ms == [] then w else VisitAll(g, Visit(g, w, ms[0]), ms[1..])
  }

  /** Visited but not emitted: still on the call stack. */
  ghost predicate OnStack(w: Walk, x: Id) {
    x in w.visited && x !in w.order
  }

  /** Each dependency of an emitted module was emitted before it, or leads back to it. */
  ghost predicate Ordered(g: Modules, order: seq<Id>) {
    forall i, d :: 0 <= i < |order| && order[i] in g && d in g[order[i]] ==>
      d in order[..i] || Reach(Edges(g), d, order[i])
  }

  ghost predicate Inv(g: Modules, w: Walk) {
    && (forall x :: x in w.order ==> x in w.visited)
    && NoDuplicates(w.order)
    && Ordered(g, w.order)
    && (forall x, d :: x in w.order && x in g && d in g[x] ==> d in w.visited)
  }

  /** What a (partial) walk from w to w' may have done, starting at vertices reachable from m. */
  ghost predicate Extends(g: Modules, w: Walk, w': Walk, m: Id) {
    && w.order <= w'.order
    && (forall x :: OnStack(w', x) <==> OnStack(w, x))
    && (forall i :: |w.order| <= i < |w'.order| ==> ReachStar(Edges(g), m, w'.order[i]))
  }

  lemma EdgeOf(g: Modules, m: Id, d: Id)
    requires m in g && d in g[m]
    ensures (m, d) in Edges(g) && Reach(Edges(g), m, d)
  {
    var i :| 0 <= i < |g[m]| && g[m][i] == d;
    assert (m, g[m][i]) in Edges(g);
    EdgeReach(Edges(g), m, d);
  }

  lemma {:induction false} VisitInv(g: Modules, w: Walk, m: Id)
    requires Closed(g) && m in g && w.visited <= g.Keys && Inv(g, w)
    requires forall t :: OnStack(w, t) ==> Reach(Edges(g), t, m)
    ensures Inv(g, Visit(g, w, m)) && m in Visit(g, w, m).visited && Extends(g, w, Visit(g, w, m), m)
    decreases g.Keys - w.visited, 0
  {
    if m !in w.visited {
      var e, w0 := Edges(g), w.(visited := w.visited + {m});
      forall t, d | OnStack(w0, t) && d in g[m] ensures Reach(e, t, d) {
        EdgeOf(g, m, d);
        if t != m {
          assert OnStack(w, t);
          ReachTrans(e, t, m, d);
        }
      }
      forall d | d in g[m] ensures ReachStar(e, m, d) {
        EdgeOf(g, m, d);
      }
      VisitAllInv(g, w0, g[m], m);
      Emit(g, w, w0, VisitAll(g, w0, g[m]), m);
    }
  }

  /** All dependencies of m have been visited; emitting m keeps the invariant. */
  lemma Emit(g: Modules, w: Walk, w0: Walk, w1: Walk, m: Id)
    requires Closed(g) && m in g && m !in w.visited && w0 == w.(visited := w.visited + {m}) && Inv(g, w)
    requires forall t :: OnStack(w, t) ==> Reach(Edges(g), t, m)
    requires Inv(g, w1) && Extends(g, w0, w1, m) && w0.visited <= w1.visited
    requires forall d :: d in g[m] ==> d in w1.visited
    ensures var w' := w1.(order := w1.order + [m]); Inv(g, w') && Extends(g, w, w', m)
  {
    var w', e := w1.(order := w1.order + [m]), Edges(g);
    assert OnStack(w0, m);
    assert OnStack(w1, m);
    assert forall x :: x in w'.order <==> x in w1.order || x == m;
    forall i, d | 0 <= i < |w'.order| && w'.order[i] in g && d in g[w'.order[i]]
      ensures d in w'.order[..i] || Reach(e, d, w'.order[i])
    {
      if i < |w1.order| {
        assert w'.order[..i] == w1.order[..i] && w'.order[i] == w1.order[i];
      } else {
        assert w'.order[..i] == w1.order;
        EdgeOf(g, m, d);
        if d !in w1.order && d != m {
          assert OnStack(w1, d);
          assert OnStack(w, d);
        }
      }
    }
    forall x ensures OnStack(w', x) <==> OnStack(w, x) {
      assert OnStack(w1, x) <==> OnStack(w0, x);
    }
  }

  lemma {:induction false} VisitAllInv(g: Modules, w: Walk, ms: seq<Id>, m: Id)
    requires Closed(g) && w.visited <= g.Keys && Inv(g, w) && forall i :: 0 <= i < |ms| ==> ms[i] in g
    requires forall t, d :: OnStack(w, t) && d in ms ==> Reach(Edges(g), t, d)
    requires forall d :: d in ms ==> ReachStar(Edges(g), m, d)
    ensures Inv(g, VisitAll(g, w, ms)) && Extends(g, w, VisitAll(g, w, ms), m)
    ensures forall d :: d in ms ==> d in VisitAll(g, w, ms).visited
    decreases g.Keys - w.visited, 1 + |ms|
  {
    if ms != [] {
      var w1, e := Visit(g, w, ms[0]), Edges(g);
      VisitInv(g, w, ms[0]);
      VisitAllInv(g, w1, ms[1..], m);
      var w2 := VisitAll(g, w1, ms[1..]);
      forall i | |w.order| <= i < |w2.order| ensures ReachStar(e, m, w2.order[i]) {
        if i < |w1.order| {
          assert w2.order[i] == w1.order[i];
          ReachTrans(e, m, ms[0], w1.order[i]);
        }
      }
      assert forall d :: d in ms ==> d == ms[0] || d in ms[1..];
    }
  }

  ghost function Order(g: Modules, root: Id): (order: seq<Id>)
    requires Closed(g) && root in g
    ensures forall x :: x in order ==> x in g
  {
    Visit(g, Walk({}, []), root).order
  }

  /**
   * On any finite module graph, cyclic or not: exactly the reachable modules are emitted, each
   * once, and a dependency that does not lead back to its module is emitted before it.
   */
  lemma BundleOrder(g: Modules, root: Id)
    requires Closed(g) && root in g
    ensures NoDuplicates(Order(g, root))
    ensures forall x: Id :: x in Order(g, root) <==> ReachStar(Edges(g), root, x)
    ensures forall i, d :: 0 <= i < |Order(g, root)| && Order(g, root)[i] in g && d in g[Order(g, root)[i]] ==>
      Reach(Edges(g), d, Order(g, root)[i]) || d in Order(g, root)[..i]
  {
    var w, e := Walk({}, []), Edges(g);
    VisitInv(g, w, root);
    var w' := Visit(g, w, root);
    forall x: Id ensures x in w'.order <==> ReachStar(e, root, x) {
      assert OnStack(w', x) <==> OnStack(w, x);
      if x in w'.order {
        var i :| 0 <= i < |w'.order| && w'.order[i] == x;
      }
      if ReachStar(e, root, x) {
        assert OnStack(w', root) <==> OnStack(w, root);
        ReachedIsVisited(g, w', root, x);
      }
    }
  }

  lemma {:induction false} VisitAllSplit(g: Modules, w: Walk, a: seq<Id>, b: seq<Id>)
    requires Closed(g) && w.visited <= g.Keys && forall x :: x in a + b ==> x in g
    ensures (forall x :: x in a || x in b ==> x in g) && VisitAll(g, w, a + b) == VisitAll(g, VisitAll(g, w, a), b)
    decreases |a|
  {
    assert forall x :: x in a || x in b ==> x in a + b;
    if a == [] {
      assert a + b == b;
    } else {
      assert (a + b)[0] == a[0] && (a + b)[1..] == a[1..] + b;
      VisitAllSplit(g, Visit(g, w, a[0]), a[1..], b);
    }
  }

  /** What a walk emits lies behind the modules it visits. */
  lemma {:induction false} EmittedBehind(g: Modules, w: Walk, ms: seq<Id>, x: Id)
    requires Closed(g) && w.visited <= g.Keys && (forall m :: m in ms ==> m in g)
    requires x in VisitAll(g, w, ms).order && x !in w.order
    ensures exists m :: m in ms && ReachStar(Edges(g), m, x)
    decreases g.Keys - w.visited, |ms|
  {
    if ms != [] {
      var m, w1 := ms[0], Visit(g, w, ms[0]);
      if x in w1.order {
        if x != m {
          EmittedBehind(g, w.(visited := w.visited + {m}), g[m], x);
          var d :| d in g[m] && ReachStar(Edges(g), d, x);
          EdgeOf(g, m, d);
          ReachTrans(Edges(g), m, d, x);
        }
      } else {
        EmittedBehind(g, w1, ms[1..], x);
      }
    }
  }

  /**
   * Dependencies are taken in the order of the define call: of two dependencies of the root, the first is emitted
   * first, unless the second is also needed by the first or by one before it.
   */
  lemma SiblingsInOrder(g: Modules, root: Id, i: nat, j: nat)
    requires Closed(g) && root in g && i < j < |g[root]| && g[root][i] != root
    requires forall k :: 0 <= k <= i ==> !ReachStar(Edges(g), g[root][k], g[root][j])
    ensures exists a, b ::
      0 <= a < b < |Order(g, root)| && Order(g, root)[a] == g[root][i] && Order(g, root)[b] == g[root][j]
  {
    hide Reach, VisitAll, Order;
    var w0, deps := Walk({root}, []), g[root];
    var front, back := deps[..i + 1], deps[i + 1..];
    assert deps == front + back;
    RootVisits(g, root, front);
    VisitAllSplit(g, w0, front, back);
    RootIsLast(g, root);
    var w1, order := VisitAll(g, w0, front), Order(g, root);
    assert deps[i] == front[i] && front[i] in front;
    NotBehind(g, w0, front, deps[j]);
    BundleOrder(g, root);
    EdgeOf(g, root, deps[j]);
    assert w1.order <= order;
    EmittedLater(w1.order, order, deps[i], deps[j]);
  }

  lemma RootIsLast(g: Modules, root: Id)
    requires Closed(g) && root in g
    ensures Order(g, root) == VisitAll(g, Walk({root}, []), g[root]).order + [root]
  {
    assert Walk({}, []).(visited := {} + {root}) == Walk({root}, []);
  }

  lemma NotBehind(g: Modules, w: Walk, ms: seq<Id>, x: Id)
    requires Closed(g) && w.visited <= g.Keys && (forall m :: m in ms ==> m in g) && x !in w.order
    requires forall k :: 0 <= k < |ms| ==> !ReachStar(Edges(g), ms[k], x)
    ensures x !in VisitAll(g, w, ms).order
  {
    hide Reach, VisitAll;
    if x in VisitAll(g, w, ms).order {
      EmittedBehind(g, w, ms, x);
    }
  }

  lemma EmittedLater(front: seq<Id>, order: seq<Id>, x: Id, y: Id)
    requires front <= order && x in front && y !in front && y in order
    ensures exists a, b :: 0 <= a < b < |order| && order[a] == x && order[b] == y
  {
    var a :| 0 <= a < |front| && front[a] == x;
    var b :| 0 <= b < |order| && order[b] == y;
    assert order[a] == x && forall k :: 0 <= k < |front| ==> order[k] == front[k] && front[k] != y;
  }

  /** Everything visited from the root, but the root itself, has been emitted. */
  lemma RootVisits(g: Modules, root: Id, ms: seq<Id>)
    requires Closed(g) && root in g && forall m :: m in ms ==> m in g[root]
    ensures (forall m :: m in ms ==> m in g)
    ensures forall m :: m in ms && m != root ==> m in VisitAll(g, Walk({root}, []), ms).order
  {
    var w, e := Walk({root}, []), Edges(g);
    forall m | m in ms ensures m in g && Reach(e, root, m) {
      EdgeOf(g, root, m);
    }
    VisitAllInv(g, w, ms, root);
    forall m | m in ms && m != root ensures m in VisitAll(g, w, ms).order {
      assert OnStack(VisitAll(g, w, ms), m) <==> OnStack(w, m);
    }
  }

  lemma ReachedIsVisited(g: Modules, w: Walk, root: Id, x: Id)
    requires Inv(g, w) && root in w.order && (forall y :: !OnStack(w, y)) && ReachStar(Edges(g), root, x)
    ensures x in w.visited
  {
    if x != root {
      var e, p :| e == Edges(g) && p != [] && IsWalk(e, root, p, x);
      forall edge | edge in e && edge.0 in w.visited ensures edge.1 in w.visited {
        assert !OnStack(w, edge.0);
        assert edge.1 in g[edge.0];
      }
      ClosedWalk(e, w.visited, root, p, x);
    }
  }

  // ---- the walk together with the builder ----

  function Pick(sources: map<Id, Model.Source>, order: seq<Id>): seq<Model.Source>
    requires forall x :: x in order ==> x in sources
  {
    seq(|order|, i requires 0 <= i < |order| => sources[order[i]])
  }

  lemma {:induction false} AddSourcesSplit(b: Model.Builder, xs: seq<Model.Source>, ys: seq<Model.Source>)
    ensures Model.AddSources(b, xs + ys) ==
      match Model.AddSources(b, xs)
      case Some(b1) => Model.AddSources(b1, ys)
      case None => None
    decreases |xs|
  {
    if xs == [] {
      assert xs + ys == ys;
    } else {
      assert (xs + ys)[0] == xs[0] && (xs + ys)[1..] == xs[1..] + ys;
      var r := Model.AddSource(b, xs[0]);
      if r.Some? {
        AddSourcesSplit(r.value, xs[1..], ys);
      }
    }
  }

  /** Every source map of the list is accepted by addSource. */
  ghost predicate Buildable(sources: map<Id, Model.Source>, order: seq<Id>) {
    && (forall x :: x in order ==> x in sources)
    && Model.AddSources(Model.EMPTY, Pick(sources, order)).Some?
  }

  lemma BuildablePrefix(sources: map<Id, Model.Source>, order: seq<Id>, order': seq<Id>)
    requires order <= order' && Buildable(sources, order')
    ensures Buildable(sources, order)
  {
    var rest := order'[|order|..];
    assert order' == order + rest;
    assert forall x :: x in order || x in rest ==> x in order';
    assert Pick(sources, order') == Pick(sources, order) + Pick(sources, rest);
    AddSourcesSplit(Model.EMPTY, Pick(sources, order), Pick(sources, rest));
  }

  class Bundle {
    const dependencies: Modules
    const sources: map<Id, Model.Source>
    const builder: SMB.SourceMapBuilder
    var visited: set<Id>
    ghost var order: seq<Id>

    ghost predicate Valid()
      reads this, builder, builder.outputBuffer, builder.mappings
    {
      && Closed(dependencies) && dependencies.Keys == sources.Keys
      && visited <= dependencies.Keys && (forall x :: x in order ==> x in sources)
      && builder.Valid()
    }

    /** The builder holds exactly the sources emitted so far, in order. */
    ghost predicate Built()
      requires Valid()
      reads this, builder, builder.outputBuffer, builder.mappings, builder.outputBuffer.buffer, builder.mappings.buffer
    {
      Model.AddSources(Model.EMPTY, Pick(sources, order)) == Some(builder.Abs())
    }

    constructor (dependencies: Modules, sources: map<Id, Model.Source>)
      requires Closed(dependencies) && dependencies.Keys == sources.Keys
      ensures this.dependencies == dependencies && this.sources == sources
      ensures Valid() && Built() && visited == {} && order == []
      ensures fresh(builder) && fresh(builder.outputBuffer) && fresh(builder.mappings)
      ensures fresh(builder.outputBuffer.buffer) && fresh(builder.mappings.buffer)
    {
      this.dependencies := dependencies;
      this.sources := sources;
      this.builder := new SMB.SourceMapBuilder();
      visited, order := {}, [];
    }

    /** The local function visit; false when a source map is malformed. */
    method VisitModule(m: Id) returns (ok: bool)
      requires Valid() && Built() && m in dependencies
      modifies this, builder, builder.outputBuffer, builder.mappings, builder.outputBuffer.buffer,
        builder.mappings.buffer
      ensures Valid() && old(Valid())
      ensures KeptBuffers()
      ensures ok ==> Built() && Walk(visited, order) == Visit(dependencies, Walk(old(visited), old(order)), m)
      ensures ok ==> old(visited) <= visited
      ensures !ok ==> !Buildable(sources, Visit(dependencies, Walk(old(visited), old(order)), m).order)
      decreases dependencies.Keys - visited
    {
      hide Buildable, Pick;
      if m in visited {
        return true;
      }
      visited := visited + {m};
      ghost var w0 := Walk(visited, order);
      var deps := dependencies[m];
      var i := 0;
      assert deps[0..] == deps;
      while i < |deps|
        invariant 0 <= i <= |deps|
        invariant Valid() && Built() && w0.visited <= visited
        invariant KeptBuffers()
        invariant VisitAll(dependencies, Walk(visited, order), deps[i..]) == VisitAll(dependencies, w0, deps)
      {
        assert deps[i..][0] == deps[i] && deps[i..][1..] == deps[i + 1..];
        ghost var w := Visit(dependencies, Walk(visited, order), deps[i]);
        ok := VisitModule(deps[i]);
        if !ok {
          NotBuildable(sources, w.order, VisitAll(dependencies, w0, deps).order, m);
          return;
        }
        i := i + 1;
      }
      assert deps[i..] == [];
      ok := EmitModule(m);
    }

    /** The builder's buffers are its old ones or new ones. */
    twostate predicate KeptBuffers()
      reads builder.outputBuffer, builder.mappings
    {
      && builder.FreshOrSame(old(builder.outputBuffer.buffer), builder.outputBuffer.buffer)
      && builder.FreshOrSame(old(builder.mappings.buffer), builder.mappings.buffer)
    }

    method EmitModule(m: Id) returns (ok: bool)
      requires Valid() && Built() && m in sources
      modifies this`order, builder, builder.outputBuffer, builder.mappings, builder.outputBuffer.buffer,
        builder.mappings.buffer
      ensures Valid() && KeptBuffers()
      ensures ok ==> Built() && order == old(order) + [m]
      ensures !ok ==> !Buildable(sources, old(order) + [m])
    {
      ghost var before := builder.Abs();
      ok := builder.AddSource(sources[m]);
      AddSourcesSplit(Model.EMPTY, Pick(sources, order), [sources[m]]);
      assert Pick(sources, order + [m]) == Pick(sources, order) + [sources[m]];
      AddOne(before, sources[m]);
      if ok {
        order := order + [m];
      }
    }
  }

  /** A failed prefix fails the whole walk. */
  lemma NotBuildable(sources: map<Id, Model.Source>, order: seq<Id>, order': seq<Id>, m: Id)
    requires order <= order' && !Buildable(sources, order)
    ensures !Buildable(sources, order' + [m])
  {
    if Buildable(sources, order' + [m]) {
      BuildablePrefix(sources, order, order' + [m]);
    }
  }

  lemma AddOne(b: Model.Builder, s: Model.Source)
    ensures Model.AddSources(b, [s]) == Model.AddSource(b, s)
  {
  }

  /**
   * The text of a bundle: the modules' text, and a last line with the source map, made before that line
   * was added; `comment` is the text of that line. None when a source map is not accepted.
   */
  ghost function BundleText(
    dependencies: Modules, sources: map<Id, Model.Source>, root: Id, comment: Model.SourceMap -> seq<Byte>)
    : Option<seq<Byte>>
    requires Closed(dependencies) && dependencies.Keys == sources.Keys && root in dependencies
  {
    match Model.AddSources(Model.EMPTY, Pick(sources, Order(dependencies, root)))
    case Some(b) =>
      var m := Model.SourceMap(sources[root].root, b.sources, b.mappings);
      Some(b.output + comment(m) + [Model.NEWLINE])
    case None => None
  }

  /** bundleWithDependencies. */
  method BundleWithDependencies(
    dependencies: Modules, sources: map<Id, Model.Source>, root: Id, comment: Model.SourceMap -> seq<Byte>)
    returns (content: Option<seq<Byte>>)
    requires Closed(dependencies) && dependencies.Keys == sources.Keys && root in dependencies
    ensures content == BundleText(dependencies, sources, root, comment)
  {
    var bundle := new Bundle(dependencies, sources);
    var ok := bundle.VisitModule(root);
    if !ok {
      return None;
    }
    var builder := bundle.builder;
    var sourceMap := builder.ToSourceMap(sources[root].root);
    builder.AddLine(comment(sourceMap));
    var output := builder.ToContent();
    return Some(output);
  }

  /**
   * A bundle of well-formed modules: it is accepted, its text is the modules' text in dependency
   * order, and the source map in its last line says of every line what the module's own map said.
   */
  lemma BundleMeaning(
    dependencies: Modules, sources: map<Id, Model.Source>, root: Id, comment: Model.SourceMap -> seq<Byte>)
    returns (m: Model.SourceMap)
    requires Closed(dependencies) && dependencies.Keys == sources.Keys && root in dependencies
    requires forall x :: x in sources ==> Theorems.WellFormed(sources[x])
    requires Theorems.Names(Pick(sources, Order(dependencies, root))) <= 0x4000_0000
    ensures var ss := Pick(sources, Order(dependencies, root));
      && BundleText(dependencies, sources, root, comment) ==
           Some(Theorems.Contents(ss) + comment(m) + [Model.NEWLINE])
      && m.root == sources[root].root
      && Decode(m.mappings).Some?
      && Model.AllInRange(Decode(m.mappings).value, |m.sources|)
      && Theorems.LocateAll(Decode(m.mappings).value, m.sources, 0) == Theorems.Expected(ss, 0)
  {
    var ss := Pick(sources, Order(dependencies, root));
    Theorems.ConcatenationPreservesMeaning(ss);
    var b := Model.AddSources(Model.EMPTY, ss).value;
    m := Model.SourceMap(sources[root].root, b.sources, b.mappings);
  }
}
