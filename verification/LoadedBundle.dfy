/** The bundle of a loaded module map: what is in it, when it is rejected, and what its text tells. */
module LoadedBundle {
  import opened Options
  import opened Sequences
  import opened Graphs
  import opened Vlq
  import opened Mappings
  import opened ModuleLoader
  import opened Bundler
  import opened Acceptance
  import Model = SourceMapModel
  import Theorems = SourceMapTheorems

  function Dependencies(loaded: Loaded): map<Path, seq<Path>> {
    map p | p in loaded && loaded[p].Some? :: loaded[p].value.dependencies
  }

  function Sources(loaded: Loaded): map<Path, Model.Source> {
    map p | p in loaded && loaded[p].Some? :: loaded[p].value.source
  }

  /** The entry has a place in the map, and recorded dependencies are modules of the map. */
  ghost predicate Linked(loaded: Loaded, entry: Path) {
    && entry in loaded
    && forall p, d :: p in loaded && loaded[p].Some? && d in loaded[p].value.dependencies ==>
         d in loaded && loaded[d].Some?
  }

  lemma LinkedIsClosed(loaded: Loaded, entry: Path)
    requires Linked(loaded, entry)
    ensures Closed(Dependencies(loaded)) && Dependencies(loaded).Keys == Sources(loaded).Keys
  {
  }

  lemma LoadedIsLinked(env: Env, files: Files, entry: Path, loaded: Loaded)
    requires IsLoaded(env, files, entry, loaded)
    ensures Linked(loaded, entry)
  {
  }

  /** The modules of the bundle, in order; none when the entry is not a module. */
  ghost function Emitted(loaded: Loaded, entry: Path): seq<Path>
    requires Linked(loaded, entry)
  {
    LinkedIsClosed(loaded, entry);
    if loaded[entry].None? then [] else Order(Dependencies(loaded), entry)
  }

  /** What bundle() yields: the text, or None for a rejected promise. */
  ghost function BundleOf(env: Env, loaded: Loaded, entry: Path): Option<seq<Byte>>
    requires Linked(loaded, entry)
  {
    LinkedIsClosed(loaded, entry);
    if loaded[entry].None? then None
    else BundleText(Dependencies(loaded), Sources(loaded), entry, env.comment)
  }

  /** bundleWithDependencies on a loaded module map. */
  method MakeBundle(env: Env, loaded: Loaded, entry: Path) returns (r: Option<seq<Byte>>)
    requires Linked(loaded, entry)
    ensures r == BundleOf(env, loaded, entry)
  {
    LinkedIsClosed(loaded, entry);
    if loaded[entry].None? {
      return None;
    }
    r := BundleWithDependencies(Dependencies(loaded), Sources(loaded), entry, env.comment);
  }

  /** A walk over requests that ends at a module passes modules only, so it is a walk over dependencies. */
  lemma {:induction false} RequestsAreDependencies(
    env: Env, files: Files, entry: Path, loaded: Loaded, a: Path, w: seq<Path>, b: Path)
    requires IsLoaded(env, files, entry, loaded) && a in loaded && b in loaded && loaded[b].Some?
    requires IsWalk(RequestEdges(env, files, loaded.Keys), a, w, b)
    ensures IsWalk(Edges(Dependencies(loaded)), a, w, b) && loaded[a].Some?
    decreases w
  {
    hide Reach, Acyclic;
    if w != [] {
      EdgeIff(env, files, loaded.Keys, (a, w[0]));
      RequestsAreDependencies(env, files, entry, loaded, w[0], w[1..], b);
      assert loaded[a] == ModuleOf(env, files, loaded, a);
      assert w[0] in Dependencies(loaded)[a];
      EdgeOf(Dependencies(loaded), a, w[0]);
    }
  }

  /** Every module of the map is in the bundle. */
  lemma EmittedExactly(env: Env, files: Files, entry: Path, loaded: Loaded)
    requires IsLoaded(env, files, entry, loaded)
    ensures Linked(loaded, entry) && NoDuplicates(Emitted(loaded, entry))
    ensures forall p: Path :: p in Emitted(loaded, entry) <==> p in loaded && loaded[p].Some?
  {
    hide Acyclic, Order;
    LoadedIsLinked(env, files, entry, loaded);
    LinkedIsClosed(loaded, entry);
    var g, h := RequestEdges(env, files, loaded.Keys), Edges(Dependencies(loaded));
    forall p | p in loaded && loaded[p].Some? ensures loaded[entry].Some? && ReachStar(h, entry, p) {
      assert ReachStar(g, entry, p);
      if p != entry {
        var w :| w != [] && IsWalk(g, entry, w, p);
        RequestsAreDependencies(env, files, entry, loaded, entry, w, p);
      }
    }
    if loaded[entry].Some? {
      BundleOrder(Dependencies(loaded), entry);
    }
  }

  /** What the loader yields has no cycles, so every dependency comes before its module. */
  lemma DependenciesFirst(env: Env, files: Files, entry: Path, loaded: Loaded, i: nat, d: Path)
    requires IsLoaded(env, files, entry, loaded)
    ensures Linked(loaded, entry)
    ensures i < |Emitted(loaded, entry)| && d in Dependencies(loaded)[Emitted(loaded, entry)[i]] ==>
      d in Emitted(loaded, entry)[..i]
  {
    hide Order, Complete, Reach;
    LoadedIsLinked(env, files, entry, loaded);
    LinkedIsClosed(loaded, entry);
    var g := Dependencies(loaded);
    WithinRequests(env, files, entry, loaded);
    if loaded[entry].Some? && i < |Order(g, entry)| && d in g[Order(g, entry)[i]] {
      var x := Order(g, entry)[i];
      BundleOrder(g, entry);
      EdgeOf(g, x, d);
      if Reach(Edges(g), d, x) {
        ReachTrans(Edges(g), x, d, x);
        assert false;
      }
    }
  }

  /** The entry's dependencies are bundled in order, unless a later one is needed by an earlier one. */
  lemma EntryInOrder(env: Env, files: Files, entry: Path, loaded: Loaded, i: nat, j: nat)
    requires IsLoaded(env, files, entry, loaded) && loaded[entry].Some? && i < j < |loaded[entry].value.dependencies|
    requires forall k :: 0 <= k <= i ==> !ReachStar(RequestEdges(env, files, loaded.Keys),
      loaded[entry].value.dependencies[k], loaded[entry].value.dependencies[j])
    ensures Linked(loaded, entry)
    ensures exists a, b ::
      && 0 <= a < b < |Emitted(loaded, entry)|
      && Emitted(loaded, entry)[a] == loaded[entry].value.dependencies[i]
      && Emitted(loaded, entry)[b] == loaded[entry].value.dependencies[j]
  {
    hide IsLoaded, Reach, Order;
    LoadedIsLinked(env, files, entry, loaded);
    LinkedIsClosed(loaded, entry);
    var g, h, deps := Dependencies(loaded), RequestEdges(env, files, loaded.Keys), loaded[entry].value.dependencies;
    WithinRequests(env, files, entry, loaded);
    forall k | 0 <= k <= i ensures !ReachStar(Edges(g), deps[k], deps[j]) {
      if Reach(Edges(g), deps[k], deps[j]) {
        ReachMono(Edges(g), h, deps[k], deps[j]);
      }
    }
    EdgeOf(g, entry, deps[i]);
    SiblingsInOrder(g, entry, i, j);
    var order := Order(g, entry);
    var a, b :| 0 <= a < b < |order| && order[a] == deps[i] && order[b] == deps[j];
    assert Emitted(loaded, entry) == order;
    assert Emitted(loaded, entry)[a] == deps[i] && Emitted(loaded, entry)[b] == deps[j];
  }

  lemma WithinRequests(env: Env, files: Files, entry: Path, loaded: Loaded)
    requires IsLoaded(env, files, entry, loaded)
    ensures Edges(Dependencies(loaded)) <= RequestEdges(env, files, loaded.Keys)
    ensures forall x: Path :: !Reach(Edges(Dependencies(loaded)), x, x)
  {
    hide Complete, Reach;
    var g, h := Dependencies(loaded), RequestEdges(env, files, loaded.Keys);
    forall e | e in Edges(g) ensures e in h {
      assert loaded[e.0] == ModuleOf(env, files, loaded, e.0);
      EdgeIff(env, files, loaded.Keys, e);
    }
    AcyclicMono(Edges(g), h);
  }

  /** The entry is not a module, or the map of some module is not accepted. */
  ghost predicate Unusable(loaded: Loaded, entry: Path)
    requires entry in loaded
  {
    loaded[entry].None? || exists p :: p in loaded && loaded[p].Some? && !Acceptable(loaded[p].value.source)
  }

  /** The modules' text without the last line. */
  ghost function Body(loaded: Loaded, entry: Path): seq<Byte>
    requires Linked(loaded, entry)
  {
    assert forall p :: p in Emitted(loaded, entry) ==> p in Sources(loaded);
    Theorems.Contents(Pick(Sources(loaded), Emitted(loaded, entry)))
  }

  /** The bundle is rejected exactly when the map is unusable; otherwise it is the modules' text and one line. */
  lemma BundleShape(env: Env, files: Files, entry: Path, loaded: Loaded) returns (m: Model.SourceMap)
    requires IsLoaded(env, files, entry, loaded)
    ensures Linked(loaded, entry)
    ensures Unusable(loaded, entry) ==> BundleOf(env, loaded, entry) == None
    ensures !Unusable(loaded, entry) ==>
      BundleOf(env, loaded, entry) == Some(Body(loaded, entry) + env.comment(m) + [Model.NEWLINE])
  {
    hide IsLoaded, Acceptable, Order;
    EmittedExactly(env, files, entry, loaded);
    m := Model.SourceMap(None, [], []);
    if loaded[entry].Some? {
      LinkedIsClosed(loaded, entry);
      var order, sources := Emitted(loaded, entry), Sources(loaded);
      var ss := Pick(sources, order);
      AcceptedAll(Model.EMPTY, ss);
      AcceptablePick(loaded, order);
      if !Unusable(loaded, entry) {
        var b := Model.AddSources(Model.EMPTY, ss).value;
        assert [] + Theorems.Contents(ss) == Theorems.Contents(ss);
        m := Model.SourceMap(sources[entry].root, b.sources, b.mappings);
      }
    }
  }

  lemma AcceptablePick(loaded: Loaded, order: seq<Path>)
    requires forall p: Path :: p in order <==> p in loaded && loaded[p].Some?
    ensures (forall i :: 0 <= i < |order| ==> Acceptable(Pick(Sources(loaded), order)[i])) <==>
      !exists p :: p in loaded && loaded[p].Some? && !Acceptable(loaded[p].value.source)
  {
    hide Acceptable;
    var ss := Pick(Sources(loaded), order);
    assert forall i :: 0 <= i < |order| ==> order[i] in order && ss[i] == loaded[order[i]].value.source;
    if forall i :: 0 <= i < |order| ==> Acceptable(ss[i]) {
      forall p | p in loaded && loaded[p].Some? ensures Acceptable(loaded[p].value.source) {
        assert p in order;
        var i :| 0 <= i < |order| && order[i] == p;
        assert Acceptable(ss[i]);
      }
    }
  }

  /** The sources of the bundle, in order. */
  ghost function EmittedSources(loaded: Loaded, order: seq<Path>): (ss: seq<Model.Source>)
    requires forall p :: p in order ==> p in loaded && loaded[p].Some?
    ensures |ss| == |order|
  {
    seq(|order|, i requires 0 <= i < |order| => loaded[order[i]].value.source)
  }

  /** The map says of every line of the sources, put one below the other, what the sources' own maps say. */
  ghost predicate Means(m: Model.SourceMap, ss: seq<Model.Source>) {
    && (forall i :: 0 <= i < |ss| ==> Theorems.WellFormed(ss[i]))
    && Decode(m.mappings).Some?
    && Model.AllInRange(Decode(m.mappings).value, |m.sources|)
    && Theorems.LocateAll(Decode(m.mappings).value, m.sources, 0) == Theorems.Expected(ss, 0)
  }

  /**
   * What the bundle of a loaded map says, when the modules' own maps are well-formed: it is their text in order,
   * and the map in its last line says of every line what the module's own map says.
   */
  lemma LoadedMeaning(env: Env, files: Files, entry: Path, loaded: Loaded) returns (m: Model.SourceMap)
    requires IsLoaded(env, files, entry, loaded) && loaded[entry].Some?
    requires forall p :: p in loaded && loaded[p].Some? ==> Theorems.WellFormed(loaded[p].value.source)
    ensures Linked(loaded, entry)
    ensures forall p :: p in Emitted(loaded, entry) <==> p in loaded && loaded[p].Some?
    ensures var ss := EmittedSources(loaded, Emitted(loaded, entry));
      Theorems.Names(ss) <= 0x4000_0000 ==>
        && BundleOf(env, loaded, entry) == Some(Theorems.Contents(ss) + env.comment(m) + [Model.NEWLINE])
        && m.root == loaded[entry].value.source.root
        && Means(m, ss)
  {
    hide IsLoaded, Order, Decode, Theorems.WellFormed, Theorems.Contents, Theorems.Expected, Theorems.Names;
    EmittedExactly(env, files, entry, loaded);
    LinkedIsClosed(loaded, entry);
    var order, sources := Emitted(loaded, entry), Sources(loaded);
    assert Pick(sources, order) == EmittedSources(loaded, order);
    m := Model.SourceMap(None, [], []);
    if Theorems.Names(Pick(sources, order)) <= 0x4000_0000 {
      m := BundleMeaning(Dependencies(loaded), sources, entry, env.comment);
    }
  }

  // ---- the text of more modules is longer ----

  function Length(sources: map<Path, Model.Source>, order: seq<Path>): nat
    requires forall p :: p in order ==> p in sources
  {
    if order == [] then 0 else |sources[order[0]].content| + Length(sources, order[1..])
  }

  lemma {:induction false} LengthOfText(sources: map<Path, Model.Source>, order: seq<Path>)
    requires forall p :: p in order ==> p in sources
    ensures |Theorems.Contents(Pick(sources, order))| == Length(sources, order)
  {
    if order != [] {
      LengthOfText(sources, order[1..]);
      assert Pick(sources, order)[1..] == Pick(sources, order[1..]);
    }
  }

  lemma {:induction false} LengthWithout(sources: map<Path, Model.Source>, a: seq<Path>, p: Path, b: seq<Path>)
    requires forall q :: q in a + [p] + b ==> q in sources
    ensures p in a + [p] + b && forall q :: q in a + b ==> q in a + [p] + b
    ensures Length(sources, a + [p] + b) == |sources[p].content| + Length(sources, a + b)
    decreases |a|
  {
    assert (a + [p] + b)[|a|] == p;
    if a == [] {
      assert a + [p] + b == [p] + b && a + b == b;
    } else {
      assert (a + [p] + b)[1..] == a[1..] + [p] + b && (a + b)[1..] == a[1..] + b;
      LengthWithout(sources, a[1..], p, b);
    }
  }

  /** A list of different modules, all of which another list has, is not longer in text. */
  lemma {:induction false} LengthGrows(
    sources: map<Path, Model.Source>, order: seq<Path>, sources': map<Path, Model.Source>, order': seq<Path>)
    requires forall p :: p in order' ==> p in sources'
    requires forall p :: p in order ==> p in sources && p in order' && sources'[p].content == sources[p].content
    requires NoDuplicates(order)
    ensures Length(sources, order) <= Length(sources', order')
    decreases |order|
  {
    if order != [] {
      var p := order[0];
      assert p in order && p in order';
      var k :| 0 <= k < |order'| && order'[k] == p;
      var a, b := order'[..k], order'[k + 1..];
      assert order' == a + [p] + b;
      LengthWithout(sources', a, p, b);
      forall q | q in order[1..] ensures q in a + b && q in sources && sources'[q].content == sources[q].content {
        var i :| 0 <= i < |order| - 1 && order[1..][i] == q;
        assert order[i + 1] == q && q in order && q != p;
      }
      LengthGrows(sources, order[1..], sources', a + b);
    }
  }

  lemma {:induction false} LengthSame(
    sources: map<Path, Model.Source>, sources': map<Path, Model.Source>, order: seq<Path>)
    requires forall p :: p in order ==> p in sources && p in sources' && sources'[p] == sources[p]
    ensures Length(sources, order) == Length(sources', order)
  {
    if order != [] {
      LengthSame(sources, sources', order[1..]);
    }
  }

  /** A map with all the modules of another and one more has the longer text. */
  lemma MoreIsLonger(a: Loaded, b: Loaded, entry: Path, path: Path)
    requires Linked(a, entry) && Linked(b, entry) && NoDuplicates(Emitted(a, entry))
    requires forall p: Path :: p in Emitted(a, entry) <==> p in a && a[p].Some?
    requires forall p: Path :: p in Emitted(b, entry) <==> p in b && b[p].Some?
    requires forall p :: p in a && a[p].Some? ==> p in b && b[p].Some? && b[p].value.source == a[p].value.source
    requires path in b && b[path].Some? && !(path in a && a[path].Some?)
    ensures |Body(a, entry)| + |b[path].value.source.content| <= |Body(b, entry)|
  {
    hide Emitted;
    var order, order' := Emitted(a, entry), Emitted(b, entry);
    var sources, sources' := Sources(a), Sources(b);
    var all := sources[path := sources'[path]];
    LengthOfText(sources, order);
    LengthOfText(sources', order');
    LengthGrows(all, [path] + order, sources', order');
    assert ([path] + order)[1..] == order;
    LengthSame(sources, all, order);
  }

  // ---- the last line ----

  predicate EndsLine(text: seq<Byte>) {
    text == [] || text[|text| - 1] == Model.NEWLINE
  }

  /** Sources come from the constructor of Source, and the source-map comment is one line. */
  ghost predicate Proper(env: Env) {
    && (forall content, p :: env.parse(content, p).Some? ==> EndsLine(env.parse(content, p).value.source.content))
    && (forall m :: Model.NEWLINE !in env.comment(m))
  }

  lemma {:induction false} ContentsEndLine(ss: seq<Model.Source>)
    requires forall i :: 0 <= i < |ss| ==> EndsLine(ss[i].content)
    ensures EndsLine(Theorems.Contents(ss))
  {
    if ss != [] {
      ContentsEndLine(ss[1..]);
    }
  }

  lemma BodyEndsLine(env: Env, files: Files, entry: Path, loaded: Loaded)
    requires IsLoaded(env, files, entry, loaded) && Proper(env)
    ensures Linked(loaded, entry) && EndsLine(Body(loaded, entry))
  {
    hide Emitted, EndsLine, Complete, Acyclic;
    EmittedExactly(env, files, entry, loaded);
    var order := Emitted(loaded, entry);
    var ss := Pick(Sources(loaded), order);
    forall i | 0 <= i < |ss| ensures EndsLine(ss[i].content) {
      var p := order[i];
      assert p in order;
      assert loaded[p] == ModuleOf(env, files, loaded, p);
    }
    ContentsEndLine(ss);
  }

  /** Texts of different length that end a line stay different when one line is added to each. */
  lemma LastLineTells(a: seq<Byte>, c: seq<Byte>, b: seq<Byte>, d: seq<Byte>)
    requires |a| < |b| && EndsLine(b) && Model.NEWLINE !in c
    ensures a + c + [Model.NEWLINE] != b + d + [Model.NEWLINE]
  {
    var x, y, k := a + c + [Model.NEWLINE], b + d + [Model.NEWLINE], |b| - 1;
    assert y[k] == Model.NEWLINE;
    if |x| == |y| {
      assert x[k] == c[k - |a|];
      assert x[k] in c;
    }
  }

  lemma OneLine(env: Env, m: Model.SourceMap)
    requires Proper(env)
    ensures Model.NEWLINE !in env.comment(m)
  {
  }
}
