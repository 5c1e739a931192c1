/** CachedBundle: patching a loaded module in place instead of loading everything again. */
module BundleCache {
  import opened Options
  import opened Graphs
  import opened Vlq
  import opened ModuleLoader
  import opened LoadedBundle
  import Model = SourceMapModel

  // ---- edits ----

  function Edited(files: Files, path: Path, content: string): Files {
    (p: Path) => if p == path then content else files(p)
  }

  /** The file's promise has settled with a module. */
  predicate IsModule(t: State, p: Path) {
    IsSettled(t, p) && t.modules[p].result.Some?
  }

  /** updateContent succeeds: the new text parses and asks for the same modules. */
  predicate Patchable(env: Env, t: State, path: Path, content: string) {
    && IsModule(t, path)
    && env.parse(content, path).Some?
    && env.parse(content, path).value.requests == t.modules[path].result.value.requests
  }

  function Patched(t: State, path: Path, source: Model.Source): State
    requires IsModule(t, path)
  {
    t.(modules := t.modules[path := Settled(Some(t.modules[path].result.value.(source := source)))])
  }

  /**
   * The loader after setModuleContent, None when it is discarded. Nothing changes when the file is not a module,
   * nor when its promise never settles: then the call does not return.
   */
  function AfterEdit(env: Env, t: State, path: Path, content: string): Option<State> {
    if !IsModule(t, path) then Some(t)
    else if Patchable(env, t, path, content) then Some(Patched(t, path, env.parse(content, path).value.source))
    else None
  }

  /** The promises are the same, but for the source of the edited file if that is a module. */
  ghost predicate OnlySource(env: Env, t: State, t': State, path: Path, content: string) {
    && t'.log == t.log && t'.modules.Keys == t.modules.Keys
    && (forall p :: p in t.modules && (p != path || !IsModule(t, p)) ==> t'.modules[p] == t.modules[p])
    && (IsModule(t, path) ==>
          && IsModule(t', path) && env.parse(content, path).Some?
          && t'.modules[path].result.value.source == env.parse(content, path).value.source
          && t'.modules[path].result.value.requests == t.modules[path].result.value.requests
          && t'.modules[path].result.value.dependencies == t.modules[path].result.value.dependencies)
  }

  /**
   * A loader that has come to rest while the files are edited: `seen` are the texts that it knows, which are the
   * texts on disk as far as modules are concerned.
   */
  ghost predicate Kept(env: Env, files: Files, seen: Files, entry: Path, t: State) {
    && Inv(env, seen, entry, t) && Quiescent(t)
    && forall p :: IsModule(t, p) ==> files(p) == seen(p)
  }

  lemma PatchedAsks(env: Env, seen: Files, entry: Path, t: State, path: Path, content: string)
    requires Inv(env, seen, entry, t) && Patchable(env, t, path, content)
    ensures forall p :: Asks(env, Edited(seen, path, content), p) == Asks(env, seen, p)
    ensures forall ps :: RequestEdges(env, Edited(seen, path, content), ps) == RequestEdges(env, seen, ps)
  {
    assert PromiseOk(env, seen, t, path);
    var seen' := Edited(seen, path, content);
    assert forall p :: Asks(env, seen', p) == Asks(env, seen, p);
    forall ps: set<Path> ensures RequestEdges(env, seen', ps) == RequestEdges(env, seen, ps) {
      forall e ensures e in RequestEdges(env, seen', ps) <==> e in RequestEdges(env, seen, ps) {
        EdgeIff(env, seen', ps, e);
        EdgeIff(env, seen, ps, e);
      }
    }
  }

  lemma PatchedPromise(env: Env, seen: Files, entry: Path, t: State, path: Path, content: string, p: Path)
    requires Inv(env, seen, entry, t) && Patchable(env, t, path, content) && p in t.modules
    ensures var t' := Patched(t, path, env.parse(content, path).value.source);
      p in t'.modules && PromiseOk(env, Edited(seen, path, content), t', p)
  {
    hide Reach, LogOk, Asks;
    var t' := Patched(t, path, env.parse(content, path).value.source);
    PatchedAsks(env, seen, entry, t, path, content);
    assert PromiseOk(env, seen, t, p) && PromiseOk(env, seen, t, path);
    KeepParsedSame(Results(t), Results(t'), Asks(env, seen, p));
  }

  /** Patching a source in place is as good as having loaded the new text. */
  lemma PatchKeeps(env: Env, seen: Files, entry: Path, t: State, path: Path, content: string)
    requires Inv(env, seen, entry, t) && Patchable(env, t, path, content)
    ensures Inv(env, Edited(seen, path, content), entry, Patched(t, path, env.parse(content, path).value.source))
    ensures Quiescent(t) ==> Quiescent(Patched(t, path, env.parse(content, path).value.source))
  {
    hide Reach, PromiseOk, Asks;
    var seen', t' := Edited(seen, path, content), Patched(t, path, env.parse(content, path).value.source);
    PatchedAsks(env, seen, entry, t, path, content);
    assert t'.modules.Keys == t.modules.Keys;
    forall p | p in t'.modules ensures PromiseOk(env, seen', t', p) {
      PatchedPromise(env, seen, entry, t, path, content, p);
    }
    if Quiescent(t) {
      assert forall d :: IsSettled(t', d) <==> IsSettled(t, d);
      forall e: Event ensures !Enabled(t', e) {
        assert !Enabled(t, e);
      }
    }
  }

  /** So the module map is the one that loading the edited files would give. */
  lemma PatchIsReload(env: Env, seen: Files, entry: Path, t: State, path: Path, content: string)
    requires Inv(env, seen, entry, t) && Patchable(env, t, path, content) && IsSettled(t, entry)
    ensures IsLoaded(env, Edited(seen, path, content), entry,
                     Results(Patched(t, path, env.parse(content, path).value.source)))
  {
    hide Inv, IsLoaded;
    PatchKeeps(env, seen, entry, t, path, content);
    SettledIsLoaded(env, Edited(seen, path, content), entry,
                    Patched(t, path, env.parse(content, path).value.source));
  }

  /** The texts that the loader knows after an edit. */
  function SeenAfter(env: Env, seen: Files, t: State, path: Path, content: string): Files {
    if Patchable(env, t, path, content) then Edited(seen, path, content) else seen
  }

  lemma EditKeeps(env: Env, files: Files, seen: Files, entry: Path, t: State, path: Path, content: string)
    requires Kept(env, files, seen, entry, t) && AfterEdit(env, t, path, content).Some?
    ensures var t' := AfterEdit(env, t, path, content).value;
      && Kept(env, Edited(files, path, content), SeenAfter(env, seen, t, path, content), entry, t')
      && forall p :: (IsSettled(t', p) <==> IsSettled(t, p)) && (IsModule(t', p) <==> IsModule(t, p))
  {
    hide Inv, Quiescent;
    if Patchable(env, t, path, content) {
      PatchKeeps(env, seen, entry, t, path, content);
    }
  }

  // ---- any number of edits ----

  datatype Edit = Edit(path: Path, content: string)

  function EditFiles(files: Files, edits: seq<Edit>): Files
    decreases |edits|
  {
    if edits == [] then files else EditFiles(Edited(files, edits[0].path, edits[0].content), edits[1..])
  }

  /** The loader after the edits, None when one of them discarded it. */
  function EditAll(env: Env, t: State, edits: seq<Edit>): Option<State>
    decreases |edits|
  {
    if edits == [] then Some(t) else
      match AfterEdit(env, t, edits[0].path, edits[0].content)
      case None => None
      case Some(t1) => EditAll(env, t1, edits[1..])
  }

  lemma {:induction false} EditsKeep(
    env: Env, files: Files, seen: Files, entry: Path, t: State, edits: seq<Edit>, t': State) returns (seen': Files)
    requires Kept(env, files, seen, entry, t) && EditAll(env, t, edits) == Some(t')
    ensures Kept(env, EditFiles(files, edits), seen', entry, t')
    ensures forall p :: IsSettled(t', p) <==> IsSettled(t, p)
    decreases |edits|
  {
    hide Kept, AfterEdit;
    if edits == [] {
      seen' := seen;
    } else {
      var Edit(path, content) := edits[0];
      EditKeeps(env, files, seen, entry, t, path, content);
      seen' := EditsKeep(env, Edited(files, path, content), SeenAfter(env, seen, t, path, content), entry,
                         AfterEdit(env, t, path, content).value, edits[1..], t');
    }
  }

  lemma LoadedIsKept(env: Env, files: Files, entry: Path, es: seq<Event>, t: State)
    requires Run(env, files, Init(entry), es, t) && Quiescent(t)
    ensures Kept(env, files, files, entry, t)
  {
    hide Inv, Quiescent;
    ReachedInv(env, files, entry, es, t);
  }

  // ---- when a kept loader is right ----

  /** The file was loaded without a define call, and has one now. */
  predicate Missed(env: Env, files: Files, t: State, p: Path) {
    IsSettled(t, p) && !IsModule(t, p) && env.parse(files(p), p).Some?
  }

  ghost predicate MissesSome(env: Env, files: Files, t: State) {
    exists p :: Missed(env, files, t, p)
  }

  lemma SameParses(env: Env, files: Files, seen: Files, entry: Path, loaded: Loaded)
    requires IsLoaded(env, seen, entry, loaded)
    requires forall p :: p in loaded ==> env.parse(files(p), p) == env.parse(seen(p), p)
    ensures IsLoaded(env, files, entry, loaded)
  {
    hide Reach;
    assert forall p :: p in loaded ==> Asks(env, files, p) == Asks(env, seen, p);
    var g, h := RequestEdges(env, files, loaded.Keys), RequestEdges(env, seen, loaded.Keys);
    forall e ensures e in g <==> e in h {
      EdgeIff(env, files, loaded.Keys, e);
      EdgeIff(env, seen, loaded.Keys, e);
    }
    assert g == h;
    forall p | p in loaded ensures loaded[p] == ModuleOf(env, files, loaded, p) {
      assert loaded[p] == ModuleOf(env, seen, loaded, p);
    }
  }

  /**
   * After any edits a kept module map is the one of the files on disk if and only if no file that it holds
   * without a define call has one now.
   */
  lemma KeptRightExactly(env: Env, files: Files, seen: Files, entry: Path, t: State)
    requires Kept(env, files, seen, entry, t) && IsSettled(t, entry)
    ensures IsLoaded(env, seen, entry, Results(t))
    ensures IsLoaded(env, files, entry, Results(t)) <==> !MissesSome(env, files, t)
  {
    hide Inv, Quiescent, Complete, Acyclic, KeepParsed;
    SettledIsLoaded(env, seen, entry, t);
    var loaded := Results(t);
    if !MissesSome(env, files, t) {
      forall p | p in loaded ensures env.parse(files(p), p) == env.parse(seen(p), p) {
        assert loaded[p] == ModuleOf(env, seen, loaded, p);
        assert !Missed(env, files, t, p);
      }
      SameParses(env, files, seen, entry, loaded);
    }
    if IsLoaded(env, files, entry, loaded) {
      forall p ensures !Missed(env, files, t, p) {
        assert p in loaded ==> loaded[p] == ModuleOf(env, files, loaded, p);
      }
    }
  }

  /** Loading the files on disk finds everything that is kept, and the missed modules. */
  lemma MissedIsFound(env: Env, files: Files, seen: Files, entry: Path, t: State, rebuilt: Loaded)
    requires Kept(env, files, seen, entry, t) && IsLoaded(env, seen, entry, Results(t))
    requires IsLoaded(env, files, entry, rebuilt)
    ensures forall p :: Missed(env, files, t, p) ==>
      p in rebuilt && rebuilt[p].Some? && rebuilt[p].value.source == env.parse(files(p), p).value.source
    ensures forall p :: p in Results(t) && Results(t)[p].Some? ==>
      p in rebuilt && rebuilt[p].Some? && rebuilt[p].value.source == Results(t)[p].value.source
  {
    hide Inv, Quiescent, Reach, Acyclic, KeepParsed;
    var loaded := Results(t);
    var both := loaded.Keys * rebuilt.Keys;
    forall p, d | p in both && d in Asks(env, seen, p) ensures d in both {
      assert loaded[p] == ModuleOf(env, seen, loaded, p);
      assert IsModule(t, p);
    }
    ReachedWithin(env, seen, entry, loaded.Keys, both);
    forall p | p in loaded ensures p in rebuilt && rebuilt[p] == ModuleOf(env, files, rebuilt, p) {
      assert p in both;
    }
    forall p | p in loaded && loaded[p].Some?
      ensures p in rebuilt && rebuilt[p].Some? && rebuilt[p].value.source == loaded[p].value.source
    {
      assert loaded[p] == ModuleOf(env, seen, loaded, p);
      assert IsModule(t, p);
    }
  }

  /**
   * After any edits the next bundle has the modules, in the order, of a rebuild if and only if no file that was
   * loaded without a define call has one now.
   */
  lemma SameModulesExactly(env: Env, files: Files, seen: Files, entry: Path, t: State, rebuilt: Loaded)
    requires Kept(env, files, seen, entry, t) && IsSettled(t, entry)
    requires IsLoaded(env, files, entry, rebuilt)
    ensures Linked(Results(t), entry) && Linked(rebuilt, entry)
    ensures Emitted(Results(t), entry) == Emitted(rebuilt, entry) <==> !MissesSome(env, files, t)
  {
    hide Kept, IsLoaded, Emitted;
    KeptRightExactly(env, files, seen, entry, t);
    EmittedExactly(env, files, entry, rebuilt);
    EmittedExactly(env, seen, entry, Results(t));
    if MissesSome(env, files, t) {
      var p :| Missed(env, files, t, p);
      MissedIsFound(env, files, seen, entry, t, rebuilt);
      assert p in Emitted(rebuilt, entry) && p !in Emitted(Results(t), entry);
    } else {
      LoadedUnique(env, files, entry, Results(t), rebuilt);
    }
  }

  /** Some missed module, if there is one, has some text. */
  ghost predicate Visible(env: Env, files: Files, t: State) {
    MissesSome(env, files, t) ==>
      exists p :: Missed(env, files, t, p) && env.parse(files(p), p).value.source.content != []
  }

  /**
   * And it is the same text if and only if this holds or both are rejected: the module that the stale bundle
   * lacks shows in the text.
   */
  lemma SameBundleExactly(env: Env, files: Files, seen: Files, entry: Path, t: State, rebuilt: Loaded)
    requires Proper(env) && Kept(env, files, seen, entry, t) && IsSettled(t, entry)
    requires IsLoaded(env, files, entry, rebuilt) && Visible(env, files, t)
    ensures Linked(Results(t), entry) && Linked(rebuilt, entry)
    ensures BundleOf(env, Results(t), entry) == BundleOf(env, rebuilt, entry) <==>
      !MissesSome(env, files, t) || (Unusable(Results(t), entry) && Unusable(rebuilt, entry))
  {
    hide Kept, IsLoaded, Emitted, Body, BundleOf, Unusable, Proper, EndsLine;
    var loaded := Results(t);
    KeptRightExactly(env, files, seen, entry, t);
    EmittedExactly(env, files, entry, rebuilt);
    EmittedExactly(env, seen, entry, loaded);
    if MissesSome(env, files, t) {
      var m := BundleShape(env, seen, entry, loaded);
      var m' := BundleShape(env, files, entry, rebuilt);
      if !Unusable(loaded, entry) && !Unusable(rebuilt, entry) {
        var p :| Missed(env, files, t, p) && env.parse(files(p), p).value.source.content != [];
        MissedIsFound(env, files, seen, entry, t, rebuilt);
        MoreIsLonger(loaded, rebuilt, entry, p);
        BodyEndsLine(env, files, entry, rebuilt);
        OneLine(env, m);
        LastLineTells(Body(loaded, entry), env.comment(m), Body(rebuilt, entry), env.comment(m'));
      }
    } else {
      LoadedUnique(env, files, entry, loaded, rebuilt);
    }
  }

  /** The same over a whole history: load, then any edits that do not discard the loader. */
  lemma RightAfterEdits(
    env: Env, files: Files, entry: Path, es: seq<Event>, t: State, edits: seq<Edit>, t': State)
    requires Run(env, files, Init(entry), es, t) && Quiescent(t) && IsSettled(t, entry)
    requires EditAll(env, t, edits) == Some(t')
    ensures IsSettled(t', entry)
    ensures IsLoaded(env, EditFiles(files, edits), entry, Results(t')) <==>
      !MissesSome(env, EditFiles(files, edits), t')
  {
    hide Kept, Run, Quiescent, IsLoaded, MissesSome;
    LoadedIsKept(env, files, entry, es, t);
    var seen := EditsKeep(env, files, files, entry, t, edits, t');
    KeptRightExactly(env, EditFiles(files, edits), seen, entry, t');
  }

  // ---- a loader that never settles ----

  /**
   * If the files lead to a cycle, no edit of a file that leads to one is taken in: the loader stays as it is,
   * whatever the new texts say.
   */
  lemma {:induction false} CycleEditsIgnored(
    env: Env, files: Files, entry: Path, es: seq<Event>, t: State, edits: seq<Edit>)
    requires Run(env, files, Init(entry), es, t) && Quiescent(t)
    requires forall i :: 0 <= i < |edits| ==>
      edits[i].path in t.modules && LeadsToCycle(RequestEdges(env, files, t.modules.Keys), edits[i].path)
    ensures EditAll(env, t, edits) == Some(t)
    decreases |edits|
  {
    hide Run, Quiescent, LeadsToCycle;
    if edits != [] {
      SettlesExactly(env, files, entry, es, t, edits[0].path);
      CycleEditsIgnored(env, files, entry, es, t, edits[1..]);
    }
  }

  /** A loader whose entry has not settled stays so over any edits, until one of them discards it. */
  lemma HungUntilDiscarded(env: Env, files: Files, seen: Files, entry: Path, t: State, edits: seq<Edit>)
    requires Kept(env, files, seen, entry, t) && !IsSettled(t, entry)
    ensures EditAll(env, t, edits).Some? ==> !IsSettled(EditAll(env, t, edits).value, entry)
  {
    hide Kept;
    if EditAll(env, t, edits).Some? {
      var seen' := EditsKeep(env, files, seen, entry, t, edits, EditAll(env, t, edits).value);
    }
  }

  // ---- the object ----

  /** What bundle() yields: a promise that never settles, a rejected one, or a text. */
  datatype Outcome = Pending | Rejected | Content(text: seq<Byte>)

  function Answer(r: Option<seq<Byte>>): Outcome {
    match r
    case None => Rejected
    case Some(text) => Content(text)
  }

  ghost function OutcomeOf(env: Env, t: State, entry: Path): Outcome
    requires IsSettled(t, entry) ==> Linked(Results(t), entry)
  {
    if IsSettled(t, entry) then Answer(BundleOf(env, Results(t), entry)) else Pending
  }

  lemma KeptIsLinked(env: Env, files: Files, seen: Files, entry: Path, t: State)
    requires Kept(env, files, seen, entry, t) && IsSettled(t, entry)
    ensures Linked(Results(t), entry)
  {
    hide Inv, Quiescent, IsLoaded;
    SettledIsLoaded(env, seen, entry, t);
    LoadedIsLinked(env, seen, entry, Results(t));
  }

  /** When the answer of a kept loader is that of a rebuild. */
  ghost predicate AnswersExactly(env: Env, files: Files, entry: Path, t: State, rebuilt: Loaded) {
    && Linked(rebuilt, entry)
    && (IsSettled(t, entry) ==> Linked(Results(t), entry))
    && (IsSettled(t, entry) ==>
          (Emitted(Results(t), entry) == Emitted(rebuilt, entry) <==> !MissesSome(env, files, t)))
    && (Proper(env) && Visible(env, files, t) ==>
          (OutcomeOf(env, t, entry) == Answer(BundleOf(env, rebuilt, entry)) <==>
             && IsSettled(t, entry)
             && (!MissesSome(env, files, t) || (Unusable(Results(t), entry) && Unusable(rebuilt, entry)))))
  }

  lemma KeptAnswers(env: Env, files: Files, seen: Files, entry: Path, t: State, rebuilt: Loaded)
    requires Kept(env, files, seen, entry, t) && IsLoaded(env, files, entry, rebuilt)
    ensures AnswersExactly(env, files, entry, t, rebuilt)
  {
    hide Kept, IsLoaded, Linked, Emitted, BundleOf, Unusable, Proper, Visible, MissesSome;
    LoadedIsLinked(env, files, entry, rebuilt);
    if IsSettled(t, entry) {
      SameModulesExactly(env, files, seen, entry, t, rebuilt);
      EntryKept(t, entry);
      if Proper(env) && Visible(env, files, t) {
        SameBundleExactly(env, files, seen, entry, t, rebuilt);
      }
    }
  }

  lemma EntryKept(t: State, entry: Path)
    requires IsSettled(t, entry)
    ensures entry in Results(t)
  {
  }

  class CachedBundle {
    const env: Env
    const entry: Path
    var loader: Option<State>
    var bundle: Option<Outcome>
    ghost var files: Files   // the texts on disk
    ghost var seen: Files    // the texts that the loader knows

    ghost predicate Valid()
      reads this
    {
      match loader
      case None => bundle.None?
      case Some(t) =>
        && Kept(env, files, seen, entry, t)
        && (IsSettled(t, entry) ==> Linked(Results(t), entry))
        && (bundle.Some? ==> bundle.value == OutcomeOf(env, t, entry))
    }

    constructor (env: Env, entry: Path, ghost files: Files)
      ensures Valid() && this.env == env && this.entry == entry && this.files == files && loader.None?
    {
      this.env, this.entry := env, entry;
      loader, bundle := None, None;
      this.files, seen := files, files;
    }

    /**
     * bundle(): `newLoader` is the state in which a new loader comes to rest, used when there is none. Whatever edits
     * came before, the answer is that of a rebuild exactly when the loader's entry has settled and no file that it
     * holds without a define call has one now, or both bundles are rejected.
     */
    method GetBundle(newLoader: State, ghost es: seq<Event>) returns (b: Outcome)
      requires Valid() && (loader.None? ==> Run(env, files, Init(entry), es, newLoader) && Quiescent(newLoader))
      modifies this
      ensures Valid() && files == old(files)
      ensures loader == Some(if old(loader).None? then newLoader else old(loader).value)
      ensures b == OutcomeOf(env, loader.value, entry)
      ensures forall rebuilt :: IsLoaded(env, files, entry, rebuilt) ==>
        AnswersExactly(env, files, entry, loader.value, rebuilt)
    {
      hide Kept, IsLoaded, Linked, AnswersExactly, Run, Quiescent;
      if loader.None? {
        loader, seen := Some(newLoader), files;
        LoadedIsKept(env, files, entry, es, newLoader);
      }
      var t := loader.value;
      if IsSettled(t, entry) {
        KeptIsLinked(env, files, seen, entry, t);
      }
      if bundle.None? {
        if IsSettled(t, entry) {
          var made := MakeBundle(env, Results(t), entry);
          bundle := Some(Answer(made));
        } else {
          bundle := Some(Pending);
        }
      }
      b := bundle.value;
      forall rebuilt | IsLoaded(env, files, entry, rebuilt) ensures AnswersExactly(env, files, entry, t, rebuilt) {
        KeptAnswers(env, files, seen, entry, t, rebuilt);
      }
    }

    /** setModuleContent, for a file that has just been written; false when the call never returns. */
    method SetModuleContent(path: Path, content: string) returns (returned: bool)
      requires Valid()
      modifies this
      ensures Valid() && files == Edited(old(files), path, content)
      ensures loader == if old(loader).None? then None else AfterEdit(env, old(loader).value, path, content)
      ensures old(loader).Some? ==> (loader.None? <==>
        && IsModule(old(loader).value, path)
        && (env.parse(content, path).None? ||
            env.parse(content, path).value.requests != old(loader).value.modules[path].result.value.requests))
      ensures old(loader).Some? && loader.Some? ==> OnlySource(env, old(loader).value, loader.value, path, content)
      ensures returned <==>
        !(old(loader).Some? && path in old(loader).value.modules && !IsSettled(old(loader).value, path))
      ensures bundle == if returned then None else old(bundle)
    {
      hide Kept, Linked;
      files := Edited(files, path, content);
      if loader.None? {
        return true;
      }
      var t := loader.value;
      if AfterEdit(env, t, path, content).Some? {
        EditKeeps(env, old(files), seen, entry, t, path, content);
        seen := SeenAfter(env, seen, t, path, content);
      }
      if path in t.modules && !t.modules[path].Settled? {
        return false;
      }
      if path in t.modules && t.modules[path].result.Some? {
        var record := t.modules[path].result.value;
        var parsed := env.parse(content, path);
        if parsed.None? || parsed.value.requests != record.requests {
          loader := None;
        } else {
          record := record.(requests := parsed.value.requests, source := parsed.value.source);
          loader := Some(t.(modules := t.modules[path := Settled(Some(record))]));
          if IsSettled(loader.value, entry) {
            KeptIsLinked(env, files, seen, entry, loader.value);
          }
        }
      }
      bundle := None;
      return true;
    }
  }

  // ---- an edit after which the bundle is stale ----

  const LINE := Model.Source([59, 10], 1, None, [], [])

  /** Texts other than "" are modules; "a" asks for "b"; everything resolves to the file of its name. */
  function SmallEnv(): Env {
    Env((content: string, p: Path) =>
          if content == "" then None else Some(Parsed(if p == "a" then ["b"] else [], LINE)),
        (request: string, p: Path) => Some(request),
        (m: Model.SourceMap) => [])
  }

  /** "a" is a module and "b" has no define call. */
  function SmallFiles(): Files {
    (p: Path) => if p == "a" then "define" else ""
  }

  function StaleState(): State {
    State(map["a" := Settled(Some(ModuleRec(["b"], [], LINE))), "b" := Settled(None)], ["b", "a"])
  }

  function FreshMap(): Loaded {
    map["a" := Some(ModuleRec(["b"], ["b"], LINE)), "b" := Some(ModuleRec([], [], LINE))]
  }

  lemma SmallAsks(files: Files)
    requires files("a") != ""
    ensures ResolveAll(SmallEnv(), "a", ["b"]) == ["b"]
    ensures Asks(SmallEnv(), files, "a") == ["b"] && Asks(SmallEnv(), files, "b") == []
  {
    var env := SmallEnv();
    assert env.parse(files("a"), "a").value.requests == ["b"];
    assert ["b"][1..] == [];
    assert ResolveAll(env, "b", []) == [];
  }

  /** The run that loads "a" and "b". */
  lemma SmallRun() returns (es: seq<Event>)
    ensures Run(SmallEnv(), SmallFiles(), Init("a"), es, StaleState()) && Quiescent(StaleState())
  {
    var env, files := SmallEnv(), SmallFiles();
    SmallAsks(files);
    var waiting := Waiting(Parsed(["b"], LINE), ["b"]);
    var s1 := State(map["a" := waiting, "b" := Reading], []);
    var s2 := State(map["a" := waiting, "b" := Settled(None)], ["b"]);
    KeepParsedSingle(Results(s2), "b");
    assert Next(env, files, Init("a"), FileRead("a")) == s1;
    assert Next(env, files, s1, FileRead("b")) == s2;
    assert Next(env, files, s2, AllSettled("a")) == StaleState();
    es := [FileRead("a"), FileRead("b"), AllSettled("a")];
    assert es[1..][1..] == [AllSettled("a")] && es[1..][1..][1..] == [];
    assert Run(env, files, s2, es[1..][1..], StaleState());
    assert Run(env, files, s1, es[1..], StaleState());
  }

  lemma FreshLoaded()
    ensures IsLoaded(SmallEnv(), Edited(SmallFiles(), "b", "define"), "a", FreshMap())
  {
    hide Reach, Acyclic;
    var env, files, ps: set<Path> := SmallEnv(), Edited(SmallFiles(), "b", "define"), {"a", "b"};
    SmallAsks(files);
    EdgeIff(env, files, ps, ("a", "b"));
    EdgeReach(RequestEdges(env, files, ps), "a", "b");
    OrderedIsAcyclic(env, files, ["b", "a"], ps);
    assert FreshMap().Keys == ps;
    KeepParsedSingle(FreshMap(), "b");
  }

  lemma SmallUsable()
    ensures "a" in Results(StaleState()) && !Unusable(Results(StaleState()), "a") && !Unusable(FreshMap(), "a")
  {
  }

  /**
   * A bundle that stays wrong: "a" asks for "b", which has no define call when the bundle is made; after
   * "b" is edited into a module the next bundle still lacks it.
   */
  lemma StaleBundle()
    ensures exists env, files, entry, es, t, path, content, rebuilt ::
      && Proper(env) && Run(env, files, Init(entry), es, t) && Quiescent(t) && IsSettled(t, entry)
      && AfterEdit(env, t, path, content) == Some(t)
      && IsLoaded(env, Edited(files, path, content), entry, rebuilt)
      && Linked(Results(t), entry) && Linked(rebuilt, entry)
      && BundleOf(env, Results(t), entry).Some? && BundleOf(env, rebuilt, entry).Some?
      && BundleOf(env, Results(t), entry) != BundleOf(env, rebuilt, entry)
  {
    hide IsLoaded, Kept, Run, Quiescent, BundleOf, Linked, Unusable, Results;
    var env, files, t, rebuilt := SmallEnv(), SmallFiles(), StaleState(), FreshMap();
    SmallUsable();
    var files' := Edited(files, "b", "define");
    var es := SmallRun();
    FreshLoaded();
    LoadedIsKept(env, files, "a", es, t);
    EditKeeps(env, files, files, "a", t, "b", "define");
    assert Missed(env, files', t, "b");
    SameBundleExactly(env, files', files, "a", t, rebuilt);
    KeptRightExactly(env, files, files, "a", t);
    var m := BundleShape(env, files, "a", Results(t));
    var m' := BundleShape(env, files', "a", rebuilt);
    assert AfterEdit(env, t, "b", "define") == Some(t);
  }

  // ---- an edit that a hung loader ignores ----

  /** The text "self" asks for "a", any other text for nothing. */
  function SelfEnv(): Env {
    SmallEnv().(parse := (content: string, p: Path) => Some(Parsed(if content == "self" then ["a"] else [], LINE)))
  }

  /**
   * A bundle that never comes: "a" asks for itself, so its promise waits for itself; after "a" is edited not to
   * do so, loading it would succeed, but the edit is not taken in and the next bundle never comes either.
   */
  lemma NeverRecovers()
    ensures exists env, files, entry, es, t, content, rebuilt ::
      && Run(env, files, Init(entry), es, t) && Quiescent(t) && !IsSettled(t, entry)
      && AfterEdit(env, t, entry, content) == Some(t)
      && IsLoaded(env, Edited(files, entry, content), entry, rebuilt)
  {
    var env, files: Files := SelfEnv(), (p: Path) => "self";
    var rebuilt: Loaded := map["a" := Some(ModuleRec([], [], LINE))];
    var t := State(map["a" := Waiting(Parsed(["a"], LINE), ["a"])], []);
    assert ["a"][1..] == [] && ResolveAll(env, "a", ["a"]) == ["a"];
    assert Next(env, files, Init("a"), FileRead("a")) == t;
    var es := [FileRead("a")];
    assert es[1..] == [];
    assert Run(env, files, Init("a"), es, t);
    SelfLoaded(rebuilt);
    assert AfterEdit(env, t, "a", "other") == Some(t);
  }

  lemma SelfLoaded(rebuilt: Loaded)
    requires rebuilt == map["a" := Some(ModuleRec([], [], LINE))]
    ensures IsLoaded(SelfEnv(), Edited((p: Path) => "self", "a", "other"), "a", rebuilt)
  {
    hide Reach, Acyclic;
    var env, files := SelfEnv(), Edited((p: Path) => "self", "a", "other");
    assert ResolveAll(env, "a", []) == [];
    OrderedIsAcyclic(env, files, ["a"], {"a"});
    assert rebuilt.Keys == {"a"};
  }
}
