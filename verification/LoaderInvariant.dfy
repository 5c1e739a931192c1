/** What every step of the module manager keeps. */
module LoaderInvariant {
  import opened Sequences
  import opened Graphs
  import opened LoaderModel

  // ---- occurrences over all inverse-dependency lists, with multiplicity ----

  ghost function PickKey(w: map<Id, seq<Id>>): Id
    requires w != map[]
    ensures PickKey(w) in w
  {
    assert w.Keys != {};
    var d :| d in w; d
  }

  ghost function Total(w: map<Id, seq<Id>>): multiset<Id>
    decreases w.Keys
  {
    if w == map[] then multiset{} else
      var d := PickKey(w);
      multiset(w[d]) + Total(w - {d})
  }

  lemma {:induction false} TotalAt(w: map<Id, seq<Id>>, d: Id)
    requires d in w
    ensures Total(w) == multiset(w[d]) + Total(w - {d})
    decreases w.Keys
  {
    var k := PickKey(w);
    if k != d {
      TotalAt(w - {k}, d);
      TotalAt(w - {d}, k);
      assert w - {k} - {d} == w - {d} - {k};
    }
  }

  lemma TotalWithout(w: map<Id, seq<Id>>, d: Id)
    ensures Total(w) == multiset(WaitersOf(w, d)) + Total(w - {d})
  {
    if d in w {
      TotalAt(w, d);
    } else {
      assert w - {d} == w;
    }
  }

  lemma TotalPush(w: map<Id, seq<Id>>, d: Id, m: Id)
    ensures Total(w[d := WaitersOf(w, d) + [m]]) == Total(w) + multiset{m}
  {
    hide Total;
    var w' := w[d := WaitersOf(w, d) + [m]];
    TotalWithout(w, d);
    TotalWithout(w', d);
    assert w' - {d} == w - {d};
  }

  lemma {:induction false} TotalMember(w: map<Id, seq<Id>>, x: Id)
    ensures x in Total(w) <==> exists d :: d in w && x in w[d]
    decreases w.Keys
  {
    if w != map[] {
      var k := PickKey(w);
      TotalMember(w - {k}, x);
      if d :| d in w && x in w[d] {
        assert d == k || d in w - {k};
      }
    }
  }

  /** Dependencies of m that active _resolve calls have still to examine. */
  ghost function Remaining(frames: seq<Frame>, m: Id): nat {
    if frames == [] then 0
    else (if frames[0].id == m then |frames[0].rest| else 0) + Remaining(frames[1..], m)
  }

  ghost predicate HasFrame(frames: seq<Frame>, m: Id) {
    exists i :: 0 <= i < |frames| && frames[i].id == m
  }

  lemma {:induction false} NoFrameNoRemaining(frames: seq<Frame>, m: Id)
    ensures !HasFrame(frames, m) ==> Remaining(frames, m) == 0
    ensures Remaining(frames, m) > 0 ==> HasFrame(frames, m)
    ensures forall i :: 0 <= i < |frames| && frames[i].id == m ==> |frames[i].rest| <= Remaining(frames, m)
  {
    if frames != [] {
      NoFrameNoRemaining(frames[1..], m);
      if HasFrame(frames[1..], m) {
        var i :| 0 <= i < |frames[1..]| && frames[1..][i].id == m;
        assert frames[i + 1].id == m;
      }
      forall i | 0 <= i < |frames| && frames[i].id == m
        ensures |frames[i].rest| <= Remaining(frames, m)
      {
        if i > 0 {
          assert frames[i] == frames[1..][i - 1];
        }
      }
    }
  }

  // ---- the invariant ----
  //
  // `pending` holds the releases that a running cascade still has to make, `hot` the
  // module it is about to complete; both are empty between steps.

  ghost predicate DefinedInv(s: State, pending: multiset<Id>) {
    && WaitersDefined(s)
    && (forall x :: x in pending ==> x in s.modules)
    && (forall i :: 0 <= i < |s.frames| ==> s.frames[i].id in s.modules)
  }

  /** Releases that m is still to receive. */
  ghost function Owed(s: State, pending: multiset<Id>, m: Id): nat {
    Total(s.waiters)[m] + pending[m] + Remaining(s.frames, m)
  }

  /** Counter exactness. */
  ghost predicate CountInv(s: State, pending: multiset<Id>) {
    && (forall m :: m in s.modules && !s.modules[m].complete ==> s.modules[m].unresolved == Owed(s, pending, m))
    && (forall m :: m in s.completed ==> IsComplete(s, m) && Owed(s, pending, m) == 0)
  }

  /** No module sits at zero without being completed. */
  ghost predicate AliveInv(s: State, hot: set<Id>) {
    forall m :: m in s.modules && !s.modules[m].complete && m !in hot && !HasFrame(s.frames, m) ==>
      s.modules[m].unresolved != 0
  }

  /** The logs: one completion and one script request per id, nobody waits for a completed module. */
  ghost predicate LogInv(s: State) {
    && NoDuplicates(s.completed)
    && NoDuplicates(s.requests)
    && (forall x :: x in s.requests <==> x in s.known)
    && (forall d :: d in s.waiters && s.waiters[d] != [] ==> d !in s.completed && (d in s.modules || d in s.known))
  }

  /** Completion, failure and the dependency list of a module fit together. */
  ghost predicate RecordInv(s: State) {
    && (forall m :: m in s.modules && s.modules[m].failed ==> s.modules[m].complete)
    && (forall m :: m in s.modules && s.modules[m].complete && !s.modules[m].failed ==> m in s.completed)
    && (forall m :: m in s.modules ==> (s.modules[m].deps.None? <==> m in s.completed))
    && (forall m :: m in s.modules && s.modules[m].deps.Some? ==>
          s.modules[m].deps.value == if m in s.declared then s.declared[m] else [])
  }

  ghost predicate DeclaredInv(s: State) {
    && (forall m :: m in s.declared ==> m in s.modules)
    && (forall m :: m in s.modules && !s.modules[m].complete ==> m in s.declared)
    && (forall m :: m in s.completed ==> m in s.declared)
    && (forall i :: 0 <= i < |s.frames| ==>
          s.frames[i].id in s.declared && forall d :: d in s.frames[i].rest ==> d in s.declared[s.frames[i].id])
  }

  /** Waiting follows declared dependencies and never closes a cycle. */
  ghost predicate GraphInv(s: State) {
    && WaitEdges(s.waiters) <= DepEdges(s.modules)
    && Acyclic(WaitEdges(s.waiters))
  }

  ghost predicate InFrame(s: State, m: Id, d: Id) {
    exists i :: 0 <= i < |s.frames| && s.frames[i].id == m && Regular(d) in s.frames[i].rest
  }

  /** Why an incomplete module m may still, or need no longer, care about its dependency d. */
  ghost predicate Accounted(s: State, m: Id, d: Id) {
    || d in s.completed
    || (m, d) in s.cuts
    || (m, d) in WaitEdges(s.waiters)
    || InFrame(s, m, d)
  }

  ghost predicate AccountInv(s: State) {
    forall m: Id, d: Id :: m in s.modules && !s.modules[m].complete && m in s.declared && Regular(d) in s.declared[m]
      ==> Accounted(s, m, d)
  }

  /** A cut edge is a declared one, and a declared path leads back. */
  ghost predicate CutInv(s: State) {
    forall m: Id, d: Id :: (m, d) in s.cuts ==>
      (m, d) in DeclaredEdges(s.declared) && Reach(DeclaredEdges(s.declared), d, m)
  }

  /** A module completed only after its regular dependencies, cut ones aside. */
  ghost predicate OrderInv(s: State) {
    forall i, d: Id ::
      0 <= i < |s.completed| && s.completed[i] in s.declared && Regular(d) in s.declared[s.completed[i]] ==>
      d in s.completed[..i] || (s.completed[i], d) in s.cuts
  }

  ghost predicate Inv(s: State, pending: multiset<Id>, hot: set<Id>) {
    && DefinedInv(s, pending)
    && CountInv(s, pending)
    && AliveInv(s, hot)
    && LogInv(s)
    && RecordInv(s)
    && DeclaredInv(s)
    && GraphInv(s)
    && AccountInv(s)
    && CutInv(s)
    && OrderInv(s)
  }

  lemma InitInv()
    ensures Inv(INIT, multiset{}, {})
  {
  }

  // ---- Decrement ----

  lemma DecrementCount(s: State, pending: multiset<Id>, x: Id)
    requires CountInv(s, pending + multiset{x}) && x in s.modules
    ensures CountInv(Decrement(s, x), pending)
  {
  }

  lemma DecrementRecord(s: State, x: Id)
    requires x in s.modules
    ensures LogInv(s) ==> LogInv(Decrement(s, x))
    ensures RecordInv(s) ==> RecordInv(Decrement(s, x))
    ensures DeclaredInv(s) ==> DeclaredInv(Decrement(s, x))
    ensures CutInv(s) ==> CutInv(Decrement(s, x))
    ensures OrderInv(s) ==> OrderInv(Decrement(s, x))
    ensures AliveInv(s, {}) ==> AliveInv(Decrement(s, x), {x})
  {
  }

  /** Dependency edges survive wherever the dependency lists do. */
  lemma DepEdgesMono(before: map<Id, Module>, after: map<Id, Module>)
    requires forall m :: m in before && before[m].deps.Some? ==> m in after && after[m].deps == before[m].deps
    ensures DepEdges(before) <= DepEdges(after)
  {
  }

  /** Accounting carries over when no dependency loses its reason. */
  lemma AccountMono(s: State, s': State)
    requires AccountInv(s) && s'.declared == s.declared && s'.frames == s.frames && s'.cuts == s.cuts
    requires s'.waiters == s.waiters && s'.completed == s.completed
    requires forall m :: m in s'.modules && !s'.modules[m].complete ==> m in s.modules && !s.modules[m].complete
    ensures AccountInv(s')
  {
  }

  lemma DecrementInv(s: State, pending: multiset<Id>, x: Id)
    requires Inv(s, pending + multiset{x}, {})
    ensures x in s.modules
    ensures Inv(Decrement(s, x), pending, {x})
  {
    hide CountInv, AliveInv, LogInv, RecordInv, DeclaredInv, AccountInv, CutInv, OrderInv;
    assert x in pending + multiset{x};
    var s' := Decrement(s, x);
    DecrementCount(s, pending, x);
    DecrementRecord(s, x);
    DepEdgesMono(s.modules, s'.modules);
    AccountMono(s, s');
  }

  lemma CoolDown(s: State, pending: multiset<Id>, x: Id)
    requires Inv(s, pending, {x}) && x in s.modules && (s.modules[x].complete || s.modules[x].unresolved != 0)
    ensures Inv(s, pending, {})
  {
  }

  // ---- MarkComplete ----

  lemma MarkCompleteWaiters(s: State, m: Id)
    requires m in s.modules
    ensures Total(s.waiters) == multiset(WaitersOf(s.waiters, m)) + Total(MarkComplete(s, m).waiters)
    ensures WaitEdges(MarkComplete(s, m).waiters) <= WaitEdges(s.waiters)
    ensures forall e :: e in WaitEdges(s.waiters) && e.1 != m ==> e in WaitEdges(MarkComplete(s, m).waiters)
  {
    TotalWithout(s.waiters, m);
    var w' := MarkComplete(s, m).waiters;
    assert w' == s.waiters - {m};
    forall e | e in WaitEdges(s.waiters) && e.1 != m ensures e in WaitEdges(w') {
      var i :| 0 <= i < |s.waiters[e.1]| && e.0 == s.waiters[e.1][i];
      assert e.1 in w' && w'[e.1][i] == e.0;
    }
  }

  lemma MarkCompleteCount(s: State, pending: multiset<Id>, m: Id)
    requires CountInv(s, pending) && m in s.modules && !s.modules[m].complete && s.modules[m].unresolved == 0
    ensures CountInv(MarkComplete(s, m), pending + multiset(WaitersOf(s.waiters, m)))
    ensures m !in WaitersOf(s.waiters, m)
  {
    MarkCompleteWaiters(s, m);
    var s', p' := MarkComplete(s, m), pending + multiset(WaitersOf(s.waiters, m));
    forall x: Id ensures Owed(s', p', x) == Owed(s, pending, x) {
    }
  }

  lemma MarkCompleteLog(s: State, m: Id)
    requires m in s.modules && m !in s.completed
    ensures LogInv(s) ==> LogInv(MarkComplete(s, m))
    ensures RecordInv(s) ==> RecordInv(MarkComplete(s, m))
  {
  }

  lemma WaiterEdge(s: State, m: Id, d: Id)
    ensures m in WaitersOf(s.waiters, d) <==> (m, d) in WaitEdges(s.waiters)
  {
  }

  /** A module that occurs in no list waits for nothing. */
  lemma NotWaiting(s: State, m: Id)
    requires Total(s.waiters)[m] == 0
    ensures forall d: Id :: (m, d) !in WaitEdges(s.waiters)
  {
    forall d: Id ensures (m, d) !in WaitEdges(s.waiters) {
      WaiterEdge(s, m, d);
      TotalMember(s.waiters, m);
    }
  }

  lemma MarkCompleteGraph(s: State, m: Id)
    requires GraphInv(s) && m in s.modules && Total(s.waiters)[m] == 0
    ensures GraphInv(MarkComplete(s, m))
  {
    var s' := MarkComplete(s, m);
    MarkCompleteWaiters(s, m);
    NotWaiting(s, m);
    AcyclicMono(WaitEdges(s'.waiters), WaitEdges(s.waiters));
    forall e | e in WaitEdges(s'.waiters) ensures e in DepEdges(s'.modules) {
      assert e in DepEdges(s.modules) && e == (e.0, e.1) && e.0 != m;
      var i :| 0 <= i < |s.modules[e.0].deps.value| && s.modules[e.0].deps.value[i].DepId() == e.1;
      assert s'.modules[e.0] == s.modules[e.0];
    }
  }

  lemma MarkCompleteAccount(s: State, m: Id)
    requires AccountInv(s) && m in s.modules
    ensures AccountInv(MarkComplete(s, m))
  {
    var s' := MarkComplete(s, m);
    MarkCompleteWaiters(s, m);
    assert s'.completed[|s.completed|] == m;
    forall x: Id, d: Id | x in s'.modules && !s'.modules[x].complete && x in s'.declared && Regular(d) in s'.declared[x]
      ensures Accounted(s', x, d)
    {
      assert Accounted(s, x, d);
      if (x, d) in WaitEdges(s.waiters) && d != m {
        assert (x, d) in WaitEdges(s'.waiters);
      } else if InFrame(s, x, d) {
        assert InFrame(s', x, d);
      }
    }
  }

  /** When m completes, all its dependencies have completed or were cut. */
  lemma MarkCompleteOrder(s: State, m: Id)
    requires AccountInv(s) && OrderInv(s)
    requires m in s.modules && !s.modules[m].complete && Total(s.waiters)[m] == 0 && Remaining(s.frames, m) == 0
    ensures OrderInv(MarkComplete(s, m))
  {
    var s' := MarkComplete(s, m);
    NotWaiting(s, m);
    NoFrameNoRemaining(s.frames, m);
    forall i, d: Id |
      0 <= i < |s'.completed| && s'.completed[i] in s'.declared && Regular(d) in s'.declared[s'.completed[i]]
      ensures d in s'.completed[..i] || (s'.completed[i], d) in s'.cuts
    {
      if i < |s.completed| {
        assert s'.completed[..i] == s.completed[..i] && s'.completed[i] == s.completed[i];
      } else {
        assert s'.completed[..i] == s.completed;
        assert Accounted(s, m, d);
        assert !InFrame(s, m, d);
      }
    }
  }

  lemma NothingOwed(s: State, pending: multiset<Id>, m: Id)
    requires CountInv(s, pending) && m in s.modules && !s.modules[m].complete && s.modules[m].unresolved == 0
    ensures Total(s.waiters)[m] == 0 && Remaining(s.frames, m) == 0 && m !in s.completed
  {
  }

  lemma MarkCompleteRest(s: State, pending: multiset<Id>, m: Id)
    requires m in s.modules && !s.modules[m].complete
    ensures DeclaredInv(s) ==> DeclaredInv(MarkComplete(s, m))
    ensures CutInv(s) ==> CutInv(MarkComplete(s, m))
    ensures AliveInv(s, {m}) ==> AliveInv(MarkComplete(s, m), {})
    ensures DefinedInv(s, pending) ==> DefinedInv(MarkComplete(s, m), pending + multiset(WaitersOf(s.waiters, m)))
  {
  }

  lemma MarkCompleteInv(s: State, pending: multiset<Id>, m: Id)
    requires Inv(s, pending, {m}) && m in s.modules && !s.modules[m].complete && s.modules[m].unresolved == 0
    ensures Inv(MarkComplete(s, m), pending + multiset(WaitersOf(s.waiters, m)), {})
  {
    hide DefinedInv, CountInv, AliveInv, LogInv, RecordInv, DeclaredInv, GraphInv, AccountInv, CutInv, OrderInv;
    NothingOwed(s, pending, m);
    MarkCompleteCount(s, pending, m);
    MarkCompleteLog(s, m);
    MarkCompleteGraph(s, m);
    MarkCompleteAccount(s, m);
    MarkCompleteOrder(s, m);
    MarkCompleteRest(s, pending, m);
  }

  // ---- the cascade ----

  lemma {:induction false} OnCompleteInv(s: State, pending: multiset<Id>, m: Id)
    requires Inv(s, pending, {m}) && m in s.modules
    requires s.modules[m].complete || s.modules[m].unresolved == 0
    ensures WaitersDefined(s) && Inv(OnComplete(s, m), pending, {})
    decreases Incomplete(s), 1, 0
  {
    hide CountInv, AliveInv, LogInv, RecordInv, DeclaredInv, GraphInv, AccountInv, CutInv, OrderInv;
    if !s.modules[m].complete {
      var s1 := MarkComplete(s, m);
      MarkCompleteInv(s, pending, m);
      assert m in Incomplete(s) && m !in Incomplete(s1);
      assert Incomplete(s1) < Incomplete(s);
      NotifyInv(s1, pending, WaitersOf(s.waiters, m));
    } else {
      CoolDown(s, pending, m);
    }
  }

  lemma {:induction false} ReleaseInv(s: State, pending: multiset<Id>, x: Id)
    requires Inv(s, pending + multiset{x}, {}) && x in s.modules
    ensures WaitersDefined(s) && Inv(Release(s, x), pending, {})
    decreases Incomplete(s), 2, 0
  {
    hide CountInv, AliveInv, LogInv, RecordInv, DeclaredInv, GraphInv, AccountInv, CutInv, OrderInv;
    DecrementInv(s, pending, x);
    var s1 := Decrement(s, x);
    assert Incomplete(s1) == Incomplete(s);
    if s1.modules[x].unresolved == 0 {
      OnCompleteInv(s1, pending, x);
    } else {
      CoolDown(s1, pending, x);
    }
  }

  lemma SplitPending(pending: multiset<Id>, list: seq<Id>)
    requires list != []
    ensures pending + multiset(list) == pending + multiset(list[1..]) + multiset{list[0]}
  {
    assert list == [list[0]] + list[1..];
  }

  lemma {:induction false} NotifyInv(s: State, pending: multiset<Id>, list: seq<Id>)
    requires Inv(s, pending + multiset(list), {})
    requires forall x :: x in list ==> x in s.modules
    ensures WaitersDefined(s) && Inv(Notify(s, list), pending, {})
    decreases Incomplete(s), 3, |list|
  {
    hide CountInv, AliveInv, LogInv, RecordInv, DeclaredInv, GraphInv, AccountInv, CutInv, OrderInv;
    if list == [] {
      assert pending + multiset(list) == pending;
    } else {
      var x, rest := list[0], pending + multiset(list[1..]);
      SplitPending(pending, list);
      ReleaseInv(s, rest, x);
      NotifyInv(Release(s, x), pending, list[1..]);
    }
  }
}
