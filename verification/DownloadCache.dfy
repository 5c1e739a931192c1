/** The download cache: a list of names, most recently used first, and the folders on disk. */
module DownloadCache {
  import opened Sequences

  const KEEP_LRU := 5

  datatype Cache = Cache(list: seq<string>, folders: set<string>)

  const EMPTY := Cache([], {})

  // ---- the operations; `removable` says whether deleting a folder succeeds ----

  function RemoveFirst(l: seq<string>, name: string): seq<string> {
    if l == [] then [] else if l[0] == name then l[1..] else [l[0]] + RemoveFirst(l[1..], name)
  }

  function Without(l: seq<string>, name: string): seq<string> {
    if l == [] then [] else if l[0] == name then Without(l[1..], name) else [l[0]] + Without(l[1..], name)
  }

  function Touch(c: Cache, name: string, removable: bool): Cache {
    var l := [name] + RemoveFirst(c.list, name);
    if |l| <= KEEP_LRU then c.(list := l) else
      var f := l[|l| - 1];
      if f !in c.folders || removable then Cache(l[..|l| - 1], c.folders - {f}) else c.(list := l)
  }

  function Delete(c: Cache, name: string, removable: bool): Cache {
    if name in c.folders && !removable then c
    else Cache(Without(c.list, name), c.folders - {name})
  }

  datatype Op =
    | ExistsOp(name: string, removable: bool)
    | DeleteOp(name: string, removable: bool)
    | CreateOp(name: string, made: bool, renamed: bool, removable: bool)

  function Apply(c: Cache, op: Op): Cache {
    match op
    case ExistsOp(name, removable) => if name in c.folders then Touch(c, name, removable) else c
    case DeleteOp(name, removable) => Delete(c, name, removable)
    case CreateOp(name, made, renamed, removable) =>
      if name in c.folders || !made then c else
        var c1 := Touch(c, name, removable);
        if renamed then c1.(folders := c1.folders + {name}) else c1
  }

  function ApplyAll(c: Cache, ops: seq<Op>): Cache
    decreases |ops|
  {
    if ops == [] then c else Apply(ApplyAll(c, ops[..|ops| - 1]), ops[|ops| - 1])
  }

  // ---- the reference: all names by recency ----

  /** The names touched, most recent first, each once. */
  function Recent(names: seq<string>): seq<string> {
    if names == [] then [] else
      var n := |names| - 1;
      [names[n]] + Without(Recent(names[..n]), names[n])
  }

  function Newest(l: seq<string>): seq<string> {
    if |l| <= 5 then l else l[..5]
  }

  lemma {:induction false} WithoutFacts(l: seq<string>, name: string)
    ensures forall x :: x in Without(l, name) <==> x in l && x != name
    ensures NoDuplicates(l) ==> NoDuplicates(Without(l, name)) && RemoveFirst(l, name) == Without(l, name)
    ensures name !in l ==> Without(l, name) == l
  {
    if l != [] {
      WithoutFacts(l[1..], name);
      assert NoDuplicates(l) ==> NoDuplicates(l[1..]) && l[0] !in l[1..];
    }
  }

  lemma {:induction false} RecentDistinct(names: seq<string>)
    ensures NoDuplicates(Recent(names))
  {
    if names != [] {
      var n := |names| - 1;
      RecentDistinct(names[..n]);
      WithoutFacts(Recent(names[..n]), names[n]);
    }
  }

  /** Dropping a name and cutting the list commute, up to the element that moves up. */
  lemma {:induction false} WithoutPrefix(l: seq<string>, k: nat, name: string)
    requires k <= |l| && NoDuplicates(l)
    ensures Without(l[..k], name) <= Without(l, name)
    ensures |Without(l[..k], name)| == if name in l[..k] then k - 1 else k
    decreases k
  {
    if k > 0 {
      assert l[..k][1..] == l[1..][..k - 1] && l[..k][0] == l[0];
      WithoutPrefix(l[1..], k - 1, name);
      assert l[0] !in l[1..];
      assert forall x :: x in l[..k] <==> x == l[0] || x in l[1..][..k - 1];
      if l[0] == name {
        WithoutFacts(l[1..], name);
        WithoutFacts(l[1..][..k - 1], name);
      }
    }
  }

  lemma OneTouch(c: Cache, all: seq<string>, name: string)
    requires NoDuplicates(all) && c.list == Newest(all)
    ensures Touch(c, name, true).list == Newest([name] + Without(all, name))
  {
    var k := |c.list|;
    assert c.list == all[..k];
    WithoutFacts(c.list, name);
    WithoutPrefix(all, k, name);
    if k == |all| {
      assert all[..k] == all;
    } else {
      WithoutFacts(all, name);
      WithoutSize(all, name);
    }
  }

  lemma {:induction false} WithoutSize(l: seq<string>, name: string)
    requires NoDuplicates(l)
    ensures |Without(l, name)| == if name in l then |l| - 1 else |l|
  {
    assert l[..|l|] == l;
    WithoutPrefix(l, |l|, name);
  }

  // ---- any sequence of operations ----

  /** `a` is `b` with some elements left out. */
  ghost predicate Sublist(a: seq<string>, b: seq<string>)
    decreases |b|
  {
    a == [] || (b != [] && (if a[0] == b[0] then Sublist(a[1..], b[1..]) else Sublist(a, b[1..])))
  }

  lemma {:induction false} SublistFacts(a: seq<string>, b: seq<string>)
    requires Sublist(a, b)
    ensures forall x :: x in a ==> x in b
    ensures NoDuplicates(b) ==> NoDuplicates(a)
    decreases |b|
  {
    if a != [] {
      if a[0] == b[0] {
        SublistFacts(a[1..], b[1..]);
        assert forall x :: x in a ==> x == a[0] || x in a[1..];
        assert NoDuplicates(b) ==> b[0] !in b[1..];
      } else {
        SublistFacts(a, b[1..]);
      }
    }
  }

  lemma {:induction false} SublistDrop(a: seq<string>, b: seq<string>)
    requires a != [] && Sublist(a, b)
    ensures Sublist(a[1..], b)
    decreases |b|, 0
  {
    if a[0] == b[0] {
      SublistCons(a[1..], b[1..], b[0]);
      assert b == [b[0]] + b[1..];
    } else {
      SublistDrop(a, b[1..]);
      SublistCons(a[1..], b[1..], b[0]);
      assert b == [b[0]] + b[1..];
    }
  }

  lemma {:induction false} SublistCons(a: seq<string>, b: seq<string>, x: string)
    requires Sublist(a, b)
    ensures Sublist(a, [x] + b)
    decreases |b|, 1
  {
    assert ([x] + b)[1..] == b;
    if a != [] && a[0] == x {
      SublistDrop(a, b);
    }
  }

  lemma {:induction false} SublistWithout(a: seq<string>, b: seq<string>, name: string)
    requires Sublist(a, b)
    ensures Sublist(Without(a, name), Without(b, name))
    decreases |b|
  {
    if a != [] {
      var wb := Without(b[1..], name);
      if a[0] == b[0] {
        SublistWithout(a[1..], b[1..], name);
        if a[0] != name {
          assert ([b[0]] + wb)[1..] == wb && ([a[0]] + Without(a[1..], name))[1..] == Without(a[1..], name);
        }
      } else {
        SublistWithout(a, b[1..], name);
        if b[0] != name {
          SublistCons(Without(a, name), wb, b[0]);
        }
      }
    }
  }

  lemma {:induction false} SublistLeftOut(l: seq<string>, b: seq<string>, name: string)
    requires Sublist(l, b)
    ensures Sublist(Without(l, name), b)
    decreases |b|
  {
    if l != [] {
      if l[0] == b[0] {
        SublistLeftOut(l[1..], b[1..], name);
        if l[0] == name {
          SublistCons(Without(l, name), b[1..], b[0]);
          assert b == [b[0]] + b[1..];
        } else {
          assert Without(l, name)[1..] == Without(l[1..], name);
        }
      } else {
        SublistLeftOut(l, b[1..], name);
        SublistCons(Without(l, name), b[1..], b[0]);
        assert b == [b[0]] + b[1..];
      }
    }
  }

  lemma {:induction false} SublistPrefix(a: seq<string>, b: seq<string>, k: nat)
    requires Sublist(a, b) && k <= |a|
    ensures Sublist(a[..k], b)
    decreases |b|
  {
    if a != [] && k > 0 {
      if a[0] == b[0] {
        SublistPrefix(a[1..], b[1..], k - 1);
        assert a[..k][1..] == a[1..][..k - 1];
      } else {
        SublistPrefix(a, b[1..], k);
      }
    }
  }

  /** The name that an operation touches, if any. */
  function TouchedBy(folders: set<string>, op: Op): seq<string> {
    match op
    case ExistsOp(name, _) => if name in folders then [name] else []
    case DeleteOp(_, _) => []
    case CreateOp(name, made, _, _) => if name in folders || !made then [] else [name]
  }

  /** The names that the operations have touched, in order. */
  function Touched(ops: seq<Op>): seq<string>
    decreases |ops|
  {
    if ops == [] then [] else
      var before := ops[..|ops| - 1];
      Touched(before) + TouchedBy(ApplyAll(EMPTY, before).folders, ops[|ops| - 1])
  }

  ghost predicate AllRemovable(ops: seq<Op>) {
    forall i :: 0 <= i < |ops| ==> ops[i].removable
  }

  /** Moving a name to the front keeps the order of recency. */
  lemma FrontSound(list: seq<string>, all: seq<string>, name: string)
    requires NoDuplicates(all) && Sublist(list, all)
    ensures var l := [name] + RemoveFirst(list, name);
      && Sublist(l, [name] + Without(all, name))
      && Sublist(l[..|l| - 1], [name] + Without(all, name))
      && (forall f :: f in list ==> f in l)
      && |l| <= |list| + 1
  {
    SublistFacts(list, all);
    WithoutFacts(list, name);
    SublistWithout(list, all, name);
    var l, b := [name] + RemoveFirst(list, name), [name] + Without(all, name);
    assert l[1..] == Without(list, name) && b[1..] == Without(all, name);
    assert l[0] == b[0] == name;
    SublistPrefix(l, b, |l| - 1);
    RemoveFirstSize(list, name);
  }

  lemma TouchSound(c: Cache, all: seq<string>, name: string, removable: bool)
    requires NoDuplicates(all) && Sublist(c.list, all) && (forall f :: f in c.folders ==> f in c.list)
    ensures var c' := Touch(c, name, removable);
      && Sublist(c'.list, [name] + Without(all, name))
      && name in c'.list
      && (forall f :: f in c'.folders ==> f in c'.list)
      && (removable && |c.list| <= KEEP_LRU ==> |c'.list| <= KEEP_LRU)
  {
    hide Sublist, NoDuplicates, Without, RemoveFirst;
    FrontSound(c.list, all, name);
    var l := [name] + RemoveFirst(c.list, name);
    assert l[0] == name;
    if |l| > KEEP_LRU {
      var last := |l| - 1;
      assert l[..last][0] == name;
      forall f | f in l && f != l[last] ensures f in l[..last] {
        var i :| 0 <= i < |l| && l[i] == f;
        assert l[..last][i] == f;
      }
    }
  }

  lemma {:induction false} RemoveFirstSize(l: seq<string>, name: string)
    ensures |RemoveFirst(l, name)| <= |l|
  {
    if l != [] {
      RemoveFirstSize(l[1..], name);
    }
  }

  /** The list is in order of recency and every folder is listed. */
  ghost predicate Sound(c: Cache, names: seq<string>) {
    Sublist(c.list, Recent(names)) && forall f :: f in c.folders ==> f in c.list
  }

  lemma RecentSnoc(names: seq<string>, name: string)
    ensures Recent(names + [name]) == [name] + Without(Recent(names), name)
  {
    assert (names + [name])[..|names|] == names;
  }

  lemma TouchKeeps(c: Cache, names: seq<string>, name: string, removable: bool)
    requires Sound(c, names)
    ensures var c' := Touch(c, name, removable);
      && Sound(c', names + [name])
      && Sound(c'.(folders := c'.folders + {name}), names + [name])
      && (removable && |c.list| <= KEEP_LRU ==> |c'.list| <= KEEP_LRU)
  {
    hide Sublist, NoDuplicates, Without, Recent, Touch;
    RecentDistinct(names);
    RecentSnoc(names, name);
    TouchSound(c, Recent(names), name, removable);
  }

  lemma DeleteKeeps(c: Cache, names: seq<string>, name: string, removable: bool)
    requires Sound(c, names)
    ensures Sound(Delete(c, name, removable), names) && |Delete(c, name, removable).list| <= |c.list|
  {
    hide Sublist, Without, Recent;
    SublistLeftOut(c.list, Recent(names), name);
    WithoutFacts(c.list, name);
    SublistShorter(c.list, name);
  }

  lemma ApplyKeeps(c: Cache, names: seq<string>, op: Op)
    requires Sound(c, names)
    ensures Sound(Apply(c, op), names + TouchedBy(c.folders, op))
    ensures op.removable && |c.list| <= KEEP_LRU ==> |Apply(c, op).list| <= KEEP_LRU
  {
    hide Sound, Touch, Delete;
    assert names + [] == names;
    if op.DeleteOp? {
      DeleteKeeps(c, names, op.name, op.removable);
    } else {
      TouchKeeps(c, names, op.name, op.removable);
    }
  }

  /**
   * After any operations the list is duplicate-free and in order of recency, every folder is listed,
   * and, as long as folders can be removed, no more than five names are kept.
   */
  lemma {:induction false} CacheInvariant(ops: seq<Op>)
    ensures var c := ApplyAll(EMPTY, ops);
      && NoDuplicates(c.list)
      && Sublist(c.list, Recent(Touched(ops)))
      && (forall f :: f in c.folders ==> f in c.list)
      && (AllRemovable(ops) ==> |c.list| <= 5)
    decreases |ops|
  {
    hide Sublist, Recent, Apply, TouchedBy, NoDuplicates;
    if ops == [] {
      NothingApplied();
    } else {
      var before, op := ops[..|ops| - 1], ops[|ops| - 1];
      CacheInvariant(before);
      ApplyKeeps(ApplyAll(EMPTY, before), Touched(before), op);
      assert AllRemovable(ops) ==> AllRemovable(before) && op.removable;
    }
    RecentDistinct(Touched(ops));
    SublistFacts(ApplyAll(EMPTY, ops).list, Recent(Touched(ops)));
  }

  lemma NothingApplied()
    ensures Sound(EMPTY, [])
  {
  }

  lemma {:induction false} SublistShorter(l: seq<string>, name: string)
    ensures |Without(l, name)| <= |l|
  {
    if l != [] {
      SublistShorter(l[1..], name);
    }
  }

  // ---- without deletions ----

  ghost predicate NoDeletes(ops: seq<Op>) {
    forall i :: 0 <= i < |ops| ==> !ops[i].DeleteOp?
  }

  /** Every folder that was filled could be moved to its place. */
  ghost predicate AllRenamed(ops: seq<Op>) {
    forall i :: 0 <= i < |ops| ==> ops[i].CreateOp? ==> ops[i].renamed
  }

  lemma OneOp(c: Cache, names: seq<string>, op: Op)
    requires c.list == Newest(Recent(names)) && op.removable && !op.DeleteOp?
    ensures Apply(c, op).list == Newest(Recent(names + TouchedBy(c.folders, op)))
  {
    hide Recent, Touch;
    assert names + [] == names;
    RecentDistinct(names);
    RecentSnoc(names, op.name);
    OneTouch(c, Recent(names), op.name);
  }

  /**
   * LRU refinement: without deletions and with successful removals, the list is exactly the five most recently
   * touched names, in order.
   */
  lemma {:induction false} KeepsTheFiveNewest(ops: seq<Op>)
    requires NoDeletes(ops) && AllRemovable(ops)
    ensures ApplyAll(EMPTY, ops).list == Newest(Recent(Touched(ops)))
    decreases |ops|
  {
    hide Recent, Apply, TouchedBy;
    if ops == [] {
      NothingTouched();
    } else {
      var before, op := ops[..|ops| - 1], ops[|ops| - 1];
      KeepsTheFiveNewest(before);
      OneOp(ApplyAll(EMPTY, before), Touched(before), op);
    }
  }

  lemma NothingTouched()
    ensures Recent([]) == []
  {
  }

  // ---- with deletions ----

  /** The names touched and not deleted since, most recent first, however many. */
  function Remembered(ops: seq<Op>): seq<string>
    decreases |ops|
  {
    if ops == [] then [] else
      var before, op := ops[..|ops| - 1], ops[|ops| - 1];
      var l := Remembered(before);
      if TouchedBy(ApplyAll(EMPTY, before).folders, op) != [] then [op.name] + Without(l, op.name)
      else if op.DeleteOp? then Without(l, op.name)
      else l
  }

  /** x was touched, was not deleted since, and at no time since then have five other names been more recent. */
  ghost predicate StillKept(ops: seq<Op>, x: string)
    decreases |ops|
  {
    ops != [] &&
      var before, op := ops[..|ops| - 1], ops[|ops| - 1];
      if TouchedBy(ApplyAll(EMPTY, before).folders, op) == [x] then true
      else if op.DeleteOp? && op.name == x then false
      else StillKept(before, x) && x in Newest(Remembered(ops))
  }

  lemma {:induction false} RememberedDistinct(ops: seq<Op>)
    ensures NoDuplicates(Remembered(ops))
    decreases |ops|
  {
    hide Without, TouchedBy;
    if ops != [] {
      var before, op := ops[..|ops| - 1], ops[|ops| - 1];
      RememberedDistinct(before);
      WithoutFacts(Remembered(before), op.name);
    }
  }

  lemma PrefixWithout(a: seq<string>, l: seq<string>, name: string)
    requires a <= l && NoDuplicates(l)
    ensures NoDuplicates(a) && Without(a, name) <= Without(l, name)
  {
    assert a == l[..|a|];
    WithoutPrefix(l, |a|, name);
  }

  /** Among the first five of a list without duplicates are those of its prefix that are. */
  lemma NewestPrefix(a: seq<string>, l: seq<string>, x: string)
    requires a <= l && NoDuplicates(l) && x in a
    ensures x in Newest(l) <==> x in Newest(a)
  {
    var i :| 0 <= i < |a| && a[i] == x;
    assert l[i] == x;
    if x in Newest(l) {
      var j :| 0 <= j < |Newest(l)| && Newest(l)[j] == x;
      assert j == i && Newest(a)[i] == x;
    }
    if x in Newest(a) {
      var j :| 0 <= j < |Newest(a)| && Newest(a)[j] == x;
      assert Newest(l)[j] == x;
    }
  }

  lemma TouchPrefix(c: Cache, l: seq<string>, name: string)
    requires c.list <= l && NoDuplicates(l) && |c.list| <= 5
    ensures var c', l' := Touch(c, name, true), [name] + Without(l, name);
      && c'.list <= l' && |c'.list| <= 5 && name in c'.list
      && forall x :: x != name ==> (x in c'.list <==> x in c.list && x in Newest(l'))
  {
    hide Without, RemoveFirst;
    PrefixWithout(c.list, l, name);
    WithoutFacts(c.list, name);
    WithoutSize(c.list, name);
    WithoutFacts(l, name);
    var c', b, l' := Touch(c, name, true), [name] + Without(c.list, name), [name] + Without(l, name);
    assert b <= l' && c'.list == Newest(b) && c'.list[0] == name;
    forall x | x != name ensures x in c'.list <==> x in c.list && x in Newest(l') {
      assert x in b <==> x in c.list;
      if x in b {
        NewestPrefix(b, l', x);
      }
    }
  }

  lemma DeletePrefix(c: Cache, l: seq<string>, name: string)
    requires c.list <= l && NoDuplicates(l) && |c.list| <= 5
    ensures var c', l' := Delete(c, name, true), Without(l, name);
      && c'.list <= l' && |c'.list| <= 5
      && forall x :: x in c'.list <==> x in c.list && x != name
  {
    hide Without;
    PrefixWithout(c.list, l, name);
    WithoutFacts(c.list, name);
    SublistShorter(c.list, name);
  }

  /** A name of a short prefix is among the first five. */
  lemma ShortPrefix(a: seq<string>, l: seq<string>)
    requires a <= l && |a| <= 5
    ensures forall x :: x in a ==> x in Newest(l)
  {
    forall x | x in a ensures x in Newest(l) {
      var i :| 0 <= i < |a| && a[i] == x;
      assert Newest(l)[i] == x;
    }
  }

  /**
   * With successful removals, deletions included: the list is a front part of the names touched and not deleted
   * since, and it has exactly those that five more recent ones have never pushed out.
   */
  lemma {:induction false} ListedExactly(ops: seq<Op>)
    requires AllRemovable(ops)
    ensures ApplyAll(EMPTY, ops).list <= Remembered(ops) && |ApplyAll(EMPTY, ops).list| <= 5
    ensures forall x :: x in ApplyAll(EMPTY, ops).list <==> StillKept(ops, x)
    decreases |ops|
  {
    if ops != [] {
      hide Touch, Delete, Without, NoDuplicates;
      var before, op := ops[..|ops| - 1], ops[|ops| - 1];
      ListedExactly(before);
      RememberedDistinct(before);
      var c, l := ApplyAll(EMPTY, before), Remembered(before);
      TouchPrefix(c, l, op.name);
      DeletePrefix(c, l, op.name);
      ShortPrefix(ApplyAll(EMPTY, ops).list, Remembered(ops));
    }
  }

  // ---- the folders ----

  /** The folders are the listed names. */
  ghost predicate Exact(c: Cache) {
    NoDuplicates(c.list) && forall f :: f in c.folders <==> f in c.list
  }

  lemma TouchExact(c: Cache, name: string)
    requires Exact(c) && |c.list| <= 5
    ensures var c' := Touch(c, name, true);
      |c'.list| <= 5 && Exact(c'.(folders := c'.folders + {name})) && (name in c.folders ==> name in c'.folders)
  {
    hide RemoveFirst, Without;
    WithoutFacts(c.list, name);
    WithoutSize(c.list, name);
    var l := [name] + RemoveFirst(c.list, name);
    assert NoDuplicates(l) && forall f :: f in l <==> f == name || f in c.list;
    if |l| > KEEP_LRU {
      var last := |l| - 1;
      assert l == l[..last] + [l[last]];
    }
  }

  lemma DeleteExact(c: Cache, name: string)
    requires Exact(c)
    ensures Exact(Delete(c, name, true)) && |Delete(c, name, true).list| <= |c.list|
  {
    hide Without;
    WithoutFacts(c.list, name);
    SublistShorter(c.list, name);
  }

  lemma {:induction false} FoldersExact(ops: seq<Op>)
    requires AllRemovable(ops) && AllRenamed(ops)
    ensures Exact(ApplyAll(EMPTY, ops)) && |ApplyAll(EMPTY, ops).list| <= 5
    decreases |ops|
  {
    hide Exact, Touch, Delete;
    if ops == [] {
      NothingListed();
    } else {
      var before, op := ops[..|ops| - 1], ops[|ops| - 1];
      FoldersExact(before);
      var c := ApplyAll(EMPTY, before);
      TouchExact(c, op.name);
      DeleteExact(c, op.name);
      var c' := Touch(c, op.name, true);
      assert op.name in c'.folders ==> c'.(folders := c'.folders + {op.name}) == c';
    }
  }

  /**
   * If removals succeed and every filled folder gets to its place, the folders on disk are the listed names: those
   * created, not deleted since and not pushed out by five more recent ones.
   */
  lemma FoldersAreListed(ops: seq<Op>)
    requires AllRemovable(ops) && AllRenamed(ops)
    ensures forall f :: f in ApplyAll(EMPTY, ops).folders <==> f in ApplyAll(EMPTY, ops).list
    ensures forall f :: f in ApplyAll(EMPTY, ops).folders <==> StillKept(ops, f)
  {
    hide StillKept, ApplyAll, NoDuplicates;
    FoldersExact(ops);
    ListedExactly(ops);
  }

  lemma NothingListed()
    ensures Exact(EMPTY)
  {
  }

  /** A touch moves the name to the front; of the others only the last may go, with its folder, if they are too many. */
  lemma TouchKeepsOthers(c: Cache, name: string, removable: bool)
    requires NoDuplicates(c.list)
    ensures var c', others := Touch(c, name, removable), Without(c.list, name);
      && c'.list != [] && c'.list[0] == name
      && c'.list[1..] <= others && |others| <= |c'.list|
      && (c'.list[1..] != others ==> |c'.list| >= 5)
      && (forall f :: f in c.folders && f !in c'.folders ==> f in others && f !in c'.list)
      && (forall f :: f in others && f !in c'.list ==> f !in c'.folders)
      && c'.folders <= c.folders
  {
    hide Without, RemoveFirst;
    WithoutFacts(c.list, name);
    var others := Without(c.list, name);
    var l := [name] + others;
    assert l[1..] == others;
    if |l| > KEEP_LRU {
      var last := |others| - 1;
      assert l[..|l| - 1][1..] == others[..last];
      assert others == others[..last] + [others[last]];
      assert others[last] !in others[..last];
    }
  }

  lemma {:induction false} SublistRefl(a: seq<string>)
    ensures Sublist(a, a)
  {
    if a != [] {
      SublistRefl(a[1..]);
    }
  }

  // ---- the object ----

  /** The index of the first occurrence, or the length. */
  method Position(l: seq<string>, name: string) returns (index: nat)
    ensures index <= |l| && (index < |l| <==> name in l)
    ensures RemoveFirst(l, name) == if index < |l| then l[..index] + l[index + 1..] else l
  {
    index := 0;
    assert l[0..] == l;
    while index < |l| && l[index] != name
      invariant 0 <= index <= |l| && name !in l[..index]
      invariant RemoveFirst(l, name) == l[..index] + RemoveFirst(l[index..], name)
    {
      RemoveFirstStep(l, index, name);
      index := index + 1;
    }
    if index < |l| {
      assert l[index..][1..] == l[index + 1..];
    } else {
      assert l[index..] == [] && l[..index] == l;
    }
  }

  lemma RemoveFirstStep(l: seq<string>, i: nat, name: string)
    requires i < |l| && l[i] != name
    ensures l[..i] + RemoveFirst(l[i..], name) == l[..i + 1] + RemoveFirst(l[i + 1..], name)
  {
  }

  /** The cache on disk; `ops` are the operations performed so far. */
  class DownloadCache {
    var list: seq<string>
    var folders: set<string>
    ghost var ops: seq<Op>

    ghost predicate Valid()
      reads this
    {
      Cache(list, folders) == ApplyAll(EMPTY, ops)
    }

    constructor ()
      ensures Valid() && ops == []
    {
      list, folders, ops := [], {}, [];
    }

    /** touch, editing the list in place: remove, insert at the front, pop. */
    method TouchName(name: string, removable: bool)
      modifies this`list, this`folders
      ensures Cache(list, folders) == Touch(old(Cache(list, folders)), name, removable)
    {
      hide RemoveFirst;
      var index := Position(list, name);
      if index < |list| {
        list := list[..index] + list[index + 1..];
      }
      list := [name] + list;
      if |list| <= KEEP_LRU {
        return;
      }
      var f := list[|list| - 1];
      if f !in folders || removable {
        folders := folders - {f};
        list := list[..|list| - 1];
      }
    }

    /** exists; the name is touched if it does. */
    method ExistsName(name: string, removable: bool) returns (found: bool)
      requires Valid()
      modifies this
      ensures Valid() && ops == old(ops) + [ExistsOp(name, removable)]
      ensures found == (name in old(folders)) && (found ==> name in list && list[0] == name)
      ensures Listed()
    {
      found := name in folders;
      if found {
        TouchName(name, removable);
      }
      ops := Log(ExistsOp(name, removable));
    }

    /** delete; false when the folder could not be removed. */
    method DeleteName(name: string, removable: bool) returns (ok: bool)
      requires Valid()
      modifies this
      ensures Valid() && ops == old(ops) + [DeleteOp(name, removable)]
      ensures ok <==> removable || name !in old(folders)
      ensures ok ==> folders == old(folders) - {name} && Sublist(list, old(list))
      ensures ok ==> forall x :: x in list <==> x in old(list) && x != name
      ensures !ok ==> list == old(list) && folders == old(folders)
      ensures Listed()
    {
      ok := true;
      if name in folders {
        if removable {
          folders := folders - {name};
        } else {
          ok := false;
        }
      }
      if ok {
        WithoutFacts(list, name);
        SublistRefl(list);
        SublistLeftOut(list, list, name);
        list := Without(list, name);
      }
      ops := Log(DeleteOp(name, removable));
    }

    /** create; `made` and `renamed` say whether filling the folder and moving it to its place succeed. */
    method CreateName(name: string, made: bool, renamed: bool, removable: bool) returns (ok: bool)
      requires Valid()
      modifies this
      ensures Valid() && ops == old(ops) + [CreateOp(name, made, renamed, removable)]
      ensures ok == (name in old(folders) || (made && renamed)) && (ok ==> name in folders)
      ensures Listed()
    {
      ok := name in folders;
      if !ok && made {
        TouchName(name, removable);
        if renamed {
          folders := folders + {name};
          ok := true;
        }
      }
      ops := Log(CreateOp(name, made, renamed, removable));
    }

    /** The history with one more operation, whose effect is in the fields. */
    ghost method Log(op: Op) returns (ops': seq<Op>)
      requires Cache(list, folders) == Apply(ApplyAll(EMPTY, ops), op)
      ensures ops' == ops + [op] && Cache(list, folders) == ApplyAll(EMPTY, ops')
      ensures ListedAfter(ops')
    {
      ops' := ops + [op];
      assert ops'[..|ops|] == ops;
      CacheInvariant(ops');
    }

    /** What CacheInvariant says of the object. */
    ghost predicate Listed()
      reads this
    {
      ListedAfter(ops)
    }

    ghost predicate ListedAfter(history: seq<Op>)
      reads this
    {
      && NoDuplicates(list) && Sublist(list, Recent(Touched(history)))
      && (forall f :: f in folders ==> f in list)
      && (AllRemovable(history) ==> |list| <= 5)
    }
  }
}
