/** Normalisation of module ids: rewriting with four regular expressions. */
module ModuleIds {
  import opened Sequences

  // ---- what a module id denotes ----

  predicate NoSlash(s: string) {
    forall i :: 0 <= i < |s| ==> s[i] != '/'
  }

  /** The position of the first slash, or the length. */
  function FirstSlash(s: string): (j: nat)
    ensures j <= |s| && NoSlash(s[..j]) && (j < |s| ==> s[j] == '/')
  {
    if s == "" then 0 else if s[0] == '/' then 0 else 1 + FirstSlash(s[1..])
  }

  function Split(s: string): (segs: seq<string>)
    ensures segs != []
    decreases |s|
  {
    var j := FirstSlash(s);
    if j == |s| then [s] else [s[..j]] + Split(s[j + 1..])
  }

  /** A directory name that `..` takes back; `..` itself and empty names are not. */
  predicate Poppable(seg: string) {
    seg != "" && seg != ".."
  }

  function Enter(stack: seq<string>, seg: string): seq<string> {
    if seg == "." then stack
    else if seg == ".." && stack != [] && Poppable(stack[|stack| - 1]) then stack[..|stack| - 1]
    else stack + [seg]
  }

  function Walk(stack: seq<string>, segs: seq<string>): seq<string>
    decreases |segs|
  {
    if segs == [] then stack else Walk(Enter(stack, segs[0]), segs[1..])
  }

  /** The location: the stack of names left after following every `.` and `..`. */
  function Location(id: string): seq<string> {
    Walk([], Split(id))
  }

  // ---- what the expressions match ----

  /** /\/\.\// at position i. */
  predicate DotAt(r: string, i: nat) {
    i + 3 <= |r| && r[i..i + 3] == "/./"
  }

  /** A name that may be cancelled by a following `..`. */
  predicate Cancellable(seg: string) {
    seg != "" && seg != ".." && NoSlash(seg)
  }

  /** A cancellable name between the slash at i and `/../` at j. */
  predicate UpAt(r: string, i: nat, j: nat) {
    i < j && j + 4 <= |r| && r[i] == '/' && Cancellable(r[i + 1..j]) && r[j..j + 4] == "/../"
  }

  /** The same at the very beginning. */
  predicate UpFirst(r: string, j: nat) {
    j + 4 <= |r| && Cancellable(r[..j]) && r[j..j + 4] == "/../"
  }

  ghost predicate NoDot(r: string) {
    forall i :: !DotAt(r, i)
  }

  ghost predicate NoUp(r: string) {
    forall i, j :: !UpAt(r, i, j)
  }

  /** Nothing is left to rewrite. */
  ghost predicate Normal(r: string) {
    && NoDot(r)
    && !("./" <= r)
    && NoUp(r)
    && forall j :: !UpFirst(r, j)
  }

  // ---- splitting at a slash ----

  lemma {:induction false} SplitAtSlash(a: string, b: string)
    ensures Split(a + "/" + b) == Split(a) + Split(b)
    decreases |a|
  {
    hide FirstSlash, NoSlash;
    var s, j := a + "/" + b, FirstSlash(a);
    SlashInFront(a, b);
    if j == |a| {
      assert s[..j] == a && s[j + 1..] == b;
    } else {
      var rest := a[j + 1..];
      assert s[..j] == a[..j] && s[j + 1..] == rest + "/" + b;
      SplitAtSlash(rest, b);
      Assoc([a[..j]], Split(rest), Split(b));
    }
  }

  /** What follows a name with its slash does not change where its first slash is. */
  lemma SlashInFront(a: string, b: string)
    ensures FirstSlash(a + "/" + b) == FirstSlash(a)
  {
    hide FirstSlash;
    var s, j := a + "/" + b, FirstSlash(a);
    assert s[..j] == a[..j] && s[j] == '/';
    FirstSlashIs(s, j);
  }

  lemma FirstSlashIs(s: string, j: nat)
    requires j < |s| && s[j] == '/' && NoSlash(s[..j])
    ensures FirstSlash(s) == j
  {
  }

  lemma SplitName(seg: string)
    requires NoSlash(seg)
    ensures Split(seg) == [seg]
  {
  }

  lemma {:induction false} WalkAppend(stack: seq<string>, xs: seq<string>, ys: seq<string>)
    ensures Walk(stack, xs + ys) == Walk(Walk(stack, xs), ys)
    decreases |xs|
  {
    if xs == [] {
      assert xs + ys == ys;
    } else {
      assert (xs + ys)[0] == xs[0] && (xs + ys)[1..] == xs[1..] + ys;
      WalkAppend(Enter(stack, xs[0]), xs[1..], ys);
    }
  }

  /** A stretch of names that leads nowhere can be cut out. */
  lemma CutOut(a: string, mid: string, b: string)
    requires forall stack: seq<string> :: Walk(stack, Split(mid)) == stack
    ensures Location(a + "/" + mid + "/" + b) == Location(a + "/" + b)
    ensures Location(mid + "/" + b) == Location(b)
  {
    SplitAtSlash(a, mid);
    SplitAtSlash(a + "/" + mid, b);
    SplitAtSlash(a, b);
    SplitAtSlash(mid, b);
    WalkAppend([], Split(a) + Split(mid), Split(b));
    WalkAppend([], Split(a), Split(mid));
    WalkAppend([], Split(a), Split(b));
    WalkAppend([], Split(mid), Split(b));
  }

  lemma DotLeadsNowhere(stack: seq<string>)
    ensures Walk(stack, Split(".")) == stack
  {
  }

  lemma UpLeadsNowhere(stack: seq<string>, seg: string)
    requires Cancellable(seg) && seg != "."
    ensures Walk(stack, Split(seg + "/" + "..")) == stack
  {
    SplitAtSlash(seg, "..");
    SplitName(seg);
    SplitName("..");
    var s1 := Enter(stack, seg);
    assert [seg] + [".."] == [seg, ".."];
    assert [seg, ".."][1..] == [".."] && [".."][1..] == [];
    assert s1 == stack + [seg] && s1[..|s1| - 1] == stack;
  }

  // ---- each rewriting step ----

  lemma DropDot(r: string, i: nat)
    requires DotAt(r, i)
    ensures Location(r[..i] + "/" + r[i + 3..]) == Location(r)
  {
    hide Location, Split, Walk;
    forall stack: seq<string> ensures Walk(stack, Split(".")) == stack {
      DotLeadsNowhere(stack);
    }
    CutOut(r[..i], ".", r[i + 3..]);
    assert r == r[..i] + "/" + "." + "/" + r[i + 3..] by {
      assert r == r[..i] + r[i..i + 3] + r[i + 3..];
      assert "/./" == "/" + "." + "/";
    }
  }

  lemma DropFirstDot(r: string)
    requires "./" <= r
    ensures Location(r[2..]) == Location(r)
  {
    hide Location, Split, Walk;
    forall stack: seq<string> ensures Walk(stack, Split(".")) == stack {
      DotLeadsNowhere(stack);
    }
    CutOut("", ".", r[2..]);
    assert r == "./" + r[2..] == "." + "/" + r[2..];
  }

  /** A match, spelled out. */
  lemma UpSpelled(r: string, i: nat, j: nat)
    requires UpAt(r, i, j)
    ensures r == r[..i] + "/" + (r[i + 1..j] + "/" + "..") + "/" + r[j + 4..]
    ensures r[i + 1..j] == "." ==> DotAt(r, i)
  {
    hide Cancellable;
    var seg, rest := r[i + 1..j], r[j + 4..];
    assert r == r[..i] + [r[i]] + seg + r[j..j + 4] + rest;
    assert "/../" == "/" + ".." + "/";
    assert r == r[..i] + "/" + (seg + "/" + "..") + "/" + rest;
    if seg == "." {
      assert r[i..i + 3] == [r[i]] + seg + [r[j]];
      assert r[j] == r[j..j + 4][0];
    }
  }

  lemma UpFirstSpelled(r: string, j: nat)
    requires UpFirst(r, j)
    ensures r == (r[..j] + "/" + "..") + "/" + r[j + 4..]
    ensures r[..j] == "." ==> "./" <= r
  {
    hide Cancellable;
    assert r == r[..j] + r[j..j + 4] + r[j + 4..];
    assert "/../" == "/" + ".." + "/";
    assert r == (r[..j] + "/" + "..") + "/" + r[j + 4..];
    assert r[j] == r[j..j + 4][0];
  }

  lemma DropUp(r: string, i: nat, j: nat)
    requires UpAt(r, i, j) && NoDot(r)
    ensures Location(r[..i] + "/" + r[j + 4..]) == Location(r)
  {
    hide Location, Split, Walk;
    UpSpelled(r, i, j);
    var seg := r[i + 1..j];
    forall stack: seq<string> ensures Walk(stack, Split(seg + "/" + "..")) == stack {
      UpLeadsNowhere(stack, seg);
    }
    CutOut(r[..i], seg + "/" + "..", r[j + 4..]);
  }

  lemma DropFirstUp(r: string, j: nat)
    requires UpFirst(r, j) && !("./" <= r)
    ensures Location(r[j + 4..]) == Location(r)
  {
    hide Location, Split, Walk;
    UpFirstSpelled(r, j);
    var seg := r[..j];
    forall stack: seq<string> ensures Walk(stack, Split(seg + "/" + "..")) == stack {
      UpLeadsNowhere(stack, seg);
    }
    CutOut("", seg + "/" + "..", r[j + 4..]);
  }

  /** Cancelling a name creates no `/./` and no leading `./`. */
  lemma UpKeepsNoDot(r: string, i: nat, j: nat)
    requires UpAt(r, i, j) && NoDot(r)
    ensures NoDot(r[..i] + "/" + r[j + 4..])
    ensures "./" <= r[..i] + "/" + r[j + 4..] ==> "./" <= r
  {
    var r' := r[..i] + "/" + r[j + 4..];
    assert r[j + 3] == r[j..j + 4][3];
    forall k: nat ensures !DotAt(r', k) {
      if DotAt(r', k) {
        assert r'[k] == r'[k..k + 3][0] && r'[k + 1] == r'[k..k + 3][1] && r'[k + 2] == r'[k..k + 3][2];
        var k' := if k + 2 <= i then k else k - i + (j + 3);
        assert r[k'..k' + 3] == "/./" by {
          assert r[k'] == '/' && r[k' + 1] == '.' && r[k' + 2] == '/';
        }
        assert DotAt(r, k');
      }
    }
    if "./" <= r' {
      assert r'[0] == '.' && r'[1] == '/';
      assert r[0] == '.' && r[1] == '/';
    }
  }

  /** Cancelling the first name leaves a normal id. */
  lemma FirstUpNormal(r: string, j: nat)
    requires UpFirst(r, j) && NoDot(r) && NoUp(r)
    ensures Normal(r[j + 4..])
  {
    assert r[j + 3] == r[j..j + 4][3];
    SuffixClean(r, j + 4);
    SlashThenDot(r, j + 4);
    SlashThenUp(r, j + 4);
  }

  lemma SuffixClean(r: string, n: nat)
    requires n <= |r|
    ensures NoDot(r) ==> NoDot(r[n..])
    ensures NoUp(r) ==> NoUp(r[n..])
  {
    if !NoDot(r[n..]) {
      var k: nat :| DotAt(r[n..], k);
      assert r[k + n..k + n + 3] == r[n..][k..k + 3];
      assert DotAt(r, k + n);
    }
    if !NoUp(r[n..]) {
      var x: nat, y: nat :| UpAt(r[n..], x, y);
      ShiftedUp(r, r[n..], n, x, y);
    }
  }

  /** After a slash, a cancellable first name is a cancellable name. */
  lemma SlashThenUp(r: string, n: nat)
    requires 0 < n <= |r| && r[n - 1] == '/'
    ensures forall y: nat :: UpFirst(r[n..], y) ==> UpAt(r, n - 1, y + n)
  {
    forall y: nat | UpFirst(r[n..], y) ensures UpAt(r, n - 1, y + n) {
      assert r[n..y + n] == r[n..][..y] && r[y + n..y + n + 4] == r[n..][y..y + 4];
    }
  }

  /** After a slash, a leading `./` is a `/./`. */
  lemma SlashThenDot(r: string, n: nat)
    requires 0 < n <= |r| && r[n - 1] == '/'
    ensures "./" <= r[n..] ==> DotAt(r, n - 1)
  {
  }

  lemma ShiftedUp(r: string, r': string, n: nat, x: nat, y: nat)
    requires n <= |r| && r' == r[n..] && UpAt(r', x, y)
    ensures UpAt(r, x + n, y + n)
  {
    assert r[x + n + 1..y + n] == r'[x + 1..y] && r[y + n..y + n + 4] == r'[y..y + 4];
  }

  // ---- normal ids by their names ----

  function Join(segs: seq<string>): string
    requires segs != []
  {
    if |segs| == 1 then segs[0] else segs[0] + "/" + Join(segs[1..])
  }

  lemma {:induction false} JoinSplit(s: string)
    ensures Join(Split(s)) == s
    decreases |s|
  {
    var j := FirstSlash(s);
    if j < |s| {
      JoinSplit(s[j + 1..]);
      assert s == s[..j] + [s[j]] + s[j + 1..];
      assert ([s[..j]] + Split(s[j + 1..]))[1..] == Split(s[j + 1..]);
    }
  }

  lemma {:induction false} JoinAppend(a: seq<string>, b: seq<string>)
    requires a != [] && b != []
    ensures Join(a + b) == Join(a) + "/" + Join(b)
    decreases |a|
  {
    assert (a + b)[0] == a[0] && (a + b)[1..] == a[1..] + b;
    if |a| == 1 {
      assert a[1..] + b == b;
    } else {
      JoinAppend(a[1..], b);
      Glue(a[0], Join(a[1..]), Join(b));
    }
  }

  lemma Glue(x: string, y: string, z: string)
    ensures x + "/" + (y + "/" + z) == x + "/" + y + "/" + z
  {
  }

  /** No name but the last is `.`, and no name but the last but one stands before a `..` that it could cancel. */
  predicate NamesNormal(segs: seq<string>) {
    && (forall i :: 0 <= i < |segs| - 1 ==> segs[i] != ".")
    && (forall i :: 0 <= i < |segs| - 2 && segs[i + 1] == ".." ==> segs[i] == "" || segs[i] == "..")
  }

  lemma {:induction false} SplitNames(s: string)
    ensures forall i :: 0 <= i < |Split(s)| ==> NoSlash(Split(s)[i])
    decreases |s|
  {
    var j := FirstSlash(s);
    if j < |s| {
      SplitNames(s[j + 1..]);
    }
  }

  /** A name between two others shows between two slashes. */
  lemma NameShows(segs: seq<string>, i: nat)
    requires i + 1 < |segs|
    ensures i == 0 ==> Join(segs) == segs[0] + "/" + Join(segs[1..])
    ensures i > 0 ==> Join(segs) == Join(segs[..i]) + "/" + (segs[i] + "/" + Join(segs[i + 1..]))
  {
    if i > 0 {
      assert segs == segs[..i] + segs[i..];
      JoinAppend(segs[..i], segs[i..]);
      assert segs[i..][1..] == segs[i + 1..];
    }
  }

  lemma DotShows(r: string, i: nat)
    requires i < |Split(r)| - 1 && Split(r)[i] == "."
    ensures !Normal(r)
  {
    hide Split, Join;
    var segs := Split(r);
    JoinSplit(r);
    NameShows(segs, i);
    if i > 0 {
      var a, b := Join(segs[..i]), Join(segs[i + 1..]);
      assert r == a + "/" + ("." + "/" + b);
      assert r[|a|..|a| + 3] == "/./";
      NotNormalDot(r, |a|);
    }
  }

  lemma UpShows(r: string, i: nat)
    requires i < |Split(r)| - 2 && Split(r)[i + 1] == ".." && Split(r)[i] != "" && Split(r)[i] != ".."
    ensures !Normal(r)
  {
    hide Split, Join;
    var segs := Split(r);
    JoinSplit(r);
    SplitNames(r);
    NameShows(segs, i);
    var rest := segs[i + 1..];
    NameShows(rest, 0);
    assert rest[1..] == segs[i + 2..];
    var seg, b := segs[i], Join(segs[i + 2..]);
    assert Join(rest) == ".." + "/" + b;
    if i > 0 {
      var a := Join(segs[..i]);
      assert r == a + "/" + (seg + "/" + (".." + "/" + b));
      var j := |a| + 1 + |seg|;
      assert r[|a|] == '/' && r[|a| + 1..j] == seg && r[j..j + 4] == "/../";
      NotNormalUp(r, |a|, j);
    } else {
      assert r == seg + "/" + (".." + "/" + b);
      assert r[..|seg|] == seg && r[|seg|..|seg| + 4] == "/../";
      assert UpFirst(r, |seg|);
    }
  }

  lemma DotSplits(r: string, i: nat)
    requires DotAt(r, i)
    ensures !NamesNormal(Split(r))
  {
    hide Split;
    var a, b := r[..i], r[i + 3..];
    assert r == a + "/" + "." + "/" + b by {
      assert r == a + r[i..i + 3] + b;
      assert "/./" == "/" + "." + "/";
    }
    SplitAtSlash(a, ".");
    SplitAtSlash(a + "/" + ".", b);
    SplitName(".");
    assert (Split(a) + ["."] + Split(b))[|Split(a)|] == ".";
  }

  lemma FirstDotSplits(r: string)
    requires "./" <= r
    ensures !NamesNormal(Split(r))
  {
    hide Split;
    assert r == "." + "/" + r[2..];
    SplitAtSlash(".", r[2..]);
    SplitName(".");
    assert (["."] + Split(r[2..]))[0] == ".";
  }

  lemma UpSplits(r: string, i: nat, j: nat)
    requires UpAt(r, i, j)
    ensures !NamesNormal(Split(r))
  {
    hide Split;
    var a, seg, b := r[..i], r[i + 1..j], r[j + 4..];
    UpSpelled(r, i, j);
    SplitAtSlash(seg, "..");
    SplitAtSlash(a, seg + "/" + "..");
    SplitAtSlash(a + "/" + (seg + "/" + ".."), b);
    SplitName(seg);
    SplitName("..");
    var segs := Split(a) + ([seg] + [".."]) + Split(b);
    assert segs[|Split(a)|] == seg && segs[|Split(a)| + 1] == "..";
  }

  lemma FirstUpSplits(r: string, j: nat)
    requires UpFirst(r, j)
    ensures !NamesNormal(Split(r))
  {
    hide Split;
    var seg, b := r[..j], r[j + 4..];
    UpFirstSpelled(r, j);
    SplitAtSlash(seg, "..");
    SplitAtSlash(seg + "/" + "..", b);
    SplitName(seg);
    SplitName("..");
    var segs := [seg] + [".."] + Split(b);
    assert segs[0] == seg && segs[1] == "..";
  }

  /** What the four expressions leave, said of the names between the slashes. */
  lemma NormalExactly(r: string)
    ensures Normal(r) <==> NamesNormal(Split(r))
  {
    hide Split, DotAt, UpAt, UpFirst;
    var segs := Split(r);
    if Normal(r) {
      forall i | 0 <= i < |segs| - 1 ensures segs[i] != "." {
        if segs[i] == "." {
          DotShows(r, i);
        }
      }
      forall i | 0 <= i < |segs| - 2 && segs[i + 1] == ".." ensures segs[i] == "" || segs[i] == ".." {
        if segs[i] != "" && segs[i] != ".." {
          UpShows(r, i);
        }
      }
    }
    if NamesNormal(segs) {
      forall i: nat ensures !DotAt(r, i) {
        if DotAt(r, i) {
          DotSplits(r, i);
        }
      }
      if "./" <= r {
        FirstDotSplits(r);
      }
      forall i: nat, j: nat ensures !UpAt(r, i, j) {
        if UpAt(r, i, j) {
          UpSplits(r, i, j);
        }
      }
      forall j: nat ensures !UpFirst(r, j) {
        if UpFirst(r, j) {
          FirstUpSplits(r, j);
        }
      }
    }
  }

  /** Following a name and then `..` leads back. */
  lemma NameAndUp()
    ensures Location("a/./b/../c") == ["a", "c"]
  {
    hide Split;
    SplitAtSlash("a/./b/..", "c");
    SplitAtSlash("a/./b", "..");
    SplitAtSlash("a/.", "b");
    SplitAtSlash("a", ".");
    OneName();
    assert "a/./b/../c" == "a/./b/.." + "/" + "c" && "a/./b/.." == "a/./b" + "/" + "..";
    assert "a/./b" == "a/." + "/" + "b" && "a/." == "a" + "/" + ".";
    assert Walk([], ["a", ".", "b", "..", "c"]) == ["a", "c"];
  }

  /** Leading `..` stay. */
  lemma LeadingUp()
    ensures Location("../a/../b") == ["..", "b"]
  {
    hide Split;
    SplitAtSlash("../a/..", "b");
    SplitAtSlash("../a", "..");
    SplitAtSlash("..", "a");
    OneName();
    assert "../a/../b" == "../a/.." + "/" + "b" && "../a/.." == "../a" + "/" + ".." && "../a" == ".." + "/" + "a";
    assert Walk([], ["..", "a", "..", "b"]) == ["..", "b"];
  }

  lemma OneName()
    ensures Split("a") == ["a"] && Split("b") == ["b"] && Split("c") == ["c"]
    ensures Split(".") == ["."] && Split("..") == [".."]
  {
    hide Split;
    SplitName("a");
    SplitName("b");
    SplitName("c");
    SplitName(".");
    SplitName("..");
  }

  // ---- the search for a match and the loops ----

  method FindDot(r: string) returns (found: bool, i: nat)
    ensures found ==> DotAt(r, i)
    ensures !found ==> NoDot(r)
  {
    i, found := 0, false;
    while i + 3 <= |r|
      invariant forall k :: 0 <= k < i ==> !DotAt(r, k)
    {
      if r[i..i + 3] == "/./" {
        return true, i;
      }
      i := i + 1;
    }
  }

  method FindUp(r: string) returns (found: bool, i: nat, j: nat)
    ensures found ==> UpAt(r, i, j)
    ensures !found ==> NoUp(r)
  {
    i, j, found := 0, 0, false;
    while i < |r|
      invariant forall x, y :: 0 <= x < i ==> !UpAt(r, x, y)
    {
      if r[i] == '/' {
        j := i + 1 + FirstSlash(r[i + 1..]);
        assert r[i + 1..j] == r[i + 1..][..j - (i + 1)];
        if j + 4 <= |r| && r[i + 1..j] != "" && r[i + 1..j] != ".." && r[j..j + 4] == "/../" {
          return true, i, j;
        }
        forall y: nat ensures !UpAt(r, i, y) {
          if UpAt(r, i, y) {
            UpEndsAtSlash(r, i, y);
          }
        }
      }
      i := i + 1;
    }
  }

  /** A cancellable name ends at the first slash after it starts. */
  lemma UpEndsAtSlash(r: string, i: nat, y: nat)
    requires UpAt(r, i, y)
    ensures y == i + 1 + FirstSlash(r[i + 1..])
  {
    var t := r[i + 1..];
    assert t[..y - (i + 1)] == r[i + 1..y];
    assert t[y - (i + 1)] == r[y] == r[y..y + 4][0];
    FirstSlashIs(t, y - (i + 1));
  }

  /** _normalizeModuleId: the same location, in normal form, and unchanged if it already was. */
  method Normalize(moduleId: string) returns (r: string)
    ensures Location(r) == Location(moduleId)
    ensures Normal(r)
    ensures Normal(moduleId) ==> r == moduleId
  {
    hide Location, NoDot, NoUp;
    r := moduleId;
    var dot, i := FindDot(r);
    while dot
      invariant Location(r) == Location(moduleId) && (Normal(moduleId) ==> r == moduleId)
      invariant if dot then DotAt(r, i) else NoDot(r)
      decreases |r|, dot
    {
      DropDot(r, i);
      NotNormalDot(r, i);
      r := r[..i] + "/" + r[i + 3..];
      dot, i := FindDot(r);
    }
    if "./" <= r {
      DropFirstDot(r);
      TailNoDot(r);
      r := r[2..];
    }
    var up, j: nat;
    up, i, j := FindUp(r);
    while up
      invariant Location(r) == Location(moduleId) && NoDot(r) && !("./" <= r) && (Normal(moduleId) ==> r == moduleId)
      invariant if up then UpAt(r, i, j) else NoUp(r)
      decreases |r|, up
    {
      DropUp(r, i, j);
      UpKeepsNoDot(r, i, j);
      NotNormalUp(r, i, j);
      r := r[..i] + "/" + r[j + 4..];
      up, i, j := FindUp(r);
    }
    j := FirstSlash(r);
    if j + 4 <= |r| && r[..j] != "" && r[..j] != ".." && r[j..j + 4] == "/../" {
      DropFirstUp(r, j);
      FirstUpNormal(r, j);
      r := r[j + 4..];
    } else {
      forall y: nat ensures !UpFirst(r, y) {
        if UpFirst(r, y) {
          assert r[y] == r[y..y + 4][0];
          FirstSlashIs(r, y);
        }
      }
    }
  }

  lemma NotNormalDot(r: string, i: nat)
    requires DotAt(r, i)
    ensures !Normal(r)
  {
  }

  lemma NotNormalUp(r: string, i: nat, j: nat)
    requires UpAt(r, i, j)
    ensures !Normal(r)
  {
  }

  /** Dropping a leading `./` exposes no second one. */
  lemma TailNoDot(r: string)
    requires NoDot(r) && "./" <= r
    ensures NoDot(r[2..]) && !("./" <= r[2..])
  {
    SuffixClean(r, 2);
    SlashThenDot(r, 2);
  }
}
