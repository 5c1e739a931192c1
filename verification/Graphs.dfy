/** Finite directed graphs as sets of edges, with walks and reachability. */
module Graphs {

  type Graph<T(==)> = set<(T, T)>

  /** `p` lists the vertices visited after `a`; the walk ends at `b`. */
  ghost predicate IsWalk<T>(g: Graph<T>, a: T, p: seq<T>, b: T) {
    if p == [] then a == b else (a, p[0]) in g && IsWalk(g, p[0], p[1..], b)
  }

  /** A walk of at least one edge. */
  ghost predicate Reach<T(!new)>(g: Graph<T>, a: T, b: T) {
    exists p: seq<T> :: p != [] && IsWalk(g, a, p, b)
  }

  ghost predicate ReachStar<T(!new)>(g: Graph<T>, a: T, b: T) {
    a == b || Reach(g, a, b)
  }

  ghost predicate Acyclic<T(!new)>(g: Graph<T>) {
    forall x: T :: !Reach(g, x, x)
  }

  lemma EdgeReach<T(!new)>(g: Graph<T>, a: T, b: T)
    requires (a, b) in g
    ensures Reach(g, a, b)
  {
    assert IsWalk(g, b, [b][1..], b);
    assert IsWalk(g, a, [b], b);
  }

  lemma {:induction false} WalkAppend<T>(g: Graph<T>, a: T, p: seq<T>, b: T, q: seq<T>, c: T)
    requires IsWalk(g, a, p, b) && IsWalk(g, b, q, c)
    ensures IsWalk(g, a, p + q, c)
  {
    if p == [] {
      assert p + q == q;
    } else {
      WalkAppend(g, p[0], p[1..], b, q, c);
      assert (p + q)[1..] == p[1..] + q;
    }
  }

  lemma ReachTrans<T(!new)>(g: Graph<T>, a: T, b: T, c: T)
    requires ReachStar(g, a, b) && ReachStar(g, b, c)
    ensures ReachStar(g, a, c)
    ensures Reach(g, a, b) || Reach(g, b, c) ==> Reach(g, a, c)
  {
    if Reach(g, a, b) && Reach(g, b, c) {
      var p :| p != [] && IsWalk(g, a, p, b);
      var q :| q != [] && IsWalk(g, b, q, c);
      WalkAppend(g, a, p, b, q, c);
    }
  }

  lemma {:induction false} WalkMono<T>(g: Graph<T>, h: Graph<T>, a: T, p: seq<T>, b: T)
    requires g <= h && IsWalk(g, a, p, b)
    ensures IsWalk(h, a, p, b)
  {
    if p != [] {
      WalkMono(g, h, p[0], p[1..], b);
    }
  }

  lemma ReachMono<T(!new)>(g: Graph<T>, h: Graph<T>, a: T, b: T)
    requires g <= h && Reach(g, a, b)
    ensures Reach(h, a, b)
  {
    var p :| p != [] && IsWalk(g, a, p, b);
    WalkMono(g, h, a, p, b);
  }

  lemma AcyclicMono<T(!new)>(g: Graph<T>, h: Graph<T>)
    requires g <= h && Acyclic(h)
    ensures Acyclic(g)
  {
    forall x: T ensures !Reach(g, x, x) {
      if Reach(g, x, x) {
        ReachMono(g, h, x, x);
      }
    }
  }

  /** A walk over one extra edge either avoids it or splits at it. */
  lemma {:induction false} WalkSplit<T(!new)>(g: Graph<T>, u: T, v: T, a: T, p: seq<T>, b: T)
    requires IsWalk(g + {(u, v)}, a, p, b)
    ensures ReachStar(g, a, b) || (ReachStar(g, a, u) && ReachStar(g, v, b))
    ensures p != [] && !Reach(g, a, b) ==> ReachStar(g, a, u) && ReachStar(g, v, b)
    decreases p
  {
    if p != [] {
      var x := p[0];
      WalkSplit(g, u, v, x, p[1..], b);
      if (a, x) in g {
        EdgeReach(g, a, x);
        if ReachStar(g, x, b) {
          ReachTrans(g, a, x, b);
        } else {
          ReachTrans(g, a, x, u);
        }
      }
    }
  }

  /** Adding the edge u -> v keeps a graph acyclic unless v already leads back to u. */
  lemma AddEdgeAcyclic<T(!new)>(g: Graph<T>, u: T, v: T)
    requires Acyclic(g) && !ReachStar(g, v, u)
    ensures Acyclic(g + {(u, v)})
  {
    forall x: T ensures !Reach(g + {(u, v)}, x, x) {
      if Reach(g + {(u, v)}, x, x) {
        var p :| p != [] && IsWalk(g + {(u, v)}, x, p, x);
        WalkSplit(g, u, v, x, p, x);
        ReachTrans(g, v, x, u);
      }
    }
  }

  /** The first edge of a walk. */
  lemma FirstEdge<T(!new)>(g: Graph<T>, a: T, b: T) returns (x: T)
    requires Reach(g, a, b)
    ensures (a, x) in g && ReachStar(g, x, b)
  {
    var p :| p != [] && IsWalk(g, a, p, b);
    x := p[0];
    var q := p[1..];
    assert IsWalk(g, x, q, b);
    if q != [] {
      assert Reach(g, x, b);
    }
  }

  /** A set closed under the edges contains everything reachable from its members. */
  lemma {:induction false} ClosedWalk<T>(g: Graph<T>, s: set<T>, a: T, p: seq<T>, b: T)
    requires a in s && IsWalk(g, a, p, b)
    requires forall e :: e in g && e.0 in s ==> e.1 in s
    ensures b in s
    decreases p
  {
    if p != [] {
      assert (a, p[0]) in g && (a, p[0]).0 in s;
      ClosedWalk(g, s, p[0], p[1..], b);
    }
  }

  /** A walk that starts in a closed set runs inside it. */
  lemma {:induction false} WalkInside<T>(g: Graph<T>, h: Graph<T>, s: set<T>, a: T, p: seq<T>, b: T)
    requires a in s && IsWalk(g, a, p, b)
    requires forall e :: e in g && e.0 in s ==> e.1 in s && e in h
    ensures IsWalk(h, a, p, b) && b in s
    decreases p
  {
    if p != [] {
      assert (a, p[0]) in g && (a, p[0]).0 in s;
      WalkInside(g, h, s, p[0], p[1..], b);
    }
  }

  /** A set closed against the edges contains everything that reaches its members. */
  lemma {:induction false} CoClosedWalk<T>(g: Graph<T>, s: set<T>, a: T, p: seq<T>, b: T)
    requires b in s && IsWalk(g, a, p, b)
    requires forall e :: e in g && e.1 in s ==> e.0 in s
    ensures a in s
    decreases p
  {
    if p != [] {
      CoClosedWalk(g, s, p[0], p[1..], b);
      assert (a, p[0]) in g && (a, p[0]).1 in s;
    }
  }

  /**
   * In a finite acyclic graph, following successors cannot go on for ever: if every
   * vertex of `s` is an exit or has a successor in `s`, then each one leads to an exit.
   */
  lemma LeadsToExit<T(!new)>(g: Graph<T>, s: set<T>, exits: set<T>, x: T, seen: set<T>) returns (e: T)
    requires Acyclic(g) && x in s && seen <= s && x !in seen
    requires forall y :: y in s && y !in exits ==> exists z :: z in s && (y, z) in g
    requires forall y :: y in seen ==> Reach(g, y, x)
    ensures e in exits && e in s && ReachStar(g, x, e)
    decreases s - seen
  {
    if x in exits {
      e := x;
    } else {
      var z :| z in s && (x, z) in g;
      EdgeReach(g, x, z);
      forall y | y in seen + {x} ensures Reach(g, y, z) {
        if y != x {
          ReachTrans(g, y, x, z);
        }
      }
      e := LeadsToExit(g, s, exits, z, seen + {x});
      ReachTrans(g, x, z, e);
    }
  }
}
