/** Directed graphs over node ids: paths, reachability, and what acyclic means. */
module Graphs {
  type Id = string

  /** Adjacency: each node with the list of nodes it has an edge to. */
  type Edges = map<Id, seq<Id>>

  function Elems(s: seq<Id>): set<Id> {
    set x | x in s
  }

  ghost predicate Distinct(s: seq<Id>) {
    forall i, j :: 0 <= i < j < |s| ==> s[i] != s[j]
  }

  lemma ElemsSnoc(s: seq<Id>, x: Id)
    ensures Elems(s + [x]) == Elems(s) + {x}
  {}

  lemma {:induction false} DistinctSize(s: seq<Id>)
    requires Distinct(s)
    ensures |Elems(s)| == |s|
  {
    if s != [] {
      var last := s[|s| - 1];
      assert s == s[..|s| - 1] + [last];
      DistinctSize(s[..|s| - 1]);
      ElemsSnoc(s[..|s| - 1], last);
    }
  }

  predicate Step(g: Edges, a: Id, b: Id) {
    a in g && b in g[a]
  }

  /** The nodes in `p`, visited in order, lead from `a` to `b`. */
  ghost predicate Via(g: Edges, a: Id, p: seq<Id>, b: Id)
    decreases |p|
  {
    if p == [] then a == b else Step(g, a, p[0]) && Via(g, p[0], p[1..], b)
  }

  /** Zero or more steps lead from `a` to `b`. */
  ghost predicate Reach(g: Edges, a: Id, b: Id) {
    exists p :: Via(g, a, p, b)
  }

  /** One or more steps lead from `a` to `b`. */
  ghost predicate ReachPlus(g: Edges, a: Id, b: Id) {
    exists d :: Step(g, a, d) && Reach(g, d, b)
  }

  ghost predicate Acyclic(g: Edges) {
    forall v :: !ReachPlus(g, v, v)
  }

  /** Every edge stays inside the graph's own nodes. */
  ghost predicate Closed(g: Edges) {
    forall a, b :: Step(g, a, b) ==> b in g
  }

  lemma ReachSelf(g: Edges, a: Id)
    ensures Reach(g, a, a)
  {
    assert Via(g, a, [], a);
  }

  lemma ReachCons(g: Edges, a: Id, d: Id, b: Id)
    requires Step(g, a, d) && Reach(g, d, b)
    ensures Reach(g, a, b)
  {
    var p :| Via(g, d, p, b);
    assert ([d] + p)[1..] == p;
    assert Via(g, a, [d] + p, b);
  }

  lemma ReachOne(g: Edges, a: Id, b: Id)
    requires Step(g, a, b)
    ensures Reach(g, a, b)
  {
    ReachSelf(g, b);
    ReachCons(g, a, b, b);
  }

  lemma ReachTransitive(g: Edges, a: Id, b: Id, c: Id)
    requires Reach(g, a, b) && Reach(g, b, c)
    ensures Reach(g, a, c)
  {
    var p :| Via(g, a, p, b);
    ReachPrepend(g, a, p, b, c);
  }

  lemma {:induction false} ReachPrepend(g: Edges, a: Id, p: seq<Id>, b: Id, c: Id)
    requires Via(g, a, p, b) && Reach(g, b, c)
    ensures Reach(g, a, c)
    decreases |p|
  {
    if p != [] {
      ReachPrepend(g, p[0], p[1..], b, c);
      ReachCons(g, a, p[0], c);
    }
  }

  lemma ReachSnoc(g: Edges, a: Id, b: Id, c: Id)
    requires Reach(g, a, b) && Step(g, b, c)
    ensures Reach(g, a, c)
  {
    ReachOne(g, b, c);
    ReachTransitive(g, a, b, c);
  }

  lemma ReachUncons(g: Edges, a: Id, b: Id)
    requires Reach(g, a, b) && a != b
    ensures ReachPlus(g, a, b)
  {
    var p :| Via(g, a, p, b);
    assert Step(g, a, p[0]) && Via(g, p[0], p[1..], b);
  }

  lemma ReachPlusReach(g: Edges, a: Id, b: Id, c: Id)
    requires ReachPlus(g, a, b) && Reach(g, b, c)
    ensures ReachPlus(g, a, c) && Reach(g, a, c)
  {
    var d :| Step(g, a, d) && Reach(g, d, b);
    ReachTransitive(g, d, b, c);
    ReachCons(g, a, d, c);
  }

  lemma ReachReachPlus(g: Edges, a: Id, b: Id, c: Id)
    requires Reach(g, a, b) && ReachPlus(g, b, c)
    ensures ReachPlus(g, a, c)
  {
    if a != b {
      ReachUncons(g, a, b);
      var d :| Step(g, b, d) && Reach(g, d, c);
      ReachCons(g, b, d, c);
      ReachPlusReach(g, a, b, c);
    }
  }

  /** A path that leaves a set crosses its border on one edge. */
  lemma Crossing(g: Edges, s: set<Id>, a: Id, b: Id) returns (x: Id, y: Id)
    requires Reach(g, a, b) && a in s && b !in s
    ensures x in s && y !in s && Step(g, x, y) && Reach(g, a, x) && Reach(g, y, b)
  {
    var p :| Via(g, a, p, b);
    x, y := CrossingOn(g, s, a, p, b);
  }

  lemma {:induction false} CrossingOn(g: Edges, s: set<Id>, a: Id, p: seq<Id>, b: Id) returns (x: Id, y: Id)
    requires Via(g, a, p, b) && a in s && b !in s
    ensures x in s && y !in s && Step(g, x, y) && Reach(g, a, x) && Reach(g, y, b)
    decreases |p|
  {
    assert p != [];
    if p[0] in s {
      x, y := CrossingOn(g, s, p[0], p[1..], b);
      ReachCons(g, a, p[0], x);
    } else {
      x, y := a, p[0];
      ReachSelf(g, x);
      assert Via(g, p[0], p[1..], b);
    }
  }

  /** A set closed under edges holds everything its members reach. */
  lemma ClosedUnder(g: Edges, s: set<Id>, a: Id, b: Id)
    requires forall x, y :: x in s && Step(g, x, y) ==> y in s
    requires a in s && Reach(g, a, b)
    ensures b in s
  {
    if b !in s { var x, y := Crossing(g, s, a, b); }
  }

  ghost function Descendants(g: Edges, a: Id): set<Id> {
    set b | b in g.Keys && Reach(g, a, b)
  }

  /** In an acyclic graph the descendants shrink strictly along every edge. */
  lemma DescendantsShrink(g: Edges, a: Id, b: Id)
    requires Acyclic(g) && Step(g, a, b)
    ensures |Descendants(g, b)| < |Descendants(g, a)|
  {
    ReachSelf(g, a);
    forall c | c in Descendants(g, b) ensures c in Descendants(g, a) { ReachCons(g, a, b, c); }
    assert a !in Descendants(g, b) by {
      if Reach(g, b, a) { assert ReachPlus(g, a, a); }
    }
    assert Descendants(g, b) < Descendants(g, a);
    SmallerSet(Descendants(g, b), Descendants(g, a));
  }

  lemma SmallerSet<T>(a: set<T>, b: set<T>)
    requires a < b
    ensures |a| < |b|
  {
    var x :| x in b && x !in a;
    SubsetSize(a, b - {x});
  }

  lemma {:induction false} SubsetSize<T>(a: set<T>, b: set<T>)
    requires a <= b
    ensures |a| <= |b|
  {
    if a != {} {
      var x :| x in a;
      SubsetSize(a - {x}, b - {x});
    }
  }

  /** A set of nodes each with an edge into the set has a cycle through it. */
  lemma SourceExists(g: Edges, s: set<Id>) returns (a: Id)
    requires Acyclic(g) && s != {}
    ensures a in s && forall b :: b in s ==> !Step(g, a, b)
  {
    a :| a in s;
    while exists b :: b in s && Step(g, a, b)
      invariant a in s
      decreases |Descendants(g, a)|
    {
      var b :| b in s && Step(g, a, b);
      DescendantsShrink(g, a, b);
      a := b;
    }
  }
}
