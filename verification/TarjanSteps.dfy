/** The iterative Tarjan search as a value: its invariant, and why every step of the search keeps it.
 *
 * `stack` holds the nodes whose component is still open, `work` those of them whose frame is still on
 * the work stack; both are ordered by `index`. `cursor[x]` counts the children of `x` looked at so far.
 */
module TarjanSteps {
  import opened Graphs

  datatype Search = Search(
    index: map<Id, nat>,
    low: map<Id, nat>,
    stack: set<Id>,
    work: set<Id>,
    cursor: map<Id, nat>,
    counter: nat)
  {
    /** Nodes whose component has been popped. */
    ghost function Done(): set<Id> {
      index.Keys - stack
    }

    /** The edge from `x` to `y` has been looked at. */
    ghost predicate Looked(g: Edges, x: Id, y: Id) {
      x in g && x in cursor && exists j :: 0 <= j < cursor[x] && j < |g[x]| && g[x][j] == y
    }

    /** `p` is the open node entered last. */
    ghost predicate IsTop(p: Id) {
      p in work && work <= index.Keys && forall w :: w in work ==> index[w] <= index[p]
    }
  }

  ghost predicate Mutual(g: Edges, a: Id, b: Id) {
    Reach(g, a, b) && Reach(g, b, a)
  }

  /** A maximal set of mutually reachable nodes: a strongly connected component. */
  ghost predicate IsComponent(g: Edges, c: set<Id>) {
    c != {} && forall a, b :: a in c ==> (b in c <==> Mutual(g, a, b))
  }

  // ---------------------------------------------------------------- invariant

  ghost predicate Shape(g: Edges, s: Search) {
    && s.work <= s.stack <= s.index.Keys <= g.Keys
    && s.low.Keys == s.index.Keys && s.cursor.Keys == s.index.Keys
    && (forall x :: x in s.index ==> s.index[x] < s.counter)
    && (forall x :: x in s.index ==> s.cursor[x] <= |g[x]|)
    && (forall x, y :: x in s.index && y in s.index && s.index[x] == s.index[y] ==> x == y)
    && (forall x :: x in s.index && x !in s.work ==> s.cursor[x] == |g[x]|)
  }

  ghost predicate DoneClosed(g: Edges, s: Search) {
    forall x, y :: x in s.Done() && Step(g, x, y) ==> y in s.Done()
  }

  ghost predicate LookedSeen(g: Edges, s: Search) {
    forall x, y :: s.Looked(g, x, y) ==> y in s.index
  }

  ghost predicate OpenBelow(g: Edges, s: Search, x: Id)
    requires s.work <= s.index.Keys && x in s.index
  {
    exists w :: w in s.work && s.index[w] <= s.index[x] && Reach(g, x, w)
  }

  /** Every node on the stack reaches an open node entered no later. */
  ghost predicate ReachesOpen(g: Edges, s: Search)
    requires Shape(g, s)
  {
    forall x {:trigger OpenBelow(g, s, x)} :: x in s.stack ==> OpenBelow(g, s, x)
  }

  /** Every open node reaches all of the stack above it. */
  ghost predicate OpenReaches(g: Edges, s: Search)
    requires Shape(g, s)
  {
    forall w, x {:trigger Reach(g, w, x)} :: w in s.work && x in s.stack && s.index[w] <= s.index[x] ==> Reach(g, w, x)
  }

  ghost predicate LowWitness(g: Edges, s: Search, w: Id)
    requires s.stack <= s.index.Keys && w in s.index && w in s.low
  {
    s.low[w] <= s.index[w] && exists u :: u in s.stack && s.index[u] == s.low[w] && Reach(g, w, u)
  }

  /** The low value of an open node is the index of a stack node it reaches. */
  ghost predicate LowReached(g: Edges, s: Search)
    requires Shape(g, s)
  {
    forall w {:trigger LowWitness(g, s, w)} :: w in s.work ==> LowWitness(g, s, w)
  }

  /** `w` is the last open node entered no later than `x`. */
  ghost predicate Owns(s: Search, w: Id, x: Id)
    requires s.work <= s.index.Keys && s.stack <= s.index.Keys
  {
    w in s.work && x in s.stack && s.index[w] <= s.index[x] &&
    forall v :: v in s.work && s.index[v] <= s.index[x] ==> s.index[v] <= s.index[w]
  }

  /** An open node's low value is below every stack node that the nodes it owns point at. */
  ghost predicate LowBounds(g: Edges, s: Search)
    requires Shape(g, s)
  {
    forall w, x, y :: Owns(s, w, x) && s.Looked(g, x, y) && y in s.stack ==> s.low[w] <= s.index[y]
  }

  ghost predicate Core(g: Edges, s: Search) {
    && Shape(g, s) && DoneClosed(g, s) && LookedSeen(g, s)
    && ReachesOpen(g, s) && OpenReaches(g, s) && LowReached(g, s) && LowBounds(g, s)
  }

  lemma CoreShape(g: Edges, s: Search)
    requires Core(g, s)
    ensures Shape(g, s)
  {}

  // ----------------------------------------------------------- entering a node

  /** The top frame moves past the child it is at. */
  function PastChild(s: Search, p: Id): Search
    requires p in s.cursor
  {
    s.(cursor := s.cursor[p := s.cursor[p] + 1])
  }

  function Entered(s: Search, c: Id): Search {
    s.(index := s.index[c := s.counter], low := s.low[c := s.counter], cursor := s.cursor[c := 0],
       stack := s.stack + {c}, work := s.work + {c}, counter := s.counter + 1)
  }

  /** The child that `p`'s frame is at. */
  ghost predicate AtChild(g: Edges, s: Search, p: Id, c: Id) {
    p in g && p in s.cursor && s.cursor[p] < |g[p]| && g[p][s.cursor[p]] == c
  }

  lemma LookedPast(g: Edges, s: Search, p: Id, c: Id, x: Id, y: Id)
    requires AtChild(g, s, p, c) && PastChild(s, p).Looked(g, x, y)
    ensures s.Looked(g, x, y) || (x == p && y == c)
  {
    var t := PastChild(s, p);
    var j :| 0 <= j < t.cursor[x] && j < |g[x]| && g[x][j] == y;
  }

  lemma LookedEntered(g: Edges, s: Search, c: Id, x: Id, y: Id)
    requires Entered(s, c).Looked(g, x, y)
    ensures x != c && s.Looked(g, x, y)
  {
    var t := Entered(s, c);
    var j :| 0 <= j < t.cursor[x] && j < |g[x]| && g[x][j] == y;
  }

  lemma OpenBelowEntered(g: Edges, s: Search, c: Id, x: Id)
    requires s.work <= s.index.Keys && c !in s.index && x in s.index && OpenBelow(g, s, x)
    ensures OpenBelow(g, Entered(s, c), x)
  {
    hide Reach;
    var w :| w in s.work && s.index[w] <= s.index[x] && Reach(g, x, w);
    assert w in Entered(s, c).work;
  }

  lemma OpenBelowNew(g: Edges, s: Search, c: Id)
    requires s.work <= s.index.Keys
    ensures OpenBelow(g, Entered(s, c), c)
  {
    ReachSelf(g, c);
    assert c in Entered(s, c).work;
  }

  /** Entering keeps the reachability half of the invariant when the top open node has an edge to `c`. */
  lemma EnterReaches(g: Edges, s: Search, p: Id, c: Id)
    requires Shape(g, s) && Shape(g, Entered(s, c)) && c !in s.index
    requires ReachesOpen(g, s) && OpenReaches(g, s)
    requires s.work != {} ==> s.IsTop(p) && Step(g, p, c)
    ensures ReachesOpen(g, Entered(s, c)) && OpenReaches(g, Entered(s, c))
  {
    hide OpenBelow, Reach;
    var t := Entered(s, c);
    forall x {:trigger OpenBelow(g, t, x)} | x in t.stack ensures OpenBelow(g, t, x) {
      if x == c { OpenBelowNew(g, s, c); } else { OpenBelowEntered(g, s, c, x); }
    }
    forall w, x | w in t.work && x in t.stack && t.index[w] <= t.index[x] ensures Reach(g, w, x) {
      ReachEntered(g, s, p, c, w, x);
    }
  }

  lemma ReachEntered(g: Edges, s: Search, p: Id, c: Id, w: Id, x: Id)
    requires Shape(g, s) && Shape(g, Entered(s, c)) && c !in s.index && OpenReaches(g, s)
    requires s.work != {} ==> s.IsTop(p) && Step(g, p, c)
    requires w in Entered(s, c).work && x in Entered(s, c).stack && Entered(s, c).index[w] <= Entered(s, c).index[x]
    ensures Reach(g, w, x)
  {
    hide Reach;
    if w == c {
      assert x == c;
      ReachSelf(g, c);
    } else if x == c {
      assert w in s.work && p in s.stack && s.index[w] <= s.index[p];
      ReachSnoc(g, w, p, c);
    }
  }

  lemma WitnessEntered(g: Edges, s: Search, c: Id, w: Id)
    requires s.stack <= s.index.Keys && c !in s.index && w in s.index && w in s.low && LowWitness(g, s, w)
    ensures LowWitness(g, Entered(s, c), w)
  {
    hide Reach;
    var u :| u in s.stack && s.index[u] == s.low[w] && Reach(g, w, u);
    assert u in Entered(s, c).stack;
  }

  lemma WitnessNew(g: Edges, s: Search, c: Id)
    requires s.stack <= s.index.Keys
    ensures LowWitness(g, Entered(s, c), c)
  {
    ReachSelf(g, c);
    assert c in Entered(s, c).stack;
  }

  lemma EnterLow(g: Edges, s: Search, c: Id)
    requires Shape(g, s) && Shape(g, Entered(s, c)) && c !in s.index && LowReached(g, s)
    ensures LowReached(g, Entered(s, c))
  {
    hide LowWitness;
    var t := Entered(s, c);
    forall w {:trigger LowWitness(g, t, w)} | w in t.work ensures LowWitness(g, t, w) {
      if w == c { WitnessNew(g, s, c); } else { WitnessEntered(g, s, c, w); }
    }
  }

  /** Entering a node changes who owns nothing but that node. */
  lemma OwnsEntered(g: Edges, s: Search, c: Id, w: Id, x: Id)
    requires Shape(g, s) && Shape(g, Entered(s, c)) && c !in s.index && Owns(Entered(s, c), w, x) && x != c
    ensures w != c && Owns(s, w, x)
  {
    var t := Entered(s, c);
    assert w != c;
    forall v | v in s.work && s.index[v] <= s.index[x] ensures s.index[v] <= s.index[w] {
      assert v in t.work && t.index[v] <= t.index[x];
    }
  }

  lemma BoundEntered(g: Edges, s: Search, c: Id, w: Id, x: Id, y: Id)
    requires Shape(g, s) && Shape(g, Entered(s, c)) && c !in s.index && LowReached(g, s)
    requires Owns(s, w, x) && s.Looked(g, x, y) && y in s.stack ==> s.low[w] <= s.index[y]
    requires Owns(Entered(s, c), w, x) && Entered(s, c).Looked(g, x, y) && y in Entered(s, c).stack
    ensures Entered(s, c).low[w] <= Entered(s, c).index[y]
  {
    hide LowReached;
    LookedEntered(g, s, c, x, y);
    OwnsEntered(g, s, c, w, x);
    OwnedLow(g, s, w, x);
  }

  lemma EnterBounds(g: Edges, s: Search, c: Id)
    requires Shape(g, s) && Shape(g, Entered(s, c)) && c !in s.index && LowReached(g, s)
    requires forall w, x, y :: Owns(s, w, x) && s.Looked(g, x, y) && y in s.stack ==> s.low[w] <= s.index[y]
    ensures LowBounds(g, Entered(s, c))
  {
    hide LowReached;
    var t := Entered(s, c);
    forall w, x, y | Owns(t, w, x) && t.Looked(g, x, y) && y in t.stack ensures t.low[w] <= t.index[y] {
      BoundEntered(g, s, c, w, x, y);
    }
  }

  lemma OwnedLow(g: Edges, s: Search, w: Id, x: Id)
    requires Shape(g, s) && LowReached(g, s) && Owns(s, w, x)
    ensures w in s.work && x in s.stack && s.low[w] <= s.index[w] < s.counter
  {
    assert LowWitness(g, s, w);
  }

  lemma EnterShape(g: Edges, s: Search, c: Id)
    requires Shape(g, s) && c in g && c !in s.index
    ensures Shape(g, Entered(s, c))
  {
    EnterNumbers(g, s, c);
    EnterCursors(g, s, c);
  }

  /** The new node's number is its own. */
  lemma EnterNumbers(g: Edges, s: Search, c: Id)
    requires Shape(g, s) && c in g && c !in s.index
    ensures var t := Entered(s, c);
            && (forall x :: x in t.index ==> t.index[x] < t.counter)
            && (forall x, y :: x in t.index && y in t.index && t.index[x] == t.index[y] ==> x == y)
  {}

  /** It has looked at no child yet, and is open. */
  lemma EnterCursors(g: Edges, s: Search, c: Id)
    requires Shape(g, s) && c in g && c !in s.index
    ensures var t := Entered(s, c);
            && t.cursor.Keys == t.index.Keys <= g.Keys
            && (forall x :: x in t.index ==> t.cursor[x] <= |g[x]|)
            && (forall x :: x in t.index && x !in t.work ==> t.cursor[x] == |g[x]|)
  {}

  lemma EnterDone(g: Edges, s: Search, c: Id)
    requires DoneClosed(g, s) && c !in s.index
    ensures Entered(s, c).Done() == s.Done() && DoneClosed(g, Entered(s, c))
  {
    assert Entered(s, c).Done() == s.Done();
  }

  lemma EnterLooked(g: Edges, s: Search, c: Id)
    requires LookedSeen(g, s) && c !in s.index
    ensures LookedSeen(g, Entered(s, c))
  {
    forall x, y | Entered(s, c).Looked(g, x, y) ensures y in Entered(s, c).index { LookedEntered(g, s, c, x, y); }
  }

  lemma EnterRoot(g: Edges, s: Search, c: Id)
    requires Core(g, s) && c in g && c !in s.index && s.work == {}
    ensures Core(g, Entered(s, c)) && Entered(s, c).Done() == s.Done()
  {
    hide Reach, OpenBelow, LowWitness, Owns, ReachesOpen, OpenReaches, LowReached, Shape, DoneClosed, LookedSeen;
    EnterShape(g, s, c);
    EnterDone(g, s, c);
    EnterLooked(g, s, c);
    EnterReaches(g, s, c, c);
    EnterLow(g, s, c);
    EnterBounds(g, s, c);
  }

  lemma EnterChildLooked(g: Edges, s: Search, p: Id, c: Id)
    requires LookedSeen(g, s) && p in s.cursor && c in g && c !in s.index && AtChild(g, s, p, c)
    ensures LookedSeen(g, Entered(PastChild(s, p), c))
  {
    var m := PastChild(s, p);
    forall x, y | Entered(m, c).Looked(g, x, y) ensures y in Entered(m, c).index {
      LookedEntered(g, m, c, x, y);
      LookedPast(g, s, p, c, x, y);
    }
  }

  lemma PastTop(g: Edges, s: Search, p: Id, c: Id)
    requires s.IsTop(p) && AtChild(g, s, p, c)
    ensures PastChild(s, p).IsTop(p) && Step(g, p, c)
  {}

  lemma PastDone(g: Edges, s: Search, p: Id)
    requires DoneClosed(g, s) && p in s.cursor
    ensures PastChild(s, p).Done() == s.Done() && DoneClosed(g, PastChild(s, p))
  {}

  lemma EnterChild(g: Edges, s: Search, p: Id, c: Id)
    requires Core(g, s) && c in g && c !in s.index && s.IsTop(p) && AtChild(g, s, p, c)
    ensures Core(g, Entered(PastChild(s, p), c)) && Entered(PastChild(s, p), c).Done() == s.Done()
  {
    hide Reach, OpenBelow, LowWitness, Owns, ReachesOpen, OpenReaches, LowReached, DoneClosed, LookedSeen;
    var m := PastChild(s, p);
    PastTop(g, s, p, c);
    PastShape(g, s, p, c);
    EnterShape(g, m, c);
    PastDone(g, s, p);
    EnterDone(g, m, c);
    EnterChildLooked(g, s, p, c);
    PastReaches(g, s, p, c);
    EnterReaches(g, m, p, c);
    EnterLow(g, m, c);
    PastBounds(g, s, p, c);
    EnterBounds(g, m, c);
  }

  lemma PastBounds(g: Edges, s: Search, p: Id, c: Id)
    requires Shape(g, s) && p in s.work && AtChild(g, s, p, c) && c !in s.stack && LowBounds(g, s)
    ensures var m := PastChild(s, p);
            forall w, x, y :: Owns(m, w, x) && m.Looked(g, x, y) && y in m.stack ==> m.low[w] <= m.index[y]
  {
    var m := PastChild(s, p);
    forall w, x, y | Owns(m, w, x) && m.Looked(g, x, y) && y in m.stack ensures m.low[w] <= m.index[y] {
      LookedPast(g, s, p, c, x, y);
      assert Owns(s, w, x);
    }
  }

  lemma PastShape(g: Edges, s: Search, p: Id, c: Id)
    requires Shape(g, s) && p in s.work && AtChild(g, s, p, c)
    ensures Shape(g, PastChild(s, p)) && PastChild(s, p).Done() == s.Done()
  {}

  lemma PastReaches(g: Edges, s: Search, p: Id, c: Id)
    requires Shape(g, s) && p in s.work && AtChild(g, s, p, c)
    requires ReachesOpen(g, s) && OpenReaches(g, s) && LowReached(g, s)
    ensures Shape(g, PastChild(s, p)) && PastChild(s, p).Done() == s.Done()
    ensures ReachesOpen(g, PastChild(s, p)) && OpenReaches(g, PastChild(s, p)) && LowReached(g, PastChild(s, p))
  {
    PastShape(g, s, p, c);
    var m := PastChild(s, p);
    forall x {:trigger OpenBelow(g, m, x)} | x in m.stack ensures OpenBelow(g, m, x) { assert OpenBelow(g, s, x); }
    forall w {:trigger LowWitness(g, m, w)} | w in m.work ensures LowWitness(g, m, w) { assert LowWitness(g, s, w); }
  }

  // --------------------------------------------- moving past a child seen before

  function Min(a: nat, b: nat): nat {
    if a <= b then a else b
  }

  function Lowered(s: Search, p: Id, v: nat): Search
    requires p in s.low
  {
    s.(low := s.low[p := Min(s.low[p], v)])
  }

  /** A child met again: the low value drops to its index when it is still on the stack. */
  function Moved(s: Search, p: Id, c: Id): Search
    requires p in s.cursor && p in s.low && c in s.index
  {
    if c in s.stack then Lowered(PastChild(s, p), p, s.index[c]) else PastChild(s, p)
  }

  lemma Move(g: Edges, s: Search, p: Id, c: Id)
    requires Core(g, s) && s.IsTop(p) && AtChild(g, s, p, c) && c in s.index
    ensures Core(g, Moved(s, p, c)) && Moved(s, p, c).Done() == s.Done()
  {
    var m := PastChild(s, p);
    var t := Moved(s, p, c);
    PastReaches(g, s, p, c);
    assert t.Done() == s.Done();
    forall x, y | t.Looked(g, x, y) ensures y in t.index {
      assert m.Looked(g, x, y);
      LookedPast(g, s, p, c, x, y);
    }
    forall x {:trigger OpenBelow(g, t, x)} | x in t.stack ensures OpenBelow(g, t, x) { assert OpenBelow(g, m, x); }
    MoveLow(g, s, p, c);
    MoveBounds(g, s, p, c);
  }

  lemma MoveLow(g: Edges, s: Search, p: Id, c: Id)
    requires Shape(g, s) && p in s.work && AtChild(g, s, p, c) && c in s.index && Shape(g, Moved(s, p, c))
    requires LowReached(g, s)
    ensures LowReached(g, Moved(s, p, c))
  {
    var t := Moved(s, p, c);
    ReachOne(g, p, c);
    forall w {:trigger LowWitness(g, t, w)} | w in t.work ensures LowWitness(g, t, w) {
      assert LowWitness(g, s, w);
      if t.low[w] != s.low[w] {
        assert w == p && c in t.stack && t.index[c] == t.low[w];
      }
    }
  }

  /** One bound after the move, from the bounds before it. */
  lemma MovedBound(g: Edges, s: Search, p: Id, c: Id, w: Id, x: Id, y: Id)
    requires Shape(g, s) && p in s.work && AtChild(g, s, p, c) && c in s.index && LowBounds(g, s)
    requires Owns(Moved(s, p, c), w, x) && Moved(s, p, c).Looked(g, x, y) && y in s.stack
    ensures w in s.low && Moved(s, p, c).low[w] <= s.index[y]
  {
    LookedPast(g, s, p, c, x, y) by { assert PastChild(s, p).Looked(g, x, y); }
    assert Owns(s, w, x);
    if !s.Looked(g, x, y) { assert s.index[p] <= s.index[w]; }
  }

  lemma MoveBounds(g: Edges, s: Search, p: Id, c: Id)
    requires Shape(g, s) && p in s.work && AtChild(g, s, p, c) && c in s.index && Shape(g, Moved(s, p, c))
    requires LowBounds(g, s)
    ensures LowBounds(g, Moved(s, p, c))
  {
    hide Owns, LowBounds;
    var t := Moved(s, p, c);
    forall w, x, y | Owns(t, w, x) && t.Looked(g, x, y) && y in t.stack
      ensures w in t.low && y in t.index && t.low[w] <= t.index[y]
    {
      MovedBound(g, s, p, c, w, x, y);
    }
    BoundsMean(g, t);
  }

  lemma BoundsMean(g: Edges, s: Search)
    requires Shape(g, s)
    requires forall w, x, y :: Owns(s, w, x) && s.Looked(g, x, y) && y in s.stack ==>
               w in s.low && y in s.index && s.low[w] <= s.index[y]
    ensures LowBounds(g, s)
  {}

  // -------------------------------------- leaving a node that roots no component

  /** The top frame `w` is dropped and its parent `p` takes over its low value. */
  function LeftInner(s: Search, w: Id, p: Id): Search
    requires w in s.low && p in s.low
  {
    Lowered(s, p, s.low[w]).(work := s.work - {w})
  }

  /** `p` is the open node under the top one. */
  ghost predicate IsParent(s: Search, w: Id, p: Id) {
    s.IsTop(w) && s.(work := s.work - {w}).IsTop(p)
  }

  /** The whole adjacency list of `w` has been looked at. */
  ghost predicate Finished(g: Edges, s: Search, w: Id) {
    w in g && w in s.cursor && s.cursor[w] == |g[w]|
  }

  /** An open node whose low value is below its own index reaches an open node below itself. */
  lemma LowerOpen(g: Edges, s: Search, w: Id) returns (v: Id)
    requires Core(g, s) && w in s.work && s.low[w] < s.index[w]
    ensures v in s.work && s.index[v] < s.index[w] && Reach(g, w, v)
  {
    assert LowWitness(g, s, w);
    var u :| u in s.stack && s.index[u] == s.low[w] && Reach(g, w, u);
    assert OpenBelow(g, s, u);
    v :| v in s.work && s.index[v] <= s.index[u] && Reach(g, u, v);
    ReachTransitive(g, w, u, v);
  }

  lemma LeaveInner(g: Edges, s: Search, w: Id, p: Id)
    requires Core(g, s) && IsParent(s, w, p) && Finished(g, s, w) && s.low[w] < s.index[w]
    ensures Core(g, LeftInner(s, w, p)) && LeftInner(s, w, p).Done() == s.Done()
  {
    var t := LeftInner(s, w, p);
    assert p in s.work && p in s.stack && s.index[p] <= s.index[w];
    assert t.Done() == s.Done();
    forall x, y | t.Looked(g, x, y) ensures y in t.index { assert s.Looked(g, x, y); }
    LeaveInnerOpen(g, s, w, p);
    LeaveInnerLow(g, s, w, p);
    LeaveInnerBounds(g, s, w, p);
  }

  lemma LeaveInnerOpen(g: Edges, s: Search, w: Id, p: Id)
    requires Core(g, s) && IsParent(s, w, p) && s.low[w] < s.index[w]
    requires Shape(g, LeftInner(s, w, p))
    ensures ReachesOpen(g, LeftInner(s, w, p))
  {
    var t := LeftInner(s, w, p);
    var v := LowerOpen(g, s, w);
    assert v in t.work;
    forall x {:trigger OpenBelow(g, t, x)} | x in t.stack ensures OpenBelow(g, t, x) {
      assert OpenBelow(g, s, x);
      var z :| z in s.work && s.index[z] <= s.index[x] && Reach(g, x, z);
      if z == w {
        ReachTransitive(g, x, w, v);
      } else {
        assert z in t.work;
      }
    }
  }

  lemma LeaveInnerLow(g: Edges, s: Search, w: Id, p: Id)
    requires Shape(g, s) && IsParent(s, w, p) && OpenReaches(g, s) && LowReached(g, s)
    requires Shape(g, LeftInner(s, w, p)) && s.low[w] < s.index[w]
    ensures LowReached(g, LeftInner(s, w, p))
  {
    var t := LeftInner(s, w, p);
    assert Reach(g, p, w);
    assert LowWitness(g, s, w);
    var u :| u in s.stack && s.index[u] == s.low[w] && Reach(g, w, u);
    ReachTransitive(g, p, w, u);
    forall z {:trigger LowWitness(g, t, z)} | z in t.work ensures LowWitness(g, t, z) {
      assert LowWitness(g, s, z);
      if t.low[z] != s.low[z] {
        assert z == p && u in t.stack && t.index[u] == t.low[z];
      }
    }
  }

  /** Who owned what is left once the top frame is dropped. */
  lemma LeftInnerOwns(g: Edges, s: Search, w: Id, p: Id, z: Id, x: Id)
    requires Shape(g, s) && IsParent(s, w, p) && Owns(LeftInner(s, w, p), z, x)
    ensures if s.index[w] <= s.index[x] then Owns(s, w, x) && z == p else Owns(s, z, x)
  {
    var t := LeftInner(s, w, p);
    if s.index[w] <= s.index[x] {
      assert Owns(s, w, x);
      assert p in t.work && t.index[p] <= t.index[x];
    }
  }

  /** One bound after the top frame is dropped, from the bounds before. */
  lemma LeftInnerBound(g: Edges, s: Search, w: Id, p: Id, z: Id, x: Id, y: Id)
    requires Shape(g, s) && IsParent(s, w, p) && LowBounds(g, s)
    requires Owns(LeftInner(s, w, p), z, x) && LeftInner(s, w, p).Looked(g, x, y) && y in s.stack
    ensures z in s.low && LeftInner(s, w, p).low[z] <= s.index[y]
  {
    LeftInnerOwns(g, s, w, p, z, x);
    assert s.Looked(g, x, y);
  }

  lemma LeaveInnerBounds(g: Edges, s: Search, w: Id, p: Id)
    requires Shape(g, s) && IsParent(s, w, p) && LowBounds(g, s)
    requires Shape(g, LeftInner(s, w, p))
    ensures LowBounds(g, LeftInner(s, w, p))
  {
    hide Owns, LowBounds;
    var t := LeftInner(s, w, p);
    forall z, x, y | Owns(t, z, x) && t.Looked(g, x, y) && y in t.stack
      ensures z in t.low && y in t.index && t.low[z] <= t.index[y]
    {
      LeftInnerBound(g, s, w, p, z, x, y);
    }
    BoundsMean(g, t);
  }

  // ----------------------------------------- leaving a node that roots a component

  /** The stack from `w` upwards. */
  ghost function Suffix(s: Search, w: Id): set<Id>
    requires s.stack <= s.index.Keys && w in s.index
  {
    set x | x in s.stack && s.index[w] <= s.index[x]
  }

  ghost function LeftRoot(s: Search, w: Id): Search
    requires s.stack <= s.index.Keys && w in s.index
  {
    s.(work := s.work - {w}, stack := s.stack - Suffix(s, w))
  }

  ghost predicate Rooted(g: Edges, s: Search, w: Id) {
    Core(g, s) && s.IsTop(w) && Finished(g, s, w) && s.low[w] == s.index[w]
  }

  /** Edges out of the suffix lead into it or into components popped before. */
  lemma SuffixEdges(g: Edges, s: Search, w: Id, x: Id, y: Id)
    requires Rooted(g, s, w) && x in Suffix(s, w) && Step(g, x, y)
    ensures y in Suffix(s, w) || y in s.Done()
  {
    assert s.cursor[x] == |g[x]|;
    var j :| 0 <= j < |g[x]| && g[x][j] == y;
    assert s.Looked(g, x, y);
    assert Owns(s, w, x);
  }

  /** From the top node the suffix is reached and reaches back. */
  lemma SuffixMutual(g: Edges, s: Search, w: Id, x: Id)
    requires Rooted(g, s, w) && x in Suffix(s, w)
    ensures Mutual(g, w, x)
  {
    assert Reach(g, w, x);
    assert OpenBelow(g, s, x);
    var v :| v in s.work && s.index[v] <= s.index[x] && Reach(g, x, v);
    assert Reach(g, v, w);
    ReachTransitive(g, x, v, w);
  }

  lemma SuffixMaximal(g: Edges, s: Search, w: Id, z: Id)
    requires Rooted(g, s, w) && Mutual(g, w, z)
    ensures z in Suffix(s, w)
  {
    var closed := Suffix(s, w) + s.Done();
    forall x, y | x in closed && Step(g, x, y) ensures y in closed {
      if x in Suffix(s, w) { SuffixEdges(g, s, w, x, y); }
    }
    assert w in closed;
    ClosedUnder(g, closed, w, z);
    if z in s.Done() {
      ClosedUnder(g, s.Done(), z, w);
      assert false;
    }
  }

  lemma SuffixIsComponent(g: Edges, s: Search, w: Id)
    requires Rooted(g, s, w)
    ensures IsComponent(g, Suffix(s, w))
  {
    assert w in Suffix(s, w);
    forall a, b | a in Suffix(s, w) ensures b in Suffix(s, w) <==> Mutual(g, a, b) {
      SuffixMutual(g, s, w, a);
      if b in Suffix(s, w) {
        SuffixMutual(g, s, w, b);
        ReachTransitive(g, a, w, b);
        ReachTransitive(g, b, w, a);
      } else if Mutual(g, a, b) {
        ReachTransitive(g, w, a, b);
        ReachTransitive(g, b, a, w);
        SuffixMaximal(g, s, w, b);
      }
    }
  }

  lemma LeaveRoot(g: Edges, s: Search, w: Id)
    requires Rooted(g, s, w)
    ensures Core(g, LeftRoot(s, w))
    ensures LeftRoot(s, w).Done() == s.Done() + Suffix(s, w)
  {
    var t := LeftRoot(s, w);
    assert t.Done() == s.Done() + Suffix(s, w);
    assert Shape(g, t);
    forall x, y | x in t.Done() && Step(g, x, y) ensures y in t.Done() {
      if x in Suffix(s, w) { SuffixEdges(g, s, w, x, y); }
    }
    forall x, y | t.Looked(g, x, y) ensures y in t.index { assert s.Looked(g, x, y); }
    LeaveRootOpen(g, s, w);
    LeaveRootBounds(g, s, w);
  }

  lemma LeaveRootOpen(g: Edges, s: Search, w: Id)
    requires Rooted(g, s, w) && Shape(g, LeftRoot(s, w))
    ensures ReachesOpen(g, LeftRoot(s, w)) && OpenReaches(g, LeftRoot(s, w)) && LowReached(g, LeftRoot(s, w))
  {
    var t := LeftRoot(s, w);
    forall x {:trigger OpenBelow(g, t, x)} | x in t.stack ensures OpenBelow(g, t, x) {
      assert OpenBelow(g, s, x);
      var z :| z in s.work && s.index[z] <= s.index[x] && Reach(g, x, z);
      assert z in t.work;
    }
    forall z {:trigger LowWitness(g, t, z)} | z in t.work ensures LowWitness(g, t, z) {
      assert LowWitness(g, s, z);
      var u :| u in s.stack && s.index[u] == s.low[z] && Reach(g, z, u);
      assert u in t.stack;
    }
  }

  lemma LeaveRootBounds(g: Edges, s: Search, w: Id)
    requires Shape(g, s) && s.IsTop(w) && LowBounds(g, s) && Shape(g, LeftRoot(s, w))
    ensures LowBounds(g, LeftRoot(s, w))
  {
    var t := LeftRoot(s, w);
    forall z, x, y | Owns(t, z, x) && t.Looked(g, x, y) && y in t.stack ensures t.low[z] <= t.index[y] {
      assert s.Looked(g, x, y);
      assert Owns(s, z, x);
    }
  }
}
