/** Iterative Tarjan search for strongly connected components, as the graph builder runs it. */
module TarjanSearch {
  import opened Graphs
  import opened TarjanSteps
  import Text

  /** An open node with the number of its children dealt with. */
  datatype Frame = Frame(node: Id, nextChild: nat)

  ghost predicate IsListed(g: Edges, c: seq<Id>, done: set<Id>) {
    |c| > 1 && Text.Ascending(c) && Elems(c) <= done && IsComponent(g, Elems(c))
  }

  ghost predicate Separate(sccs: seq<seq<Id>>) {
    forall i, j :: 0 <= i < j < |sccs| ==> Elems(sccs[i]) !! Elems(sccs[j])
  }

  /** A node of `done` that lies on a cycle with another node is in some list. */
  ghost predicate Covered(g: Edges, sccs: seq<seq<Id>>, done: set<Id>) {
    forall a, b :: a in done && a != b && Mutual(g, a, b) ==> exists c :: c in sccs && a in Elems(c)
  }

  /** `sccs` lists every component of more than one node among `done`, each once and sorted. */
  ghost predicate Recorded(g: Edges, sccs: seq<seq<Id>>, done: set<Id>) {
    (forall c :: c in sccs ==> IsListed(g, c, done)) && Separate(sccs) && Covered(g, sccs, done)
  }

  function Appended(sccs: seq<seq<Id>>, c: set<Id>): seq<seq<Id>> {
    if |c| > 1 then sccs + [Text.Sorted(c)] else sccs
  }

  lemma ListedMore(g: Edges, l: seq<Id>, done: set<Id>, c: set<Id>)
    ensures IsListed(g, l, done) ==> IsListed(g, l, done + c) && Elems(l) <= done
    ensures IsComponent(g, c) && |c| > 1 && l == Text.Sorted(c) ==> IsListed(g, l, done + c) && Elems(l) == c
  {
    hide Text.Ascending, IsComponent;
    Text.SortedAscends(c);
    assert Elems(Text.Sorted(c)) == c;
  }

  lemma AppendListed(g: Edges, sccs: seq<seq<Id>>, done: set<Id>, c: set<Id>)
    requires forall l :: l in sccs ==> IsListed(g, l, done)
    requires Separate(sccs) && IsComponent(g, c) && c !! done
    ensures forall l :: l in Appended(sccs, c) ==> IsListed(g, l, done + c)
    ensures Separate(Appended(sccs, c))
  {
    hide IsListed, IsComponent, Text.Sorted;
    var t := Appended(sccs, c);
    forall l | l in t ensures IsListed(g, l, done + c) { ListedMore(g, l, done, c); }
    forall i, j | 0 <= i < j < |t| ensures Elems(t[i]) !! Elems(t[j]) {
      assert t[i] in sccs;
      ListedMore(g, t[i], done, c);
      ListedMore(g, t[j], done, c);
    }
  }

  lemma AppendCovered(g: Edges, sccs: seq<seq<Id>>, done: set<Id>, c: set<Id>)
    requires Covered(g, sccs, done) && IsComponent(g, c)
    ensures Covered(g, Appended(sccs, c), done + c)
  {
    var t := Appended(sccs, c);
    forall a, b | a in done + c && a != b && Mutual(g, a, b) ensures exists l :: l in t && a in Elems(l) {
      if a in c {
        assert b in c;
        SubsetSize({a, b}, c);
        assert Text.Sorted(c) in t && a in Elems(Text.Sorted(c));
      } else {
        var l :| l in sccs && a in Elems(l);
        assert l in t;
      }
    }
  }

  lemma RecordComponent(g: Edges, sccs: seq<seq<Id>>, done: set<Id>, c: set<Id>)
    requires Recorded(g, sccs, done) && IsComponent(g, c) && c !! done
    ensures Recorded(g, Appended(sccs, c), done + c)
  {
    AppendListed(g, sccs, done, c);
    AppendCovered(g, sccs, done, c);
  }

  ghost function WorkNodes(work: seq<Frame>): set<Id> {
    set f | f in work :: f.node
  }

  function Last(work: seq<Frame>): Frame
    requires work != []
  {
    work[|work| - 1]
  }

  function Below(work: seq<Frame>): seq<Frame>
    requires work != []
  {
    work[..|work| - 1]
  }

  /** The search's fields as one value. */
  datatype State = State(
    indexOf: map<Id, nat>,
    low: map<Id, nat>,
    onStack: set<Id>,
    sccStack: seq<Id>,
    sccs: seq<seq<Id>>,
    counter: nat)

  // ------------------------------------- how the fields stand for a search value

  ghost predicate StackLinked(f: State, s: Search) {
    && f.onStack == s.stack == Elems(f.sccStack) && s.stack <= s.index.Keys
    && (forall i, j :: 0 <= i < j < |f.sccStack| ==> s.index[f.sccStack[i]] < s.index[f.sccStack[j]])
  }

  ghost predicate WorkLinked(s: Search, work: seq<Frame>) {
    && WorkNodes(work) == s.work && s.work <= s.index.Keys && s.index.Keys <= s.cursor.Keys
    && (forall i :: 0 <= i < |work| ==> work[i].node in s.work && work[i].nextChild == s.cursor[work[i].node])
    && (forall i, j :: 0 <= i < j < |work| ==> s.index[work[i].node] < s.index[work[j].node])
  }

  ghost predicate Linked(g: Edges, f: State, s: Search, work: seq<Frame>) {
    && f.indexOf == s.index && f.low == s.low && f.counter == s.counter
    && StackLinked(f, s) && WorkLinked(s, work) && Recorded(g, f.sccs, s.Done()) && Core(g, s)
  }

  /** `below` with its top frame moved back to the child it has just moved past. */
  function Rewound(below: seq<Frame>): seq<Frame> {
    if below == [] || Last(below).nextChild == 0 then below
    else Below(below) + [Frame(Last(below).node, Last(below).nextChild - 1)]
  }

  /** The top frame is new: its node is unseen, and the frame under it is at that child. */
  ghost predicate Pending(g: Edges, f: State, s: Search, work: seq<Frame>) {
    work != [] && Last(work).node in g && Last(work).node !in s.index &&
    Linked(g, f, s, Rewound(Below(work))) &&
    (Below(work) != [] ==> Last(Below(work)).nextChild > 0 && AtChild(g, s, Last(Below(work)).node, Last(work).node))
  }

  /** At the head of the search loop. */
  ghost predicate Searching(g: Edges, f: State, s: Search, work: seq<Frame>) {
    && (forall i :: 0 <= i < |work| - 1 ==> work[i].nextChild > 0)
    && if work != [] && Last(work).nextChild == 0 then Pending(g, f, s, work) else Linked(g, f, s, work)
  }

  /** Nothing is open. */
  ghost function Idle(g: Edges, f: State): Search {
    Search(f.indexOf, f.low, {}, {}, map x | x in f.indexOf.Keys * g.Keys :: |g[x]|, f.counter)
  }

  lemma TopFrame(s: Search, work: seq<Frame>)
    requires WorkLinked(s, work) && work != []
    ensures s.IsTop(Last(work).node)
  {
    forall w | w in s.work ensures s.index[w] <= s.index[Last(work).node] {
      var f :| f in work && f.node == w;
      var i :| 0 <= i < |work| && work[i] == f;
    }
  }

  // --------------------------------------------------------------- entering

  function EnteredFields(f: State, node: Id): State {
    f.(indexOf := f.indexOf[node := f.counter], low := f.low[node := f.counter], counter := f.counter + 1,
       sccStack := f.sccStack + [node], onStack := f.onStack + {node})
  }

  ghost function OpenTop(s: Search, work: seq<Frame>): Search
    requires work != []
  {
    var below := Below(work);
    Entered(if below == [] || Last(below).node !in s.cursor then s else PastChild(s, Last(below).node), Last(work).node)
  }

  lemma OpenStack(f: State, s: Search, c: Id)
    requires StackLinked(f, s) && c !in s.index && (forall x :: x in s.index ==> s.index[x] < s.counter)
    ensures StackLinked(EnteredFields(f, c), Entered(s, c))
  {
    assert Elems(f.sccStack + [c]) == s.stack + {c};
    forall i | 0 <= i < |f.sccStack| ensures f.sccStack[i] in s.stack { assert f.sccStack[i] in Elems(f.sccStack); }
  }

  lemma OpenWork(s: Search, work: seq<Frame>, c: Id)
    requires WorkLinked(s, work) && c !in s.index && (forall x :: x in s.index ==> s.index[x] < s.counter)
    ensures WorkLinked(Entered(s, c), work + [Frame(c, 0)])
  {
    WorkNodesSnoc(work, Frame(c, 0));
  }

  lemma PastWork(s: Search, below: seq<Frame>)
    requires below != [] && Last(below).nextChild > 0 && WorkLinked(s, Rewound(below))
    ensures Last(below).node in s.cursor && WorkLinked(PastChild(s, Last(below).node), below)
  {
    var before := Rewound(below);
    assert before[|before| - 1].node == Last(below).node;
    WorkNodesReplace(below, before);
    forall i | 0 <= i < |below| - 1 ensures below[i].node != Last(below).node && below[i] == before[i] {
      assert s.index[before[i].node] < s.index[before[|before| - 1].node];
    }
    forall i | 0 <= i < |below| ensures below[i].node == before[i].node {}
  }

  lemma OpenRoot(g: Edges, f: State, s: Search, c: Id)
    requires Linked(g, f, s, []) && c in g && c !in s.index
    ensures Linked(g, EnteredFields(f, c), Entered(s, c), [Frame(c, 0)])
  {
    OpenStack(f, s, c);
    OpenWork(s, [], c);
    assert [] + [Frame(c, 0)] == [Frame(c, 0)];
    EnterRoot(g, s, c);
  }

  lemma OpenChild(g: Edges, f: State, s: Search, below: seq<Frame>, c: Id)
    requires below != [] && Last(below).nextChild > 0 && Linked(g, f, s, Rewound(below))
    requires c in g && c !in s.index && AtChild(g, s, Last(below).node, c)
    ensures Linked(g, EnteredFields(f, c), Entered(PastChild(s, Last(below).node), c), below + [Frame(c, 0)])
  {
    var p := Last(below).node;
    var m := PastChild(s, p);
    PastWork(s, below);
    OpenStack(f, m, c);
    OpenWork(m, below, c);
    TopFrame(s, Rewound(below));
    EnterChild(g, s, p, c);
  }

  lemma OpenLinked(g: Edges, f: State, s: Search, work: seq<Frame>)
    requires Pending(g, f, s, work) && Last(work).nextChild == 0
    ensures Linked(g, EnteredFields(f, Last(work).node), OpenTop(s, work), work)
  {
    var c := Last(work).node;
    var below := Below(work);
    SplitTop(work);
    if below == [] {
      OpenRoot(g, f, s, c);
    } else {
      OpenChild(g, f, s, below, c);
    }
  }

  lemma SplitTop(work: seq<Frame>)
    requires work != []
    ensures work == Below(work) + [Frame(Last(work).node, Last(work).nextChild)]
  {}

  // ------------------------------------------------------- moving past a child

  function Stepped(work: seq<Frame>): seq<Frame>
    requires work != []
  {
    Below(work) + [Frame(Last(work).node, Last(work).nextChild + 1)]
  }

  lemma SteppedWork(s: Search, work: seq<Frame>)
    requires work != [] && WorkLinked(s, work)
    ensures Last(work).node in s.cursor && WorkLinked(PastChild(s, Last(work).node), Stepped(work))
  {
    assert Below(Stepped(work)) == Below(work);
    assert Rewound(Stepped(work)) == work by { SplitTop(work); }
    PastWork(s, Stepped(work));
  }

  function MovedFields(f: State, node: Id, c: Id): State
    requires node in f.low && c in f.indexOf
  {
    if c in f.onStack then f.(low := f.low[node := Min(f.low[node], f.indexOf[c])]) else f
  }

  lemma MoveLinked(g: Edges, f: State, s: Search, work: seq<Frame>, c: Id)
    requires work != [] && Linked(g, f, s, work)
    requires AtChild(g, s, Last(work).node, c) && c in f.indexOf
    ensures Last(work).node in f.low
    ensures Linked(g, MovedFields(f, Last(work).node, c), Moved(s, Last(work).node, c), Stepped(work))
  {
    hide Core, Recorded;
    TopFrame(s, work);
    SteppedWork(s, work);
    CoreShape(g, s);
    Move(g, s, Last(work).node, c);
  }

  lemma LinkedTop(g: Edges, f: State, s: Search, work: seq<Frame>)
    requires work != [] && Linked(g, f, s, work)
    ensures f.indexOf == s.index && WorkLinked(s, work)
  {}

  lemma PushPending(g: Edges, f: State, s: Search, work: seq<Frame>, c: Id)
    requires work != [] && Linked(g, f, s, work) && c in g && c !in f.indexOf
    requires AtChild(g, s, Last(work).node, c)
    ensures Pending(g, f, s, Stepped(work) + [Frame(c, 0)])
  {
    hide Linked;
    var pushed := Stepped(work) + [Frame(c, 0)];
    LinkedTop(g, f, s, work);
    assert Below(pushed) == Stepped(work);
    assert Below(Stepped(work)) == Below(work);
    assert Rewound(Stepped(work)) == work by { SplitTop(work); }
  }

  // ---------------------------------------------------------- leaving a node

  lemma DroppedWork(s: Search, work: seq<Frame>)
    requires work != [] && WorkLinked(s, work)
    ensures WorkLinked(s.(work := s.work - {Last(work).node}), Below(work))
  {
    var w := Last(work).node;
    SplitTop(work);
    WorkNodesSnoc(Below(work), Last(work));
    forall i | 0 <= i < |work| - 1 ensures work[i].node != w {
      assert s.index[work[i].node] < s.index[work[|work| - 1].node];
    }
    assert WorkNodes(Below(work)) == s.work - {w};
    forall i | 0 <= i < |Below(work)| ensures Below(work)[i].node in s.work - {w} {
      assert Below(work)[i] == work[i];
    }
  }

  lemma InnerHasParent(g: Edges, f: State, s: Search, work: seq<Frame>)
    requires work != [] && Linked(g, f, s, work)
    ensures Last(work).node in s.work && f.low[Last(work).node] <= f.indexOf[Last(work).node]
    ensures Below(work) == [] ==> f.low[Last(work).node] == f.indexOf[Last(work).node]
    ensures Below(work) != [] ==> IsParent(s, Last(work).node, Last(Below(work)).node)
  {
    var w := Last(work).node;
    TopFrame(s, work);
    assert LowWitness(g, s, w);
    DroppedWork(s, work);
    if Below(work) == [] {
      if f.low[w] < f.indexOf[w] {
        var v := LowerOpen(g, s, w);
      }
    } else {
      TopFrame(s.(work := s.work - {w}), Below(work));
    }
  }

  lemma InnerLinked(g: Edges, f: State, s: Search, work: seq<Frame>, p: Id)
    requires work != [] && Linked(g, f, s, work) && Finished(g, s, Last(work).node)
    requires Last(work).node in f.low && Last(work).node in f.indexOf
    requires f.low[Last(work).node] < f.indexOf[Last(work).node]
    requires Below(work) != [] && p == Last(Below(work)).node && IsParent(s, Last(work).node, p)
    ensures p in f.low
    ensures Linked(g, f.(low := f.low[p := Min(f.low[p], f.low[Last(work).node])]),
                   LeftInner(s, Last(work).node, p), Below(work))
  {
    DroppedWork(s, work);
    LeaveInner(g, s, Last(work).node, p);
  }

  /** The stack from `w` upwards is the tail of the stack list. */
  lemma SuffixTail(f: State, s: Search, w: Id) returns (at: nat)
    requires StackLinked(f, s) && w in s.stack
    ensures at < |f.sccStack| && f.sccStack[at] == w
    ensures Elems(f.sccStack[at..]) == Suffix(s, w)
    ensures Elems(f.sccStack[..at]) == s.stack - Suffix(s, w)
  {
    at :| 0 <= at < |f.sccStack| && f.sccStack[at] == w;
    var l := f.sccStack;
    forall x ensures (x in l[at..] <==> x in Suffix(s, w)) && (x in l[..at] <==> x in s.stack - Suffix(s, w)) {
      SuffixSide(f, s, at, x);
    }
  }

  lemma IndexSide(f: State, s: Search, at: nat, i: nat)
    requires StackLinked(f, s) && at < |f.sccStack| && i < |f.sccStack|
    ensures f.sccStack[at] in s.stack && f.sccStack[i] in s.stack
    ensures f.sccStack[i] in Suffix(s, f.sccStack[at]) <==> at <= i
  {
    assert f.sccStack[i] in f.sccStack && f.sccStack[at] in f.sccStack;
  }

  lemma SuffixSide(f: State, s: Search, at: nat, x: Id)
    requires StackLinked(f, s) && at < |f.sccStack| && f.sccStack[at] in s.stack
    ensures x in f.sccStack[at..] <==> x in Suffix(s, f.sccStack[at])
    ensures x in f.sccStack[..at] <==> x in s.stack - Suffix(s, f.sccStack[at])
  {
    hide Suffix;
    var l := f.sccStack;
    StackIs(f, s);
    if x in l[at..] {
      var i :| 0 <= i < |l[at..]| && l[at..][i] == x;
      IndexSide(f, s, at, at + i);
    }
    if x in l[..at] {
      var i :| 0 <= i < |l[..at]| && l[..at][i] == x;
      IndexSide(f, s, at, i);
    }
    SuffixWithin(s, l[at]);
    if x in s.stack {
      var i :| 0 <= i < |l| && l[i] == x;
      IndexSide(f, s, at, i);
      assert i < at ==> l[..at][i] == x;
      assert i >= at ==> l[at..][i - at] == x;
    }
  }

  lemma StackIs(f: State, s: Search)
    requires StackLinked(f, s)
    ensures s.stack <= s.index.Keys && forall x :: x in s.stack <==> x in f.sccStack
  {}

  lemma SuffixWithin(s: Search, w: Id)
    requires s.stack <= s.index.Keys && w in s.index
    ensures Suffix(s, w) <= s.stack
  {}

  /** The fields once the stack is cut at `at`. */
  ghost function PoppedFields(f: State, at: nat): State
    requires at <= |f.sccStack|
  {
    var c := Elems(f.sccStack[at..]);
    f.(sccStack := f.sccStack[..at], onStack := f.onStack - c, sccs := Appended(f.sccs, c))
  }

  lemma PoppedStack(f: State, s: Search, w: Id, at: nat)
    requires StackLinked(f, s) && w in s.index && at <= |f.sccStack|
    requires Elems(f.sccStack[at..]) == Suffix(s, w) && Elems(f.sccStack[..at]) == s.stack - Suffix(s, w)
    ensures StackLinked(PoppedFields(f, at), LeftRoot(s, w))
  {}

  lemma RootLinked(g: Edges, f: State, s: Search, work: seq<Frame>, at: nat)
    requires work != [] && Linked(g, f, s, work) && Rooted(g, s, Last(work).node)
    requires at < |f.sccStack| && Elems(f.sccStack[at..]) == Suffix(s, Last(work).node)
    requires Elems(f.sccStack[..at]) == s.stack - Suffix(s, Last(work).node)
    ensures Linked(g, PoppedFields(f, at), LeftRoot(s, Last(work).node), Below(work))
  {
    var w := Last(work).node;
    PoppedStack(f, s, w, at);
    DroppedWork(s, work);
    LeaveRoot(g, s, w);
    SuffixIsComponent(g, s, w);
    RecordComponent(g, f.sccs, s.Done(), Suffix(s, w));
  }

  // ------------------------------------------------------------- progress

  /** Nodes neither entered nor about to be. */
  ghost function Unvisited(g: Edges, indexOf: map<Id, nat>, work: seq<Frame>): nat {
    |g.Keys - indexOf.Keys - WorkNodes(work)|
  }

  /** What the frames still have to look at, plus the frames themselves. */
  ghost function Remaining(g: Edges, work: seq<Frame>): nat {
    if work == [] then 0
    else
      var children := if Last(work).node in g then |g[Last(work).node]| else 0;
      Remaining(g, Below(work)) + 1 + if Last(work).nextChild <= children then children - Last(work).nextChild else 0
  }

  lemma WorkNodesSnoc(work: seq<Frame>, f: Frame)
    ensures WorkNodes(work + [f]) == WorkNodes(work) + {f.node}
    ensures f in work + [f]
  {
    forall x | x in WorkNodes(work) + {f.node} ensures x in WorkNodes(work + [f]) {
      if x in WorkNodes(work) {
        var h :| h in work && h.node == x;
        assert h in work + [f];
      } else {
        assert f in work + [f];
      }
    }
  }

  lemma WorkNodesReplace(a: seq<Frame>, b: seq<Frame>)
    requires |a| == |b| && forall i :: 0 <= i < |a| ==> a[i].node == b[i].node
    ensures WorkNodes(a) == WorkNodes(b)
  {
    forall x ensures x in WorkNodes(a) <==> x in WorkNodes(b) {
      if x in WorkNodes(a) {
        var f :| f in a && f.node == x;
        var i :| 0 <= i < |a| && a[i] == f;
        assert b[i] in b;
      }
      if x in WorkNodes(b) {
        var f :| f in b && f.node == x;
        var i :| 0 <= i < |b| && b[i] == f;
        assert a[i] in a;
      }
    }
  }

  lemma EnterProgress(g: Edges, f: State, work: seq<Frame>)
    requires work != []
    ensures Unvisited(g, EnteredFields(f, Last(work).node).indexOf, work) == Unvisited(g, f.indexOf, work)
  {
    assert Last(work) in work;
    assert g.Keys - (f.indexOf.Keys + {Last(work).node}) - WorkNodes(work) == g.Keys - f.indexOf.Keys - WorkNodes(work);
    assert EnteredFields(f, Last(work).node).indexOf.Keys == f.indexOf.Keys + {Last(work).node};
  }

  lemma StepProgress(g: Edges, f: State, work: seq<Frame>)
    requires work != [] && Last(work).node in g && Last(work).nextChild < |g[Last(work).node]|
    ensures WorkNodes(Stepped(work)) == WorkNodes(work)
    ensures Unvisited(g, f.indexOf, Stepped(work)) == Unvisited(g, f.indexOf, work)
    ensures Remaining(g, Stepped(work)) < Remaining(g, work)
  {
    WorkNodesReplace(Stepped(work), work);
    assert Below(Stepped(work)) == Below(work);
  }

  lemma PushProgress(g: Edges, f: State, work: seq<Frame>, c: Id)
    requires work != [] && c in g && c !in f.indexOf && c !in WorkNodes(work)
    requires Last(work).node in g && Last(work).nextChild < |g[Last(work).node]|
    ensures Unvisited(g, f.indexOf, Stepped(work) + [Frame(c, 0)]) < Unvisited(g, f.indexOf, work)
  {
    StepProgress(g, f, work);
    WorkNodesSnoc(Stepped(work), Frame(c, 0));
    SmallerSet(g.Keys - f.indexOf.Keys - WorkNodes(Stepped(work) + [Frame(c, 0)]),
               g.Keys - f.indexOf.Keys - WorkNodes(work));
  }

  lemma DropProgress(g: Edges, f: State, work: seq<Frame>)
    requires work != [] && Last(work).node in f.indexOf
    ensures Unvisited(g, f.indexOf, Below(work)) == Unvisited(g, f.indexOf, work)
    ensures Remaining(g, Below(work)) < Remaining(g, work)
  {
    SplitTop(work);
    WorkNodesSnoc(Below(work), Last(work));
    assert g.Keys - f.indexOf.Keys - WorkNodes(Below(work)) == g.Keys - f.indexOf.Keys - WorkNodes(work);
  }

  lemma TopSeen(g: Edges, f: State, s: Search, work: seq<Frame>)
    requires work != [] && Linked(g, f, s, work)
    ensures Last(work).node in g && Last(work).node in f.low && Last(work).node in f.indexOf
    ensures Last(work).node in s.cursor && s.cursor[Last(work).node] == Last(work).nextChild <= |g[Last(work).node]|
    ensures Last(work).node in s.stack && WorkNodes(work) <= f.indexOf.Keys
  {
    TopFrame(s, work);
  }

  lemma AdvanceProgress(g: Edges, f: State, s: Search, work: seq<Frame>)
    requires Closed(g) && work != [] && Linked(g, f, s, work)
    requires Last(work).node in g && Last(work).nextChild < |g[Last(work).node]|
    ensures var c := g[Last(work).node][Last(work).nextChild];
            if c !in f.indexOf then Unvisited(g, f.indexOf, Stepped(work) + [Frame(c, 0)]) < Unvisited(g, f.indexOf, work)
            else Last(work).node in f.low &&
                 Unvisited(g, f.indexOf, Stepped(work)) == Unvisited(g, f.indexOf, work) &&
                 Remaining(g, Stepped(work)) < Remaining(g, work)
  {
    hide Core, Recorded, StackLinked, WorkLinked;
    var c := g[Last(work).node][Last(work).nextChild];
    assert Step(g, Last(work).node, c);
    TopSeen(g, f, s, work);
    StepProgress(g, f, work);
    if c !in f.indexOf { PushProgress(g, f, work, c); }
  }

  lemma StartPending(g: Edges, f: State, root: Id)
    requires Linked(g, f, Idle(g, f), []) && root in g && root !in f.indexOf
    ensures Searching(g, f, Idle(g, f), [Frame(root, 0)])
  {
    assert Below([Frame(root, 0)]) == [];
  }

  lemma NothingOpen(g: Edges, s: Search)
    requires Core(g, s) && s.work == {}
    ensures s.stack == {}
  {
    if s.stack != {} {
      var x :| x in s.stack;
      var w := OpenOf(g, s, x);
      assert false;
    }
  }

  lemma OpenOf(g: Edges, s: Search, x: Id) returns (w: Id)
    requires Core(g, s) && x in s.stack
    ensures w in s.work
  {
    assert OpenBelow(g, s, x);
    w :| w in s.work && s.index[w] <= s.index[x] && Reach(g, x, w);
  }

  /** An empty work list means the search is idle again. */
  lemma EndIdle(g: Edges, f: State, s: Search)
    requires Linked(g, f, s, [])
    ensures s == Idle(g, f) && f.sccStack == []
  {
    NothingOpen(g, s);
    NoMembers(f.sccStack);
    assert s.cursor == Idle(g, f).cursor;
  }

  lemma NoMembers(a: seq<Id>)
    requires Elems(a) == {}
    ensures a == []
  {
    assert forall x :: x in a ==> x in Elems(a);
    Text.HasMember(a);
  }

  // ------------------------------------------------- one turn of the search loop

  /** Looking at the next child keeps the loop invariant and makes progress. */
  lemma AdvanceKeeps(g: Edges, f: State, s: Search, work: seq<Frame>) returns (t: Search)
    requires Closed(g) && work != [] && Linked(g, f, s, work)
    requires Last(work).node in g && Last(work).nextChild < |g[Last(work).node]|
    requires forall i :: 0 <= i < |work| - 1 ==> work[i].nextChild > 0
    ensures var c := g[Last(work).node][Last(work).nextChild];
            if c !in f.indexOf then Searching(g, f, t, Stepped(work) + [Frame(c, 0)])
            else Last(work).node in f.low && Searching(g, MovedFields(f, Last(work).node, c), t, Stepped(work))
  {
    hide Core, Recorded, StackLinked, WorkLinked;
    TopSeen(g, f, s, work);
    var c := g[Last(work).node][Last(work).nextChild];
    assert AtChild(g, s, Last(work).node, c);
    assert Step(g, Last(work).node, c);
    if c !in f.indexOf {
      t := s;
      PushPending(g, f, s, work, c);
    } else {
      t := Moved(s, Last(work).node, c);
      MoveLinked(g, f, s, work, c);
    }
  }

  /** The fields once the top node is left; `at` is where its component starts on the stack. */
  ghost function SettledFields(f: State, work: seq<Frame>, at: nat): State
    requires work != [] && Last(work).node in f.low && Last(work).node in f.indexOf
    requires Below(work) != [] ==> Last(Below(work)).node in f.low
    requires at <= |f.sccStack|
  {
    var w := Last(work).node;
    var popped := if f.low[w] == f.indexOf[w] then PoppedFields(f, at) else f;
    if Below(work) == [] then popped
    else
      var p := Last(Below(work)).node;
      popped.(low := f.low[p := Min(f.low[p], f.low[w])])
  }

  lemma StackDistinct(f: State, s: Search)
    requires StackLinked(f, s)
    ensures forall i, j :: 0 <= i < j < |f.sccStack| ==> f.sccStack[i] != f.sccStack[j]
  {}

  /** Leaving a node whose list is exhausted keeps the loop invariant. */
  lemma SettleKeeps(g: Edges, f: State, s: Search, work: seq<Frame>) returns (t: Search, at: nat)
    requires work != [] && Linked(g, f, s, work)
    requires Last(work).node in g && Last(work).nextChild >= |g[Last(work).node]|
    requires forall i :: 0 <= i < |work| - 1 ==> work[i].nextChild > 0
    ensures Last(work).node in f.low && Last(work).node in f.indexOf
    ensures Below(work) != [] ==> Last(Below(work)).node in f.low
    ensures at < |f.sccStack| && f.sccStack[at] == Last(work).node
    ensures forall i, j :: 0 <= i < j < |f.sccStack| ==> f.sccStack[i] != f.sccStack[j]
    ensures Searching(g, SettledFields(f, work, at), t, Below(work))
  {
    hide Core, Recorded, WorkLinked;
    var w := Last(work).node;
    TopSeen(g, f, s, work);
    InnerHasParent(g, f, s, work);
    StackDistinct(f, s);
    at := SuffixTail(f, s, w);
    if f.low[w] == f.indexOf[w] {
      t := LeftRoot(s, w);
      TopFrame(s, work);
      RootLinked(g, f, s, work, at);
      if Below(work) != [] {
        var p := Last(Below(work)).node;
        ParentLow(g, f, s, w, p);
        assert f.low[p := Min(f.low[p], f.low[w])] == f.low;
      }
    } else {
      var p := Last(Below(work)).node;
      InnerLinked(g, f, s, work, p);
      t := LeftInner(s, w, p);
    }
  }

  /** A parent's low value is below the index of the node over it. */
  lemma ParentLow(g: Edges, f: State, s: Search, w: Id, p: Id)
    requires Core(g, s) && f.low == s.low && IsParent(s, w, p)
    ensures p in f.low && s.low[p] <= s.index[p] < s.index[w]
  {
    assert LowWitness(g, s, p);
  }

  class Tarjan {
    const deps: Edges
    var indexOf: map<Id, nat>
    var low: map<Id, nat>
    var onStack: set<Id>
    var sccStack: seq<Id>
    var sccs: seq<seq<Id>>
    var counter: nat

    ghost function Fields(): State
      reads this
    {
      State(indexOf, low, onStack, sccStack, sccs, counter)
    }

    /** Between two visits. */
    ghost predicate Valid()
      reads this
    {
      Closed(deps) && Linked(deps, Fields(), Idle(deps, Fields()), [])
    }

    constructor (deps: Edges)
      requires Closed(deps)
      ensures this.deps == deps && Valid() && indexOf == map[]
    {
      this.deps := deps;
      indexOf, low, onStack, sccStack, sccs, counter := map[], map[], {}, [], [], 0;
    }

    /** The search from one root, unless an earlier one came by it. */
    method Visit(root: Id)
      requires Valid() && root in deps
      modifies this
      ensures Valid()
      ensures old(indexOf).Keys + {root} <= indexOf.Keys
    {
      hide Core, Recorded, StackLinked, WorkLinked, Unvisited, Remaining, Linked, Pending, Idle;
      if root in indexOf { return; }
      var work := [Frame(root, 0)];
      ghost var s := Idle(deps, Fields());
      StartPending(deps, Fields(), root);
      while work != []
        invariant Searching(deps, Fields(), s, work)
        invariant old(indexOf).Keys <= indexOf.Keys
        invariant root in indexOf || work == [Frame(root, 0)]
        decreases Unvisited(deps, indexOf, work), Remaining(deps, work)
      {
        s := EnterFresh(work, s);
        work, s := Turn(work, s);
      }
      EndIdle(deps, Fields(), s);
    }

    /** The first half of a turn: enter the top frame's node when the frame is new. */
    method EnterFresh(work: seq<Frame>, ghost s: Search) returns (ghost t: Search)
      requires work != [] && Searching(deps, Fields(), s, work)
      modifies this
      ensures Linked(deps, Fields(), t, work)
      ensures forall i :: 0 <= i < |work| - 1 ==> work[i].nextChild > 0
      ensures Last(work).node in indexOf && old(indexOf).Keys <= indexOf.Keys
      ensures Unvisited(deps, indexOf, work) == old(Unvisited(deps, indexOf, work))
    {
      hide Core, Recorded, StackLinked, WorkLinked, Linked, Pending;
      t := s;
      var frame := work[|work| - 1];
      if frame.nextChild == 0 {
        OpenLinked(deps, Fields(), s, work);
        EnterProgress(deps, Fields(), work);
        t := OpenTop(s, work);
        Enter(frame.node);
      }
      TopSeen(deps, Fields(), t, work);
    }

    /** The second half: look at the next child, or leave the node when there is none. */
    method Turn(work: seq<Frame>, ghost s: Search) returns (rest: seq<Frame>, ghost t: Search)
      requires Closed(deps) && work != [] && Linked(deps, Fields(), s, work)
      requires forall i :: 0 <= i < |work| - 1 ==> work[i].nextChild > 0
      modifies this`low, this`onStack, this`sccStack, this`sccs
      ensures Searching(deps, Fields(), t, rest)
      ensures Unvisited(deps, indexOf, rest) < Unvisited(deps, indexOf, work) ||
              (Unvisited(deps, indexOf, rest) == Unvisited(deps, indexOf, work) &&
               Remaining(deps, rest) < Remaining(deps, work))
    {
      hide Core, Recorded, StackLinked, WorkLinked, Linked, Unvisited, Remaining, Searching;
      TopSeen(deps, Fields(), s, work);
      var frame := work[|work| - 1];
      if frame.nextChild < |deps[frame.node]| {
        AdvanceProgress(deps, Fields(), s, work);
        t := AdvanceKeeps(deps, Fields(), s, work);
        rest := Advance(work);
      } else {
        DropProgress(deps, Fields(), work);
        ghost var at;
        t, at := SettleKeeps(deps, Fields(), s, work);
        rest := Settle(work, at);
      }
    }

    /** Opens a node: it is numbered and stacked. */
    method Enter(node: Id)
      modifies this
      ensures Fields() == EnteredFields(old(Fields()), node)
    {
      indexOf := indexOf[node := counter];
      low := low[node := counter];
      counter := counter + 1;
      sccStack := sccStack + [node];
      onStack := onStack + {node};
    }

    /** Look at the top frame's next child: open it, or let it lower the frame's low value. */
    method Advance(work: seq<Frame>) returns (rest: seq<Frame>)
      requires work != [] && Last(work).node in deps && Last(work).nextChild < |deps[Last(work).node]|
      requires Last(work).node in low
      modifies this`low
      ensures var c := deps[Last(work).node][Last(work).nextChild];
              if c !in indexOf then Fields() == old(Fields()) && rest == Stepped(work) + [Frame(c, 0)]
              else Fields() == MovedFields(old(Fields()), Last(work).node, c) && rest == Stepped(work)
    {
      var frame := work[|work| - 1];
      var child := deps[frame.node][frame.nextChild];
      rest := work[..|work| - 1] + [Frame(frame.node, frame.nextChild + 1)];
      if child !in indexOf {
        rest := rest + [Frame(child, 0)];
      } else if child in onStack {
        low := low[frame.node := Min(low[frame.node], indexOf[child])];
      }
    }

    /** Closes a node: either a component ends with it, or its parent inherits its low value. */
    method Settle(work: seq<Frame>, ghost at: nat) returns (rest: seq<Frame>)
      requires work != [] && Last(work).node in low && Last(work).node in indexOf
      requires Below(work) != [] ==> Last(Below(work)).node in low
      requires at < |sccStack| && sccStack[at] == Last(work).node
      requires forall i, j :: 0 <= i < j < |sccStack| ==> sccStack[i] != sccStack[j]
      modifies this`low, this`onStack, this`sccStack, this`sccs
      ensures rest == Below(work)
      ensures Fields() == SettledFields(old(Fields()), work, at)
    {
      var node := work[|work| - 1].node;
      if low[node] == indexOf[node] {
        PopScc(node, at);
      }
      rest := work[..|work| - 1];
      if rest != [] {
        var parent := rest[|rest| - 1].node;
        low := low[parent := Min(low[parent], low[node])];
      }
    }

    /** Takes a finished component off the stack, and keeps it when it has more than one node. */
    method PopScc(root: Id, ghost at: nat)
      requires at < |sccStack| && sccStack[at] == root
      requires forall i, j :: 0 <= i < j < |sccStack| ==> sccStack[i] != sccStack[j]
      modifies this`sccStack, this`onStack, this`sccs
      ensures Fields() == PoppedFields(old(Fields()), at)
    {
      var component := PopDownTo(root, at);
      var members := set x | x in component;
      PoppedMembers(old(sccStack), at, component);
      if |component| > 1 {
        sccs := sccs + [Text.Sorted(members)];
      }
    }

    /** The popping loop: everything from `root` upwards, topmost first. */
    method PopDownTo(root: Id, ghost at: nat) returns (component: seq<Id>)
      requires at < |sccStack| && sccStack[at] == root
      requires forall i :: at < i < |sccStack| ==> sccStack[i] != root
      modifies this`sccStack, this`onStack
      ensures sccStack == old(sccStack)[..at]
      ensures component == Reversed(old(sccStack)[at..])
      ensures onStack == old(onStack) - Elems(component)
    {
      component := [];
      ghost var full := sccStack;
      while true
        invariant at < |sccStack| && sccStack == full[..|sccStack|]
        invariant component == Reversed(full[|sccStack|..])
        invariant onStack == old(onStack) - Elems(component)
        decreases |sccStack|
      {
        ghost var n := |sccStack| - 1;
        var w := sccStack[|sccStack| - 1];
        sccStack := sccStack[..|sccStack| - 1];
        onStack := onStack - {w};
        ElemsSnoc(component, w);
        assert full[n..] == [w] + full[n + 1..];
        component := component + [w];
        if w == root { break; }
      }
    }
  }

  function Reversed(a: seq<Id>): seq<Id> {
    if a == [] then [] else Reversed(a[1..]) + [a[0]]
  }

  lemma {:induction false} ReversedSame(a: seq<Id>)
    ensures |Reversed(a)| == |a| && Elems(Reversed(a)) == Elems(a)
  {
    if a != [] {
      ReversedSame(a[1..]);
      ElemsSnoc(Reversed(a[1..]), a[0]);
      assert a == [a[0]] + a[1..];
    }
  }

  lemma PoppedMembers(stack: seq<Id>, at: nat, component: seq<Id>)
    requires at < |stack| && component == Reversed(stack[at..])
    requires forall i, j :: 0 <= i < j < |stack| ==> stack[i] != stack[j]
    ensures Elems(component) == Elems(stack[at..])
    ensures |component| == |Elems(stack[at..])|
  {
    ReversedSame(stack[at..]);
    DistinctSize(stack[at..]);
  }
}
