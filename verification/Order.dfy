/** Deterministic topological ordering: Kahn's algorithm, ties broken by id. */
module Order {
  import opened Graphs
  import opened GraphBuild
  import Text

  /** Every node's predecessors come before it. */
  ghost predicate Respects(preds: Edges, order: seq<Id>) {
    forall k, p :: 0 <= k < |order| && Step(preds, order[k], p) ==> p in order[..k]
  }

  /** Every node once, after its predecessors. */
  ghost predicate IsTopological(preds: Edges, order: seq<Id>) {
    Distinct(order) && Elems(order) == preds.Keys && Respects(preds, order)
  }

  /** The predecessors of `n` still to act. */
  function Missing(preds: Edges, n: Id, done: set<Id>): set<Id>
    requires n in preds
  {
    Elems(preds[n]) - done
  }

  /** The nodes that could act next. */
  function Available(preds: Edges, done: set<Id>): set<Id> {
    set n | n in preds && n !in done && Missing(preds, n, done) == {}
  }

  /** Each choice was the least available one. */
  ghost predicate Greedy(preds: Edges, order: seq<Id>) {
    forall k :: 0 <= k < |order| ==> Text.IsLeast(order[k], Available(preds, Elems(order[..k])))
  }

  /** `a` is `b` or comes before it in lexicographic order. */
  ghost predicate NoLater(a: seq<Id>, b: seq<Id>) {
    a == b || exists k :: 0 <= k < |a| && k < |b| && a[..k] == b[..k] && Text.Less(a[k], b[k])
  }

  lemma RespectsSnoc(preds: Edges, order: seq<Id>, n: Id)
    requires Respects(preds, order) && n in Available(preds, Elems(order))
    ensures Respects(preds, order + [n])
  {
    var longer := order + [n];
    forall k, p | 0 <= k < |longer| && Step(preds, longer[k], p) ensures p in longer[..k] {
      assert longer[..k] == order[..k];
      if k == |order| {
        assert order[..k] == order && p !in Missing(preds, n, Elems(order));
      }
    }
  }

  lemma GreedySnoc(preds: Edges, order: seq<Id>, n: Id)
    requires Greedy(preds, order) && Text.IsLeast(n, Available(preds, Elems(order)))
    ensures Greedy(preds, order + [n])
  {
    hide Available, Text.IsLeast;
    var longer := order + [n];
    forall k | 0 <= k < |longer| ensures Text.IsLeast(longer[k], Available(preds, Elems(longer[..k]))) {
      assert longer[..k] == order[..k];
      if k == |order| { assert order[..k] == order; }
    }
  }

  lemma SourceIsAvailable(preds: Edges, done: set<Id>, a: Id)
    requires Closed(preds) && a in preds && a !in done
    requires forall b :: b in preds.Keys - done ==> !Step(preds, a, b)
    ensures a in Available(preds, done)
  {
    assert forall p :: p in Missing(preds, a, done) ==> Step(preds, a, p);
  }

  /** When nothing is available in an acyclic graph, nothing is left. */
  lemma NothingLeft(preds: Edges, done: set<Id>)
    requires Acyclic(preds) && Closed(preds) && Available(preds, done) == {} && done <= preds.Keys
    ensures done == preds.Keys
  {
    if x :| x in preds.Keys && x !in done {
      assert x in preds.Keys - done;
      var a := SourceExists(preds, preds.Keys - done);
      SourceIsAvailable(preds, done, a);
    }
  }

  /** Two orders of the same length that differ do so somewhere first. */
  lemma {:induction false} FirstDifference(a: seq<Id>, b: seq<Id>) returns (k: nat)
    requires |a| == |b| && a != b
    ensures k < |a| && a[..k] == b[..k] && a[k] != b[k]
  {
    if a[0] != b[0] {
      k := 0;
    } else {
      assert a == [a[0]] + a[1..] && b == [b[0]] + b[1..];
      var rest := FirstDifference(a[1..], b[1..]);
      k := rest + 1;
      assert a[..k] == [a[0]] + a[1..][..rest] && b[..k] == [b[0]] + b[1..][..rest];
    }
  }

  lemma NextIsAvailable(preds: Edges, order: seq<Id>, k: nat)
    requires IsTopological(preds, order) && k < |order|
    ensures order[k] in Available(preds, Elems(order[..k]))
  {
    assert order[k] in Elems(order);
    forall p | p in Missing(preds, order[k], Elems(order[..k])) ensures false {
      assert Step(preds, order[k], p);
    }
  }

  /** Main result: a greedy topological order is the lexicographically least one. */
  lemma GreedyIsLeast(preds: Edges, order: seq<Id>, other: seq<Id>)
    requires IsTopological(preds, order) && Greedy(preds, order) && IsTopological(preds, other)
    ensures NoLater(order, other)
  {
    hide Available, Respects;
    DistinctSize(order);
    DistinctSize(other);
    if order != other {
      var k := FirstDifference(order, other);
      NextIsAvailable(preds, other, k);
    }
  }

  /** A graph that has a topological order has no cycle. */
  lemma OrderedIsAcyclic(preds: Edges, order: seq<Id>)
    requires IsTopological(preds, order)
    ensures Acyclic(preds)
  {
    forall v ensures !ReachPlus(preds, v, v) {
      if d :| Step(preds, v, d) && Reach(preds, d, v) {
        assert v in Elems(order);
        var i :| 0 <= i < |order| && order[i] == v;
        assert d in order[..i];
        PrefixIsClosed(preds, order, i);
        ClosedUnder(preds, Elems(order[..i]), d, v);
      }
    }
  }

  lemma PrefixIsClosed(preds: Edges, order: seq<Id>, i: nat)
    requires Respects(preds, order) && i <= |order|
    ensures forall x, y :: x in Elems(order[..i]) && Step(preds, x, y) ==> y in Elems(order[..i])
  {
    forall x, y | x in Elems(order[..i]) && Step(preds, x, y) ensures y in Elems(order[..i]) {
      var k :| 0 <= k < i && order[k] == x;
      assert y in order[..k];
      assert order[..k] <= order[..i];
    }
  }

  // ------------------------------------------------------------------ algorithm

  ghost predicate Counts(preds: Edges, done: set<Id>, indegree: map<Id, int>) {
    indegree.Keys == preds.Keys && forall n :: n in preds ==> indegree[n] == |Missing(preds, n, done)|
  }

  /** Both directions of a graph are mirror images. */
  ghost predicate Mirror(preds: Edges, succs: Edges) {
    && preds.Keys == succs.Keys && Closed(preds)
    && (forall a, b :: Step(preds, a, b) <==> Step(succs, b, a))
    && (forall n :: n in preds ==> Text.Ascending(preds[n]) && Text.Ascending(succs[n]))
  }

  lemma MirroredBothWays(g: DiGraph, reverse: bool)
    requires Mirrored(g)
    ensures Mirror(g.Predecessors(reverse), g.Successors(reverse))
  {
    hide Text.Ascending;
    forall a, b | Step(g.dependents, a, b) ensures b in g.dependents { assert Step(g.deps, b, a); }
  }

  lemma {:induction false} MirrorVia(preds: Edges, succs: Edges, a: Id, p: seq<Id>, b: Id)
    requires Mirror(preds, succs) && Via(preds, a, p, b)
    ensures Reach(succs, b, a)
    decreases |p|
  {
    if p == [] {
      ReachSelf(succs, a);
    } else {
      MirrorVia(preds, succs, p[0], p[1..], b);
      ReachSnoc(succs, b, p[0], a);
    }
  }

  /** A graph is acyclic in both directions or in neither. */
  lemma MirrorAcyclic(preds: Edges, succs: Edges)
    requires Mirror(preds, succs) && Acyclic(succs)
    ensures Acyclic(preds)
  {
    forall v ensures !ReachPlus(preds, v, v) {
      if d :| Step(preds, v, d) && Reach(preds, d, v) {
        var p :| Via(preds, d, p, v);
        MirrorVia(preds, succs, d, p, v);
        if v == d { ReachSelf(succs, v); assert ReachPlus(succs, v, v); } else {
          ReachUncons(succs, v, d);
          ReachOne(succs, d, v);
          ReachPlusReach(succs, v, d, v);
        }
      }
    }
  }

  lemma MissingAfter(preds: Edges, succs: Edges, done: set<Id>, node: Id, n: Id)
    requires Mirror(preds, succs) && node in preds && n in preds && node !in done
    ensures |Missing(preds, n, done + {node})| == |Missing(preds, n, done)| - (if n in succs[node] then 1 else 0)
  {
    assert Step(preds, n, node) <==> Step(succs, node, n);
    if n in succs[node] {
      assert Missing(preds, n, done + {node}) == Missing(preds, n, done) - {node};
    } else {
      assert Missing(preds, n, done + {node}) == Missing(preds, n, done);
    }
  }

  lemma DoneIsSettled(preds: Edges, order: seq<Id>, n: Id)
    requires Respects(preds, order) && n in Elems(order) && n in preds
    ensures Missing(preds, n, Elems(order)) == {}
  {
    PrefixIsClosed(preds, order, |order|);
    assert order[..|order|] == order;
    forall p | p in Missing(preds, n, Elems(order)) ensures false { assert Step(preds, n, p); }
  }

  lemma AvailableAfter(preds: Edges, succs: Edges, order: seq<Id>, node: Id, ready: set<Id>)
    requires Mirror(preds, succs) && Respects(preds, order) && node in Available(preds, Elems(order))
    requires forall n :: n in ready <==> (n in Available(preds, Elems(order)) && n != node) ||
                                         (n in preds && n in succs[node] && |Missing(preds, n, Elems(order))| == 1)
    ensures ready == Available(preds, Elems(order + [node]))
  {
    hide Mirror, Respects, Missing;
    var done := Elems(order);
    ElemsSnoc(order, node);
    forall n | n in preds ensures n in ready <==> n in Available(preds, done + {node}) {
      MirrorHas(preds, succs, node);
      MissingAfter(preds, succs, done, node, n);
      if n in done { DoneIsSettled(preds, order, n); }
      assert Missing(preds, n, done) == {} <==> |Missing(preds, n, done)| == 0;
      assert Missing(preds, n, done + {node}) == {} <==> |Missing(preds, n, done + {node})| == 0;
    }
  }

  lemma MirrorHas(preds: Edges, succs: Edges, node: Id)
    requires Mirror(preds, succs) && node in preds
    ensures node in succs && Text.Ascending(succs[node]) && forall n :: n in succs[node] ==> n in preds
  {
    forall n | n in succs[node] ensures n in preds { assert Step(succs, node, n); assert Step(preds, n, node); }
  }

  /** Count the acting node off each of its successors; those it was the last to wait for become ready. */
  method Unblock(indegree: map<Id, int>, ready: set<Id>, succs: seq<Id>) returns (left: map<Id, int>, unblocked: set<Id>)
    requires Text.Ascending(succs) && forall n :: n in succs ==> n in indegree
    ensures left.Keys == indegree.Keys
    ensures forall n :: n in indegree ==> left[n] == indegree[n] - (if n in succs then 1 else 0)
    ensures forall n :: n in unblocked <==> n in ready || (n in succs && indegree[n] == 1)
  {
    left, unblocked := indegree, ready;
    Text.AscendingDistinct(succs);
    for i := 0 to |succs|
      invariant left.Keys == indegree.Keys
      invariant forall n :: n in indegree ==> left[n] == indegree[n] - (if n in succs[..i] then 1 else 0)
      invariant forall n :: n in unblocked <==> n in ready || (n in succs[..i] && indegree[n] == 1)
    {
      var succ := succs[i];
      assert succ in succs && succs[..i + 1] == succs[..i] + [succ];
      assert succ !in succs[..i];
      left := left[succ := left[succ] - 1];
      if left[succ] == 0 { unblocked := unblocked + {succ}; }
    }
    assert succs[..|succs|] == succs;
  }

  /** Everything the loop of `TopologicalOrder` keeps. */
  ghost predicate Ordering(preds: Edges, order: seq<Id>, indegree: map<Id, int>, ready: set<Id>) {
    && Distinct(order) && Elems(order) <= preds.Keys && Respects(preds, order) && Greedy(preds, order)
    && Counts(preds, Elems(order), indegree) && ready == Available(preds, Elems(order))
  }

  lemma OrderingStep(preds: Edges, succs: Edges, order: seq<Id>, indegree: map<Id, int>, ready: set<Id>, node: Id,
                     left: map<Id, int>, unblocked: set<Id>)
    requires Mirror(preds, succs) && Ordering(preds, order, indegree, ready) && Text.IsLeast(node, ready)
    requires node in succs && left.Keys == indegree.Keys
    requires forall n :: n in indegree ==> left[n] == indegree[n] - (if n in succs[node] then 1 else 0)
    requires forall n :: n in unblocked <==> n in ready - {node} || (n in succs[node] && n in indegree && indegree[n] == 1)
    ensures Ordering(preds, order + [node], left, unblocked)
  {
    hide Mirror, Respects, Greedy, Text.IsLeast, Missing;
    assert node in ready by { LeastIsMember(node, ready); }
    ElemsSnoc(order, node);
    RespectsSnoc(preds, order, node);
    GreedySnoc(preds, order, node);
    AvailableAfter(preds, succs, order, node, unblocked);
    forall n | n in preds ensures left[n] == |Missing(preds, n, Elems(order) + {node})| {
      MissingAfter(preds, succs, Elems(order), node, n);
    }
  }

  lemma LeastIsMember(x: Id, s: set<Id>)
    requires Text.IsLeast(x, s)
    ensures x in s
  {}

  lemma AllMissing(preds: Edges, n: Id)
    requires n in preds && Text.Ascending(preds[n])
    ensures |Missing(preds, n, {})| == |preds[n]|
  {
    Text.AscendingDistinct(preds[n]);
    DistinctSize(preds[n]);
    assert Missing(preds, n, {}) == Elems(preds[n]);
  }

  lemma OrderingStarts(preds: Edges, succs: Edges, indegree: map<Id, int>, ready: set<Id>)
    requires Mirror(preds, succs) && indegree.Keys == preds.Keys && forall n :: n in preds ==> indegree[n] == |preds[n]|
    requires ready == set n | n in preds && indegree[n] == 0
    ensures Ordering(preds, [], indegree, ready)
  {
    hide Text.Ascending, Step, Missing, Closed;
    assert Elems([]) == {};
    forall n | n in preds ensures indegree[n] == |Missing(preds, n, {})| { AllMissing(preds, n); }
    forall n | n in preds ensures n in ready <==> n in Available(preds, {}) {
      assert Missing(preds, n, {}) == {} <==> |Missing(preds, n, {})| == 0;
    }
  }

  lemma OrderingKnows(preds: Edges, order: seq<Id>, indegree: map<Id, int>, ready: set<Id>, node: Id)
    requires Ordering(preds, order, indegree, ready) && node in ready
    ensures node in preds && node !in Elems(order) && indegree.Keys == preds.Keys
  {}

  lemma OrderingEnds(preds: Edges, succs: Edges, order: seq<Id>, indegree: map<Id, int>)
    requires Mirror(preds, succs) && Ordering(preds, order, indegree, {})
    ensures Respects(preds, order) && Greedy(preds, order)
    ensures IsTopological(preds, order) <==> Acyclic(preds)
  {
    hide Respects, Greedy, Available, Acyclic;
    if Acyclic(preds) { NothingLeft(preds, Elems(order)); }
    if IsTopological(preds, order) { OrderedIsAcyclic(preds, order); }
  }

  /** Nodes in dependency order, dependencies first, or in destroy order when `reverse`; ties broken by id. */
  method TopologicalOrder(g: DiGraph, reverse: bool) returns (order: seq<Id>)
    requires Mirrored(g)
    ensures Respects(g.Predecessors(reverse), order) && Greedy(g.Predecessors(reverse), order)
    ensures IsTopological(g.Predecessors(reverse), order) <==> Acyclic(g.Predecessors(reverse))
  {
    hide Mirror, Ordering, Mirrored;
    var preds, succs := g.Predecessors(reverse), g.Successors(reverse);
    MirroredBothWays(g, reverse);
    var indegree: map<Id, int> := map n | n in preds :: |preds[n]|;
    var ready := set n | n in preds && indegree[n] == 0;
    order := [];
    OrderingStarts(preds, succs, indegree, ready);
    while ready != {}
      invariant Ordering(preds, order, indegree, ready)
      decreases |preds.Keys - Elems(order)|
    {
      var node := Text.Least(ready);
      OrderingKnows(preds, order, indegree, ready, node);
      MirrorHas(preds, succs, node);
      var left, unblocked := Unblock(indegree, ready - {node}, succs[node]);
      OrderingStep(preds, succs, order, indegree, ready, node, left, unblocked);
      ElemsSnoc(order, node);
      SmallerSet(preds.Keys - Elems(order + [node]), preds.Keys - Elems(order));
      order, indegree, ready := order + [node], left, unblocked;
    }
    OrderingEnds(preds, succs, order, indegree);
  }

  /** A built graph has an order in both directions, and it is the least one. */
  lemma BuiltGraphIsOrdered(g: DiGraph, reverse: bool, order: seq<Id>, other: seq<Id>)
    requires Mirrored(g) && Acyclic(g.deps)
    requires IsTopological(g.Predecessors(reverse), order) <==> Acyclic(g.Predecessors(reverse))
    requires Greedy(g.Predecessors(reverse), order) && IsTopological(g.Predecessors(reverse), other)
    ensures IsTopological(g.Predecessors(reverse), order) && NoLater(order, other)
  {
    hide Mirrored, Greedy;
    MirroredBothWays(g, reverse);
    if reverse { MirrorAcyclic(g.dependents, g.deps); }
    GreedyIsLeast(g.Predecessors(reverse), order, other);
  }
}
