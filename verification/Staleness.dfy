/** Which nodes re-apply because something upstream of them is being recreated. */
module Staleness {
  import opened Graphs
  import opened Ir
  import opened GraphBuild

  /** A node depends, through at least one edge, on one of `seeds`. */
  ghost predicate Downstream(g: Edges, seeds: set<Id>, n: Id) {
    exists s :: s in seeds && ReachPlus(g, n, s)
  }

  ghost function Stale(g: Edges, seeds: set<Id>): set<Id> {
    set n | n in g.Keys && Downstream(g, seeds, n)
  }

  function Recreated(cs: ChangeSet): set<Id> {
    set c | c in cs && Reidentifies(c.action) :: c.nodeId
  }

  /** `dependents[d]` lists the nodes with an edge to `d`. */
  ghost predicate IsReverse(g: Edges, dependents: Edges) {
    forall a, b :: Step(dependents, b, a) <==> Step(g, a, b)
  }

  /** Every listed node is downstream, and every settled node's dependents are listed; `current` is being settled. */
  ghost predicate Draining(g: Edges, seeds: set<Id>, stale: set<Id>, queue: seq<Id>, current: set<Id>) {
    && (forall n :: n in queue ==> n in seeds || n in stale)
    && stale <= Stale(g, seeds)
    && (forall a, b :: Step(g, a, b) && b in seeds + stale && b !in queue && b !in current ==> a in stale)
  }

  lemma DownstreamStep(g: Edges, seeds: set<Id>, a: Id, b: Id)
    requires Step(g, a, b) && (b in seeds || Downstream(g, seeds, b))
    ensures Downstream(g, seeds, a) && a in Stale(g, seeds)
  {
    if b in seeds {
      ReachSelf(g, b);
      assert ReachPlus(g, a, b);
    } else {
      var s :| s in seeds && ReachPlus(g, b, s);
      ReachOne(g, a, b);
      ReachReachPlus(g, a, b, s);
    }
  }

  lemma DrainedOn(g: Edges, seeds: set<Id>, stale: set<Id>, a: Id, p: seq<Id>, b: Id)
    requires Draining(g, seeds, stale, [], {})
    requires Via(g, a, p, b) && p != [] && b in seeds
    ensures a in stale
    decreases |p|
  {
    if |p| > 1 { DrainedOn(g, seeds, stale, p[0], p[1..], b); }
  }

  lemma Drained(g: Edges, seeds: set<Id>, stale: set<Id>)
    requires Draining(g, seeds, stale, [], {})
    ensures stale == Stale(g, seeds)
  {
    forall n | n in Stale(g, seeds) ensures n in stale {
      var s :| s in seeds && ReachPlus(g, n, s);
      var d :| Step(g, n, d) && Reach(g, d, s);
      var p :| Via(g, d, p, s);
      assert ([d] + p)[1..] == p;
      DrainedOn(g, seeds, stale, n, [d] + p, s);
    }
  }

  lemma DrainPop(g: Edges, seeds: set<Id>, stale: set<Id>, rest: seq<Id>, b: Id)
    requires Draining(g, seeds, stale, rest + [b], {})
    ensures Draining(g, seeds, stale, rest, {b}) && (b in seeds || b in stale)
  {
    hide Stale, Step;
    assert forall n :: n in rest + [b] <==> n in rest || n == b;
  }

  lemma DrainChild(g: Edges, seeds: set<Id>, stale: set<Id>, queue: seq<Id>, b: Id, a: Id)
    requires Draining(g, seeds, stale, queue, {b}) && (b in seeds || b in stale)
    requires Step(g, a, b) && a !in stale
    ensures Draining(g, seeds, stale + {a}, queue + [a], {b})
    ensures |g.Keys - (stale + {a})| < |g.Keys - stale|
  {
    DownstreamStep(g, seeds, a, b);
    SmallerSet(g.Keys - (stale + {a}), g.Keys - stale);
    assert forall n :: n in queue + [a] <==> n in queue || n == a;
  }

  lemma DrainSettled(g: Edges, seeds: set<Id>, stale: set<Id>, queue: seq<Id>, b: Id)
    requires Draining(g, seeds, stale, queue, {b}) && forall a :: Step(g, a, b) ==> a in stale
    ensures Draining(g, seeds, stale, queue, {})
  {}

  /** The dependents of `b`, none when nothing depends on it. */
  function DependentsOf(dependents: Edges, b: Id): seq<Id> {
    if b in dependents then dependents[b] else []
  }

  /** List `id` under every node in `edges`. */
  method ListUnder(before: Edges, edges: seq<Id>, id: Id) returns (dependents: Edges)
    ensures forall a, b :: Step(dependents, b, a) <==> Step(before, b, a) || (a == id && b in edges)
  {
    dependents := before;
    for j := 0 to |edges|
      invariant forall a, b :: Step(dependents, b, a) <==> Step(before, b, a) || (a == id && b in edges[..j])
    {
      assert edges[..j + 1] == edges[..j] + [edges[j]];
      dependents := dependents[edges[j] := DependentsOf(dependents, edges[j]) + [id]];
    }
    assert edges[..|edges|] == edges;
  }

  /** The reverse edges, gathered node by node. */
  method Reverse(ir: IRGraph) returns (dependents: Edges)
    requires UniqueIds(ir)
    ensures IsReverse(EdgesOf(ir), dependents)
  {
    hide Accumulated, IRNode.Edges;
    dependents := map[];
    AccumulatedNone(ir, dependents);
    for i := 0 to |ir|
      invariant Accumulated(ir[..i], dependents)
    {
      assert ir[..i + 1] == ir[..i] + [ir[i]];
      ghost var before := dependents;
      dependents := ListUnder(dependents, ir[i].Edges(), ir[i].id);
      AccumulatedSnoc(ir[..i], ir[i], before, dependents);
    }
    assert ir[..|ir|] == ir;
    forall a, b ensures Step(dependents, b, a) <==> Step(EdgesOf(ir), a, b) { MirrorStep(ir, dependents, a, b); }
  }

  /** One popped id: every dependent not yet stale becomes so, and is queued. */
  method Settle(ghost g: Edges, ghost seeds: set<Id>, start: set<Id>, rest: seq<Id>, b: Id, children: seq<Id>)
    returns (stale: set<Id>, queue: seq<Id>)
    requires Draining(g, seeds, start, rest + [b], {})
    requires forall a :: a in children <==> Step(g, a, b)
    ensures Draining(g, seeds, stale, queue, {})
    ensures |g.Keys - stale| < |g.Keys - start| || (stale == start && queue == rest)
  {
    hide Draining, Step;
    stale, queue := start, rest;
    DrainPop(g, seeds, stale, queue, b);
    for j := 0 to |children|
      invariant Draining(g, seeds, stale, queue, {b}) && (b in seeds || b in stale)
      invariant forall a :: a in children[..j] ==> a in stale
      invariant |g.Keys - stale| < |g.Keys - start| || (stale == start && queue == rest)
    {
      var child := children[j];
      assert children[..j + 1] == children[..j] + [child];
      assert child in children;
      if child !in stale {
        DrainChild(g, seeds, stale, queue, b, child);
        stale, queue := stale + {child}, queue + [child];
      }
    }
    assert children[..|children|] == children;
    DrainSettled(g, seeds, stale, queue, b);
  }

  lemma DrainStarts(g: Edges, seeds: set<Id>, queue: seq<Id>)
    requires forall n :: n in queue <==> n in seeds
    ensures Draining(g, seeds, {}, queue, {})
  {}

  lemma ChildrenOf(g: Edges, dependents: Edges, b: Id)
    requires IsReverse(g, dependents)
    ensures forall a :: a in DependentsOf(dependents, b) <==> Step(g, a, b)
  {
    forall a ensures a in DependentsOf(dependents, b) <==> Step(g, a, b) {
      assert Step(dependents, b, a) <==> Step(g, a, b);
    }
  }

  /** The exact downstream closure of the recreated nodes, whatever order the worklist takes. */
  method StaleDependents(cs: ChangeSet, ir: IRGraph) returns (stale: set<Id>)
    requires UniqueIds(ir)
    ensures stale == Stale(EdgesOf(ir), Recreated(cs))
  {
    hide EdgesOf, Step, Stale, Draining, UniqueIds, IsReverse;
    ghost var g, seeds := EdgesOf(ir), Recreated(cs);
    var dependents := Reverse(ir);
    stale := {};
    var queue := [];
    for i := 0 to |cs|
      invariant forall n :: n in queue <==> n in Recreated(cs[..i])
    {
      assert cs[..i + 1] == cs[..i] + [cs[i]];
      if Reidentifies(cs[i].action) { queue := queue + [cs[i].nodeId]; }
    }
    assert cs[..|cs|] == cs;
    DrainStarts(g, seeds, queue);
    while queue != []
      invariant Draining(g, seeds, stale, queue, {})
      decreases |g.Keys - stale|, |queue|
    {
      var b := queue[|queue| - 1];
      var rest := queue[..|queue| - 1];
      assert queue == rest + [b];
      ChildrenOf(g, dependents, b);
      stale, queue := Settle(g, seeds, stale, rest, b, DependentsOf(dependents, b));
    }
    Drained(g, seeds, stale);
  }
}
