/** Building the dependency graph of a config, and rejecting cycles. */
module GraphBuild {
  import opened Graphs
  import opened Ir
  import opened TarjanSteps
  import opened TarjanSearch
  import Text

  /** Each node's prerequisites in `deps`, and the nodes waiting on it in `dependents`. */
  datatype DiGraph = DiGraph(nodeIds: seq<Id>, deps: Edges, dependents: Edges)
  {
    /** Nodes that must act before `id` in the given direction. */
    function Predecessors(reverse: bool): Edges {
      if reverse then dependents else deps
    }

    /** Nodes unblocked once `id` has acted. */
    function Successors(reverse: bool): Edges {
      if reverse then deps else dependents
    }
  }

  /** The two adjacency maps are mirror images over the same, sorted, nodes. */
  ghost predicate Mirrored(g: DiGraph) {
    && Text.Ascending(g.nodeIds) && Elems(g.nodeIds) == g.deps.Keys == g.dependents.Keys
    && Closed(g.deps)
    && (forall a, b :: Step(g.deps, a, b) <==> Step(g.dependents, b, a))
    && (forall n :: n in g.deps ==> Text.Ascending(g.deps[n]) && Text.Ascending(g.dependents[n]))
  }

  datatype Build =
    | Built(graph: DiGraph)
    | Cyclic(cycles: seq<seq<Id>>)
    | UnknownDependency(node: Id, dep: Id)

  /** Every component of more than one node, each once, then every self-loop in id order. */
  ghost predicate IsCycleList(g: Edges, cycles: seq<seq<Id>>) {
    exists sccs, loops :: cycles == sccs + loops && Recorded(g, sccs, g.Keys) && IsLoopList(g, loops)
  }

  ghost predicate IsLoopList(g: Edges, loops: seq<seq<Id>>) {
    && (forall l :: l in loops ==> |l| == 1 && Step(g, l[0], l[0]))
    && (forall n :: Step(g, n, n) ==> [n] in loops)
    && (forall i, j :: 0 <= i < j < |loops| ==> loops[i] != loops[j])
  }

  lemma CycleIsListed(g: Edges, sccs: seq<seq<Id>>, loops: seq<seq<Id>>, v: Id)
    requires ReachPlus(g, v, v) && Recorded(g, sccs, g.Keys) && IsLoopList(g, loops)
    ensures sccs + loops != []
  {
    var d :| Step(g, v, d) && Reach(g, d, v);
    ReachOne(g, v, d);
    if d == v {
      assert [v] in loops;
    } else {
      assert Mutual(g, v, d);
    }
  }

  /** An empty list means an acyclic graph, and the other way round. */
  lemma NoCyclesIffAcyclic(g: Edges, cycles: seq<seq<Id>>)
    requires Closed(g) && IsCycleList(g, cycles)
    ensures cycles == [] <==> Acyclic(g)
  {
    var sccs, loops :| cycles == sccs + loops && Recorded(g, sccs, g.Keys) && IsLoopList(g, loops);
    if cycles == [] {
      forall v ensures !ReachPlus(g, v, v) {
        if ReachPlus(g, v, v) { CycleIsListed(g, sccs, loops, v); }
      }
    } else if sccs != [] {
      var c := sccs[0];
      assert IsListed(g, c, g.Keys);
      assert c[0] in Elems(c) && c[1] in Elems(c);
      Text.AscendingDistinct(c);
      assert Mutual(g, c[0], c[1]);
      ReachUncons(g, c[0], c[1]);
      ReachPlusReach(g, c[0], c[1], c[0]);
    } else {
      var l := loops[0];
      assert l in loops;
      ReachSelf(g, l[0]);
      assert ReachPlus(g, l[0], l[0]);
    }
  }

  /** The cycles to report: each component of several nodes, then each self-loop. */
  method FindCycles(nodeIds: seq<Id>, deps: Edges) returns (cycles: seq<seq<Id>>)
    requires Closed(deps) && Text.Ascending(nodeIds) && Elems(nodeIds) == deps.Keys
    ensures IsCycleList(deps, cycles)
  {
    hide Linked, Recorded, IsLoopList, Closed;
    var tarjan := new Tarjan(deps);
    for i := 0 to |nodeIds|
      invariant tarjan.deps == deps && tarjan.Valid()
      invariant Elems(nodeIds[..i]) <= tarjan.indexOf.Keys
    {
      assert nodeIds[i] in Elems(nodeIds);
      tarjan.Visit(nodeIds[i]);
      assert nodeIds[..i + 1] == nodeIds[..i] + [nodeIds[i]];
    }
    assert nodeIds[..|nodeIds|] == nodeIds;
    AllDone(deps, tarjan.Fields());
    var loops := SelfLoops(nodeIds, deps);
    cycles := tarjan.sccs + loops;
  }

  method SelfLoops(nodeIds: seq<Id>, deps: Edges) returns (loops: seq<seq<Id>>)
    requires Text.Ascending(nodeIds) && Elems(nodeIds) == deps.Keys
    ensures IsLoopList(deps, loops)
  {
    hide Text.Ascending;
    loops := [];
    Text.AscendingDistinct(nodeIds);
    forall n ensures n in deps <==> n in nodeIds { assert n in Elems(nodeIds) <==> n in nodeIds; }
    for i := 0 to |nodeIds|
      invariant forall l :: l in loops ==> |l| == 1 && l[0] in nodeIds[..i] && Step(deps, l[0], l[0])
      invariant forall n :: n in nodeIds[..i] && Step(deps, n, n) ==> [n] in loops
      invariant forall j, k :: 0 <= j < k < |loops| ==> loops[j] != loops[k]
    {
      assert nodeIds[..i + 1] == nodeIds[..i] + [nodeIds[i]];
      if nodeIds[i] in deps[nodeIds[i]] {
        loops := loops + [[nodeIds[i]]];
      }
    }
    assert nodeIds[..|nodeIds|] == nodeIds;
  }

  /** Once every node was visited the search has recorded every component. */
  lemma AllDone(g: Edges, f: State)
    requires Linked(g, f, Idle(g, f), []) && g.Keys <= f.indexOf.Keys
    ensures Recorded(g, f.sccs, g.Keys)
  {
    assert Idle(g, f).Done() == g.Keys;
  }

  // ----------------------------------------------------------------- adjacency

  ghost predicate UnknownEdge(ir: IRGraph, node: Id, dep: Id) {
    Step(EdgesOf(ir), node, dep) && dep !in Ids(ir)
  }

  /** `acc` lists under each node the nodes in `nodes` with an edge to it. */
  ghost predicate Accumulated(nodes: IRGraph, acc: Edges) {
    forall a, b :: Step(acc, b, a) <==> exists n :: n in nodes && n.id == a && b in n.Edges()
  }

  lemma AccumulatedSnoc(nodes: IRGraph, node: IRNode, before: Edges, after: Edges)
    requires Accumulated(nodes, before)
    requires forall a, b :: Step(after, b, a) <==> Step(before, b, a) || (a == node.id && b in node.Edges())
    ensures Accumulated(nodes + [node], after)
  {
    assert forall n :: n in nodes + [node] <==> n in nodes || n == node;
  }

  /** Add `id` under every node in `edges`. */
  method AppendUnder(acc: Edges, edges: seq<Id>, id: Id) returns (after: Edges)
    requires forall d :: d in edges ==> d in acc
    ensures after.Keys == acc.Keys
    ensures forall a, b :: Step(after, b, a) <==> Step(acc, b, a) || (a == id && b in edges)
  {
    after := acc;
    for j := 0 to |edges|
      invariant after.Keys == acc.Keys
      invariant forall a, b :: Step(after, b, a) <==> Step(acc, b, a) || (a == id && b in edges[..j])
    {
      assert edges[..j + 1] == edges[..j] + [edges[j]];
      assert edges[j] in edges;
      after := after[edges[j] := after[edges[j]] + [id]];
    }
    assert edges[..|edges|] == edges;
  }

  ghost predicate IsAdjacency(ir: IRGraph, r: Adjacent) {
    match r
    case Adjacent(deps, dependents) =>
      deps == EdgesOf(ir) && Mirrored(DiGraph(Text.Sorted(Ids(ir)), deps, dependents))
    case Unknown(n, d) => UnknownEdge(ir, n, d) && FirstUnknownEdge(ir, n, d)
  }

  /** The first edge to an id that `acc` lacks, or the length of `edges`. */
  method FirstUnknown(acc: Edges, edges: seq<Id>) returns (at: nat)
    ensures at <= |edges| && (forall j :: 0 <= j < at ==> edges[j] in acc) && (at < |edges| ==> edges[at] !in acc)
  {
    at := 0;
    while at < |edges| && edges[at] in acc
      invariant at <= |edges| && forall j :: 0 <= j < at ==> edges[j] in acc
    {
      at := at + 1;
    }
  }

  datatype Adjacent = Adjacent(deps: Edges, dependents: Edges) | Unknown(node: Id, dep: Id)

  /** The first edge, in the config's order and each node's, to an id the config lacks. */
  ghost predicate FirstUnknownEdge(ir: IRGraph, node: Id, dep: Id) {
    exists i, j :: 0 <= i < |ir| && 0 <= j < |ir[i].Edges()| && ir[i].id == node && ir[i].Edges()[j] == dep &&
      dep !in Ids(ir) && Known(ir, ir[..i]) && forall k :: 0 <= k < j ==> ir[i].Edges()[k] in Ids(ir)
  }

  /** Each node under every node it has an edge to, or the first edge to an id the config lacks. */
  method Accumulate(ir: IRGraph) returns (acc: Edges, bad: seq<(Id, Id)>)
    requires UniqueIds(ir)
    ensures bad == [] ==> acc.Keys == Ids(ir) && Accumulated(ir, acc) && Known(ir, ir)
    ensures bad != [] ==> UnknownEdge(ir, bad[0].0, bad[0].1) && FirstUnknownEdge(ir, bad[0].0, bad[0].1)
  {
    hide Accumulated, UnknownEdge, Known, IRNode.Edges, Ids;
    acc := map k | k in Ids(ir) :: [];
    bad := [];
    AccumulatedNone(ir, acc);
    for i := 0 to |ir|
      invariant acc.Keys == Ids(ir) && Accumulated(ir[..i], acc) && Known(ir, ir[..i])
    {
      var node := ir[i];
      assert ir[..i + 1] == ir[..i] + [node];
      var edges := node.Edges();
      var at := FirstUnknown(acc, edges);
      if at < |edges| {
        UnknownHere(ir, node, edges[at]);
        return acc, [(node.id, edges[at])];
      }
      ghost var before := acc;
      acc := AppendUnder(acc, edges, node.id);
      AccumulatedSnoc(ir[..i], node, before, acc);
      KnownSnoc(ir, ir[..i], node);
    }
    assert ir[..|ir|] == ir;
  }

  /** The forward and reverse adjacency maps, or the first edge to an id the config lacks. */
  method Adjacency(ir: IRGraph) returns (r: Adjacent)
    requires UniqueIds(ir)
    ensures IsAdjacency(ir, r)
  {
    hide EdgesOf, Mirrored, Accumulated, UnknownEdge, FirstUnknownEdge, Known, UniqueIds;
    var acc, bad := Accumulate(ir);
    if bad != [] {
      r := Unknown(bad[0].0, bad[0].1);
    } else {
      r := Adjacent(EdgesOf(ir), map k | k in acc :: Text.Sorted(Elems(acc[k])));
      MirrorLemma(ir, acc, r.dependents);
    }
  }

  ghost predicate Known(ir: IRGraph, nodes: IRGraph) {
    forall n, d :: n in nodes && d in n.Edges() ==> d in Ids(ir)
  }

  lemma KnownSnoc(ir: IRGraph, nodes: IRGraph, node: IRNode)
    requires Known(ir, nodes) && forall d :: d in node.Edges() ==> d in Ids(ir)
    ensures Known(ir, nodes + [node])
  {
    assert forall n :: n in nodes + [node] <==> n in nodes || n == node;
  }

  lemma AccumulatedNone(ir: IRGraph, acc: Edges)
    requires forall k :: k in acc ==> acc[k] == []
    ensures Accumulated([], acc) && Known(ir, [])
  {}

  lemma UnknownHere(ir: IRGraph, node: IRNode, d: Id)
    requires UniqueIds(ir) && node in ir && d in node.Edges() && d !in Ids(ir)
    ensures UnknownEdge(ir, node.id, d)
  {
    ByIdUnique(ir, node);
  }

  lemma MirrorLemma(ir: IRGraph, acc: Edges, dependents: Edges)
    requires UniqueIds(ir) && acc.Keys == Ids(ir) && Accumulated(ir, acc) && Known(ir, ir)
    requires dependents == map k | k in acc :: Text.Sorted(Elems(acc[k]))
    ensures Mirrored(DiGraph(Text.Sorted(Ids(ir)), EdgesOf(ir), dependents))
  {
    hide EdgesOf, Text.Ascending, Accumulated;
    var deps := EdgesOf(ir);
    forall a, b ensures Step(deps, a, b) <==> Step(acc, b, a) { MirrorStep(ir, acc, a, b); }
    forall a, b | Step(deps, a, b) ensures b in deps { StepNode(ir, a, b); }
    SortedAdjacency(ir, acc, dependents);
    MirrorOf(Ids(ir), deps, acc, dependents);
  }

  lemma MirrorOf(ids: set<Id>, deps: Edges, acc: Edges, dependents: Edges)
    requires deps.Keys == ids == acc.Keys && dependents == map k | k in acc :: Text.Sorted(Elems(acc[k]))
    requires forall a, b :: Step(deps, a, b) <==> Step(acc, b, a)
    requires forall a, b :: Step(deps, a, b) ==> b in deps
    requires forall n :: n in deps ==> Text.Ascending(deps[n]) && n in dependents && Text.Ascending(dependents[n])
    ensures Mirrored(DiGraph(Text.Sorted(ids), deps, dependents))
  {
    hide Text.Ascending, Step, Text.Sorted;
    SortedSteps(acc, dependents);
    SortedElems(ids);
  }

  lemma SortedElems(ids: set<Id>)
    ensures Elems(Text.Sorted(ids)) == ids && Text.Ascending(Text.Sorted(ids))
  {
    Text.SortedAscends(ids);
  }

  lemma SortedSteps(acc: Edges, dependents: Edges)
    requires dependents == map k | k in acc :: Text.Sorted(Elems(acc[k]))
    ensures dependents.Keys == acc.Keys
    ensures forall a, b :: Step(dependents, b, a) <==> Step(acc, b, a)
  {
    hide Text.Ascending;
  }

  lemma SortedAdjacency(ir: IRGraph, acc: Edges, dependents: Edges)
    requires acc.Keys == Ids(ir) && dependents == map k | k in acc :: Text.Sorted(Elems(acc[k]))
    ensures forall n :: n in EdgesOf(ir) ==> Text.Ascending(EdgesOf(ir)[n]) && n in dependents && Text.Ascending(dependents[n])
  {
    hide Text.Ascending, Text.Sorted;
    forall n | n in EdgesOf(ir) ensures Text.Ascending(EdgesOf(ir)[n]) && n in dependents && Text.Ascending(dependents[n]) {
      var node := ById(ir)[n];
      Text.SortedAscends(Elems(node.dependencies) + Elems(node.dependsOn));
      Text.SortedAscends(Elems(acc[n]));
    }
  }

  lemma StepNode(ir: IRGraph, a: Id, b: Id)
    requires Step(EdgesOf(ir), a, b)
    ensures a in ById(ir) && ById(ir)[a] in ir && ById(ir)[a].id == a && b in ById(ir)[a].Edges() && a in Ids(ir)
  {}

  lemma MirrorStep(ir: IRGraph, acc: Edges, a: Id, b: Id)
    requires UniqueIds(ir) && Accumulated(ir, acc)
    ensures Step(EdgesOf(ir), a, b) <==> Step(acc, b, a)
  {
    if Step(acc, b, a) {
      var n :| n in ir && n.id == a && b in n.Edges();
      ByIdUnique(ir, n);
    }
    if Step(EdgesOf(ir), a, b) { StepNode(ir, a, b); }
  }

  /** The dependency graph of a config; it exists exactly when every edge is known and none closes a cycle. */
  method BuildGraph(ir: IRGraph) returns (r: Build)
    requires UniqueIds(ir)
    ensures match r
            case Built(g) => Acyclic(EdgesOf(ir)) && Closed(EdgesOf(ir)) && g.deps == EdgesOf(ir) && Mirrored(g)
            case Cyclic(cycles) => !Acyclic(EdgesOf(ir)) && Closed(EdgesOf(ir)) && IsCycleList(EdgesOf(ir), cycles)
            case UnknownDependency(n, d) => UnknownEdge(ir, n, d) && FirstUnknownEdge(ir, n, d)
  {
    hide EdgesOf, IsCycleList, UnknownEdge, FirstUnknownEdge, Acyclic;
    var nodeIds := Text.Sorted(Ids(ir));
    var adjacent := Adjacency(ir);
    match adjacent {
      case Unknown(n, d) => r := UnknownDependency(n, d);
      case Adjacent(deps, dependents) =>
        var cycles := FindCycles(nodeIds, deps);
        NoCyclesIffAcyclic(deps, cycles);
        r := if cycles != [] then Cyclic(cycles) else Built(DiGraph(nodeIds, deps, dependents));
    }
  }
}
