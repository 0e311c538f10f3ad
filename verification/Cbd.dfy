/** How a create-before-destroy declaration spreads to everything its node depends on. */
module Cbd {
  import opened Graphs
  import opened Ir

  ghost predicate Declares(nodes: IRGraph, o: Id) {
    exists d :: d in nodes && d.id == o && d.createBeforeDestroy
  }

  /** The declared node `origin` depends on `n`, directly or not, or is `n`. */
  ghost predicate Forces(ir: IRGraph, origin: Id, n: Id) {
    Declares(ir, origin) && Reach(EdgesOf(ir), origin, n)
  }

  /** Every id a config mentions: its nodes and the ends of their edges. */
  function Mentioned(ir: IRGraph): set<Id> {
    Ids(ir) + set k, d | k in EdgesOf(ir) && d in EdgesOf(ir)[k] :: d
  }

  lemma ReachMentioned(ir: IRGraph, a: Id, b: Id)
    requires a in Mentioned(ir) && Reach(EdgesOf(ir), a, b)
    ensures b in Mentioned(ir)
  {
    ClosedUnder(EdgesOf(ir), Mentioned(ir), a, b);
  }

  /** Some declaration reaches each of these ids, so replacing one creates its successor first. */
  ghost function EffectiveCbd(ir: IRGraph): set<Id> {
    set n | n in Mentioned(ir) && exists o :: Forces(ir, o, n)
  }

  lemma ForcedIsEffective(ir: IRGraph, origin: Id, n: Id)
    requires Forces(ir, origin, n)
    ensures n in EffectiveCbd(ir)
  {
    var d :| d in ir && d.id == origin && d.createBeforeDestroy;
    assert d.id in Ids(ir);
    ReachMentioned(ir, origin, n);
  }

  ghost predicate IsForcers(ir: IRGraph, forcers: map<Id, set<Id>>) {
    && forcers.Keys == EffectiveCbd(ir)
    && forall n, o :: n in forcers ==> (o in forcers[n] <==> Forces(ir, o, n))
  }

  /** Every create-before-destroy node with the declared nodes that make it so. */
  ghost function ForcersFor(ir: IRGraph): (forcers: map<Id, set<Id>>)
    ensures IsForcers(ir, forcers)
  {
    ForcesFromNodes(ir);
    map n | n in EffectiveCbd(ir) :: set o | o in Ids(ir) && Forces(ir, o, n)
  }

  lemma ForcesFromNodes(ir: IRGraph)
    ensures forall o, n :: Forces(ir, o, n) ==> o in Ids(ir) && n in EffectiveCbd(ir)
  {
    hide EffectiveCbd;
    forall o, n | Forces(ir, o, n) ensures o in Ids(ir) && n in EffectiveCbd(ir) { ForcedIsEffective(ir, o, n); }
  }

  lemma OnlyOneForcers(ir: IRGraph, forcers: map<Id, set<Id>>)
    requires IsForcers(ir, forcers)
    ensures forcers == ForcersFor(ir)
  {
    hide EffectiveCbd, Forces;
    var mine := ForcersFor(ir);
    forall n | n in forcers ensures forcers[n] == mine[n] {}
  }

  function Marked(forcers: map<Id, set<Id>>, origin: Id): set<Id> {
    set n | n in forcers && origin in forcers[n]
  }

  function With(forcers: map<Id, set<Id>>, n: Id, origin: Id): map<Id, set<Id>> {
    forcers[n := (if n in forcers then forcers[n] else {}) + {origin}]
  }

  /** `forcers` after the walk from `origin`, whatever order the walk took. */
  ghost predicate Walked(g: Edges, origin: Id, before: map<Id, set<Id>>, after: map<Id, set<Id>>) {
    && (forall n, o :: o != origin ==> ((n in before && o in before[n]) <==> (n in after && o in after[n])))
    && (forall n :: (n in before && origin in before[n]) || Reach(g, origin, n) <==> n in after && origin in after[n])
    && (forall n :: n in after ==> after[n] != {})
  }

  /** The walk's invariant: marks and pending nodes are reachable, and nothing reachable is lost. */
  ghost predicate Walking(g: Edges, all: set<Id>, origin: Id, before: map<Id, set<Id>>, forcers: map<Id, set<Id>>,
                          stack: seq<Id>)
  {
    && (forall n :: n in stack || n in Marked(forcers, origin) ==> n in all && Reach(g, origin, n))
    && (origin in stack || origin in Marked(forcers, origin))
    && (forall n, d :: n in Marked(forcers, origin) && Step(g, n, d) ==> d in stack || d in Marked(forcers, origin))
    && (forall n, o :: o != origin ==> ((n in before && o in before[n]) <==> (n in forcers && o in forcers[n])))
    && (forall n :: n in forcers ==> forcers[n] != {})
  }

  lemma MarkOne(all: set<Id>, forcers: map<Id, set<Id>>, n: Id, origin: Id)
    requires n in all && n !in Marked(forcers, origin)
    ensures Marked(With(forcers, n, origin), origin) == Marked(forcers, origin) + {n}
    ensures |all - Marked(With(forcers, n, origin), origin)| < |all - Marked(forcers, origin)|
  {
    assert Marked(With(forcers, n, origin), origin) == Marked(forcers, origin) + {n};
    SmallerSet(all - (Marked(forcers, origin) + {n}), all - Marked(forcers, origin));
  }

  lemma WithOthers(forcers: map<Id, set<Id>>, n: Id, origin: Id)
    ensures forall k, o :: o != origin ==> ((k in forcers && o in forcers[k]) <==>
                                            (k in With(forcers, n, origin) && o in With(forcers, n, origin)[k]))
    ensures forall k :: k in With(forcers, n, origin) ==> k == n || k in forcers
    ensures forall k :: k in With(forcers, n, origin) && (k in forcers ==> forcers[k] != {}) ==> With(forcers, n, origin)[k] != {}
  {}

  lemma WalkMarks(g: Edges, all: set<Id>, origin: Id, before: map<Id, set<Id>>, forcers: map<Id, set<Id>>,
                  stack: seq<Id>, n: Id, edges: seq<Id>)
    requires Walking(g, all, origin, before, forcers, stack + [n]) && n !in Marked(forcers, origin)
    requires forall d :: d in edges <==> Step(g, n, d)
    requires forall d :: d in edges ==> d in all
    ensures Walking(g, all, origin, before, With(forcers, n, origin), stack + edges)
    ensures |all - Marked(With(forcers, n, origin), origin)| < |all - Marked(forcers, origin)|
  {
    hide Reach, Step, Marked, With;
    var marked := Marked(forcers, origin);
    assert n in stack + [n];
    MarkOne(all, forcers, n, origin) by { assert n in stack + [n]; }
    WithOthers(forcers, n, origin);
    WalkReach(g, all, origin, forcers, stack, n, edges);
    forall k, d | k in marked + {n} && Step(g, k, d) ensures d in stack + edges || d in marked + {n} {
      if k != n { assert d in stack + [n] || d in marked; }
    }
  }

  lemma WalkReach(g: Edges, all: set<Id>, origin: Id, forcers: map<Id, set<Id>>, stack: seq<Id>, n: Id, edges: seq<Id>)
    requires forall k :: k in stack + [n] || k in Marked(forcers, origin) ==> k in all && Reach(g, origin, k)
    requires forall d :: d in edges ==> d in all && Step(g, n, d)
    ensures forall k :: k in stack + edges || k in Marked(forcers, origin) + {n} ==> k in all && Reach(g, origin, k)
  {
    assert n in stack + [n];
    forall d | d in stack + edges ensures d in all && Reach(g, origin, d) {
      if d in edges {
        ReachSnoc(g, origin, n, d);
      } else {
        assert d in stack + [n];
      }
    }
  }

  lemma WalkSkips(g: Edges, all: set<Id>, origin: Id, before: map<Id, set<Id>>, forcers: map<Id, set<Id>>,
                  stack: seq<Id>, n: Id)
    requires Walking(g, all, origin, before, forcers, stack + [n]) && n in Marked(forcers, origin)
    ensures Walking(g, all, origin, before, forcers, stack)
  {
    assert forall d :: d in stack + [n] <==> d in stack || d == n;
  }

  lemma WalkEnds(g: Edges, all: set<Id>, origin: Id, before: map<Id, set<Id>>, forcers: map<Id, set<Id>>)
    requires Walking(g, all, origin, before, forcers, []) && Marked(before, origin) == {}
    ensures Walked(g, origin, before, forcers)
  {
    forall n | n in before ensures origin !in before[n] { assert n !in Marked(before, origin); }
    forall n | Reach(g, origin, n) ensures n in Marked(forcers, origin) {
      ClosedUnder(g, Marked(forcers, origin), origin, n);
    }
  }

  lemma MarkedIff(forcers: map<Id, set<Id>>, origin: Id, n: Id)
    ensures n in Marked(forcers, origin) <==> n in forcers && origin in forcers[n]
  {}

  lemma EdgesListed(ir: IRGraph, n: Id)
    ensures var edges := if n in ById(ir) then ById(ir)[n].Edges() else [];
            (forall d :: d in edges <==> Step(EdgesOf(ir), n, d)) && (forall d :: d in edges ==> d in Mentioned(ir))
  {
    var g := EdgesOf(ir);
    forall d | Step(g, n, d) ensures d in Mentioned(ir) { assert n in g && d in g[n]; }
  }

  lemma WalkStarts(ir: IRGraph, origin: Id, before: map<Id, set<Id>>)
    requires origin in Ids(ir) && Marked(before, origin) == {} && forall n :: n in before ==> before[n] != {}
    ensures Walking(EdgesOf(ir), Mentioned(ir), origin, before, before, [origin])
  {
    ReachSelf(EdgesOf(ir), origin);
  }

  /** Everything `origin` depends on gets marked with it. */
  method Walk(ir: IRGraph, origin: Id, before: map<Id, set<Id>>) returns (forcers: map<Id, set<Id>>)
    requires UniqueIds(ir) && origin in Ids(ir)
    requires Marked(before, origin) == {} && forall n :: n in before ==> before[n] != {}
    ensures Walked(EdgesOf(ir), origin, before, forcers)
  {
    hide Walking, With, Mentioned, EdgesOf, Step, Marked, Walked, IRNode.Edges, Ids;
    forcers := before;
    var byId := ById(ir);
    ghost var g, all := EdgesOf(ir), Mentioned(ir);
    var stack := [origin];
    WalkStarts(ir, origin, before);
    while stack != []
      invariant Walking(g, all, origin, before, forcers, stack)
      decreases |all - Marked(forcers, origin)|, |stack|
    {
      var n := stack[|stack| - 1];
      var rest := stack[..|stack| - 1];
      assert stack == rest + [n];
      MarkedIff(forcers, origin, n);
      if n !in forcers || origin !in forcers[n] {
        var edges := if n in byId then byId[n].Edges() else [];
        EdgesListed(ir, n);
        WalkMarks(g, all, origin, before, forcers, rest, n, edges);
        forcers := With(forcers, n, origin);
        stack := rest + edges;
      } else {
        WalkSkips(g, all, origin, before, forcers, rest, n);
        stack := rest;
      }
    }
    WalkEnds(g, all, origin, before, forcers);
  }

  ghost predicate ForcersOf(ir: IRGraph, nodes: IRGraph, forcers: map<Id, set<Id>>) {
    && (forall n, o :: n in forcers && o in forcers[n] <==>
          Declares(nodes, o) && Reach(EdgesOf(ir), o, n))
    && (forall n :: n in forcers ==> forcers[n] != {})
  }

  lemma DeclaresSnoc(nodes: IRGraph, node: IRNode, o: Id)
    ensures Declares(nodes + [node], o) <==> Declares(nodes, o) || (node.id == o && node.createBeforeDestroy)
  {
    assert forall d :: d in nodes + [node] <==> d in nodes || d == node;
  }

  lemma ForcersStep(ir: IRGraph, nodes: IRGraph, node: IRNode, before: map<Id, set<Id>>, after: map<Id, set<Id>>)
    requires ForcersOf(ir, nodes, before) && node.id !in Ids(nodes)
    requires if node.createBeforeDestroy then Walked(EdgesOf(ir), node.id, before, after) else after == before
    ensures ForcersOf(ir, nodes + [node], after)
  {
    forall n, o ensures n in after && o in after[n] <==> Declares(nodes + [node], o) && Reach(EdgesOf(ir), o, n) {
      DeclaresSnoc(nodes, node, o);
    }
  }

  /** Every create-before-destroy node with exactly the declared nodes that make it so. */
  method CbdForcers(ir: IRGraph) returns (forcers: map<Id, set<Id>>)
    requires UniqueIds(ir)
    ensures IsForcers(ir, forcers)
  {
    forcers := map[];
    for i := 0 to |ir|
      invariant ForcersOf(ir, ir[..i], forcers)
    {
      assert ir[..i + 1] == ir[..i] + [ir[i]];
      ghost var before := forcers;
      assert ir[i].id !in Ids(ir[..i]);
      if ir[i].createBeforeDestroy {
        assert forall n :: n in Marked(forcers, ir[i].id) ==> Declares(ir[..i], ir[i].id);
        assert ir[i].id in Ids(ir);
        forcers := Walk(ir, ir[i].id, forcers);
      }
      ForcersStep(ir, ir[..i], ir[i], before, forcers);
    }
    assert ir[..|ir|] == ir;
    ForcersComplete(ir, forcers);
  }

  lemma ForcersComplete(ir: IRGraph, forcers: map<Id, set<Id>>)
    requires ForcersOf(ir, ir, forcers)
    ensures IsForcers(ir, forcers)
  {
    hide EdgesOf, Mentioned, Declares;
    forall n ensures n in forcers <==> n in EffectiveCbd(ir) {
      if n in forcers {
        var o :| o in forcers[n];
        assert Forces(ir, o, n);
        ForcedIsEffective(ir, o, n);
      }
      if n in EffectiveCbd(ir) {
        var o :| Forces(ir, o, n);
        assert n in forcers && o in forcers[n];
      }
    }
  }
}
