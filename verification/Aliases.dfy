/** Rename without replace: prior state migrated onto the ids a config renamed. */
module Aliases {
  import opened Graphs
  import opened Values
  import opened Ir
  import opened Renaming

  // ------------------------------------------------------------------ the remap

  /** The full id an alias names: as written, or in the new id's stack and type. */
  function ExpandAlias(alias: string, newId: Id): Id {
    if ':' in alias then alias else Before(newId, ':') + ":" + Before(After(newId, ':'), ':') + ":" + alias
  }

  /** A bare alias names the same stack and type under another name; a full id names itself. */
  lemma ExpandsExactly(alias: string, stack: string, typ: string, name: string)
    requires ':' !in stack && ':' !in typ
    ensures ':' in alias ==> ExpandAlias(alias, stack + ":" + typ + ":" + name) == alias
    ensures ':' !in alias ==> ExpandAlias(alias, stack + ":" + typ + ":" + name) == stack + ":" + typ + ":" + alias
  {
    var rest := typ + ":" + name;
    assert stack + ":" + typ + ":" + name == stack + [':'] + rest;
    SplitAt(stack, ':', rest);
    assert rest == typ + [':'] + name;
    SplitAt(typ, ':', name);
  }

  /** Bare aliases need a node id of the form `stack:type:name`. */
  ghost predicate Formatted(ir: IRGraph) {
    forall n, a :: n in ir && a in n.aliases && ':' !in a ==> ':' in n.id
  }

  predicate Free(prior: set<Id>, remap: Remap, oldId: Id) {
    oldId in prior && oldId !in remap
  }

  /** An earlier node already took the old id. */
  ghost predicate TakenBefore(ir: IRGraph, remap: Remap, oldId: Id, j: nat)
    requires j <= |ir|
  {
    oldId in remap && exists i :: 0 <= i < j && ir[i].id == remap[oldId]
  }

  /** None of the node's first `k` aliases was free when its turn came. */
  ghost predicate PassedOver(prior: set<Id>, ir: IRGraph, remap: Remap, j: nat, k: nat)
    requires j < |ir| && k <= |ir[j].aliases|
  {
    forall x :: 0 <= x < k && ExpandAlias(ir[j].aliases[x], ir[j].id) in prior ==>
      TakenBefore(ir, remap, ExpandAlias(ir[j].aliases[x], ir[j].id), j)
  }

  /** Node `j` took `oldId` through its `k`-th alias, the first that was free. */
  ghost predicate Took(prior: set<Id>, ir: IRGraph, remap: Remap, oldId: Id, j: nat, k: nat) {
    && j < |ir| && k < |ir[j].aliases| && ir[j].id !in prior
    && oldId in remap && remap[oldId] == ir[j].id && ExpandAlias(ir[j].aliases[k], ir[j].id) == oldId
    && PassedOver(prior, ir, remap, j, k)
  }

  /** Node `j` took nothing, and could not have. */
  ghost predicate TookNothing(prior: set<Id>, ir: IRGraph, remap: Remap, j: nat)
    requires j < |ir|
  {
    (forall oldId :: oldId in remap ==> remap[oldId] != ir[j].id) &&
    (ir[j].id !in prior ==> PassedOver(prior, ir, remap, j, |ir[j].aliases|))
  }

  /** The remap after the first `n` nodes: every entry was some node's first free alias, and every node without
   * an entry had none. */
  ghost predicate RemapOf(prior: set<Id>, ir: IRGraph, n: nat, remap: Remap)
    requires n <= |ir|
  {
    && (forall oldId :: oldId in remap ==> oldId in prior && exists j: nat, k: nat :: j < n && Took(prior, ir, remap, oldId, j, k))
    && (forall j :: 0 <= j < n ==> TookNothing(prior, ir, remap, j) || exists oldId, k: nat :: Took(prior, ir, remap, oldId, j, k))
  }

  ghost predicate IsRemap(prior: set<Id>, ir: IRGraph, remap: Remap) {
    RemapOf(prior, ir, |ir|, remap)
  }

  lemma TookStays(prior: set<Id>, ir: IRGraph, remap: Remap, more: Remap, oldId: Id, j: nat, k: nat)
    requires Took(prior, ir, remap, oldId, j, k)
    requires forall o :: o in remap ==> o in more && more[o] == remap[o]
    ensures Took(prior, ir, more, oldId, j, k)
  {}

  lemma PassedStays(prior: set<Id>, ir: IRGraph, remap: Remap, more: Remap, j: nat, k: nat)
    requires j < |ir| && k <= |ir[j].aliases| && PassedOver(prior, ir, remap, j, k)
    requires forall o :: o in remap ==> o in more && more[o] == remap[o]
    ensures PassedOver(prior, ir, more, j, k)
  {}

  /** The first free alias of a node, or the number of its aliases. */
  method FirstFree(node: IRNode, prior: set<Id>, remap: Remap) returns (k: nat)
    ensures k <= |node.aliases|
    ensures forall x :: 0 <= x < k ==> !Free(prior, remap, ExpandAlias(node.aliases[x], node.id))
    ensures k < |node.aliases| ==> Free(prior, remap, ExpandAlias(node.aliases[k], node.id))
  {
    hide ExpandAlias;
    k := 0;
    while k < |node.aliases| && !Free(prior, remap, ExpandAlias(node.aliases[k], node.id))
      invariant k <= |node.aliases|
      invariant forall x :: 0 <= x < k ==> !Free(prior, remap, ExpandAlias(node.aliases[x], node.id))
    {
      k := k + 1;
    }
  }

  lemma PassedByScan(prior: set<Id>, ir: IRGraph, remap: Remap, n: nat, k: nat)
    requires n < |ir| && RemapOf(prior, ir, n, remap) && k <= |ir[n].aliases|
    requires forall x :: 0 <= x < k ==> !Free(prior, remap, ExpandAlias(ir[n].aliases[x], ir[n].id))
    ensures PassedOver(prior, ir, remap, n, k)
  {
    hide ExpandAlias, PassedOver;
    forall x | 0 <= x < k && ExpandAlias(ir[n].aliases[x], ir[n].id) in prior
      ensures TakenBefore(ir, remap, ExpandAlias(ir[n].aliases[x], ir[n].id), n)
    {
      var oldId := ExpandAlias(ir[n].aliases[x], ir[n].id);
      var j: nat, y: nat :| j < n && Took(prior, ir, remap, oldId, j, y);
    }
    PassedOverMeans(prior, ir, remap, n, k);
  }

  lemma PassedOverMeans(prior: set<Id>, ir: IRGraph, remap: Remap, j: nat, k: nat)
    requires j < |ir| && k <= |ir[j].aliases|
    requires forall x :: 0 <= x < k && ExpandAlias(ir[j].aliases[x], ir[j].id) in prior ==>
               TakenBefore(ir, remap, ExpandAlias(ir[j].aliases[x], ir[j].id), j)
    ensures PassedOver(prior, ir, remap, j, k)
  {}

  lemma RemapTakes(prior: set<Id>, ir: IRGraph, remap: Remap, n: nat, k: nat)
    requires UniqueIds(ir) && n < |ir| && RemapOf(prior, ir, n, remap)
    requires ir[n].id !in prior && k < |ir[n].aliases| && PassedOver(prior, ir, remap, n, k)
    requires Free(prior, remap, ExpandAlias(ir[n].aliases[k], ir[n].id))
    ensures RemapOf(prior, ir, n + 1, remap[ExpandAlias(ir[n].aliases[k], ir[n].id) := ir[n].id])
  {
    hide ExpandAlias, PassedOver;
    var oldId := ExpandAlias(ir[n].aliases[k], ir[n].id);
    var more := remap[oldId := ir[n].id];
    PassedStays(prior, ir, remap, more, n, k);
    assert Took(prior, ir, more, oldId, n, k);
    forall o | o in more ensures o in prior && exists j: nat, x: nat :: j < n + 1 && Took(prior, ir, more, o, j, x) {
      if o != oldId {
        var j: nat, x: nat :| j < n && Took(prior, ir, remap, o, j, x);
        TookStays(prior, ir, remap, more, o, j, x);
      }
    }
    forall j | 0 <= j < n + 1
      ensures TookNothing(prior, ir, more, j) || exists o, x: nat :: Took(prior, ir, more, o, j, x)
    {
      if j < n {
        if TookNothing(prior, ir, remap, j) {
          if ir[j].id !in prior { PassedStays(prior, ir, remap, more, j, |ir[j].aliases|); }
          assert TookNothing(prior, ir, more, j);
        } else {
          var o, x: nat :| Took(prior, ir, remap, o, j, x);
          TookStays(prior, ir, remap, more, o, j, x);
        }
      }
    }
  }

  lemma RemapSkips(prior: set<Id>, ir: IRGraph, remap: Remap, n: nat)
    requires UniqueIds(ir) && n < |ir| && RemapOf(prior, ir, n, remap)
    requires ir[n].id in prior || PassedOver(prior, ir, remap, n, |ir[n].aliases|)
    ensures RemapOf(prior, ir, n + 1, remap)
  {
    hide ExpandAlias, PassedOver;
    forall oldId | oldId in remap ensures remap[oldId] != ir[n].id {
      var j: nat, k: nat :| j < n && Took(prior, ir, remap, oldId, j, k);
    }
    assert TookNothing(prior, ir, remap, n);
    forall oldId | oldId in remap ensures exists j: nat, k: nat :: j < n + 1 && Took(prior, ir, remap, oldId, j, k) {
      var j: nat, k: nat :| j < n && Took(prior, ir, remap, oldId, j, k);
    }
  }

  /** The ids to migrate: each row that some fresh declared id claims through its aliases. */
  method AliasRemap(prior: set<Id>, ir: IRGraph) returns (remap: Remap)
    requires UniqueIds(ir) && Formatted(ir)
    ensures IsRemap(prior, ir, remap)
  {
    hide RemapOf, ExpandAlias, PassedOver, UniqueIds;
    remap := map[];
    RemapStarts(prior, ir);
    for i := 0 to |ir|
      invariant RemapOf(prior, ir, i, remap)
    {
      var node := ir[i];
      if node.id in prior || node.aliases == [] {
        if node.id !in prior { PassedByScan(prior, ir, remap, i, 0); }
        RemapSkips(prior, ir, remap, i);
        continue;
      }
      var k := FirstFree(node, prior, remap);
      PassedByScan(prior, ir, remap, i, k);
      if k < |node.aliases| {
        RemapTakes(prior, ir, remap, i, k);
        remap := remap[ExpandAlias(node.aliases[k], node.id) := node.id];
      } else {
        RemapSkips(prior, ir, remap, i);
      }
    }
  }

  lemma RemapStarts(prior: set<Id>, ir: IRGraph)
    ensures RemapOf(prior, ir, 0, map[])
  {}

  lemma PassedIsTaken(prior: set<Id>, ir: IRGraph, remap: Remap, j: nat, k: nat, l: nat)
    requires j < |ir| && k < l <= |ir[j].aliases| && PassedOver(prior, ir, remap, j, l)
    requires ExpandAlias(ir[j].aliases[k], ir[j].id) in prior
    ensures TakenBefore(ir, remap, ExpandAlias(ir[j].aliases[k], ir[j].id), j)
  {}

  /** The remap is a bijection from old ids in state onto new ids that are not. */
  lemma RemapIsInjective(prior: set<Id>, ir: IRGraph, remap: Remap, a: Id, b: Id)
    requires UniqueIds(ir) && IsRemap(prior, ir, remap) && a in remap && b in remap
    ensures a in prior && remap[a] !in prior && remap[a] in Ids(ir)
    ensures remap[a] == remap[b] ==> a == b
  {
    hide ExpandAlias, PassedOver;
    var i: nat, k: nat :| i < |ir| && Took(prior, ir, remap, a, i, k);
    var j: nat, l: nat :| j < |ir| && Took(prior, ir, remap, b, j, l);
    assert ir[i] in ir;
    if i == j && k < l { PassedIsTaken(prior, ir, remap, i, k, l); }
    if i == j && l < k { PassedIsTaken(prior, ir, remap, i, l, k); }
  }

  /** A node whose alias is in state either found that alias taken or took some alias itself. */
  lemma FoundOrPassed(prior: set<Id>, ir: IRGraph, found: Remap, j: nat, x: nat)
    requires IsRemap(prior, ir, found) && j < |ir| && ir[j].id !in prior && x < |ir[j].aliases|
    requires ExpandAlias(ir[j].aliases[x], ir[j].id) in prior
    ensures ExpandAlias(ir[j].aliases[x], ir[j].id) in found || exists was, y: nat :: Took(prior, ir, found, was, j, y)
  {
    hide ExpandAlias, PassedOver;
    if TookNothing(prior, ir, found, j) { PassedIsTaken(prior, ir, found, j, x, |ir[j].aliases|); }
  }
}
