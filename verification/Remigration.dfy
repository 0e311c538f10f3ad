/** Running the alias migration a second time. */
module Remigration {
  import opened Graphs
  import opened Ir
  import opened Renaming
  import opened Aliases
  import opened Migration

  /** After a first pass the node could still take this alias: it names a new id the pass created, or the
   * pass moved the node's own row away. */
  ghost predicate Chained(prior: set<Id>, remap: Remap, n: IRNode, a: string) {
    var named := ExpandAlias(a, n.id);
    named in remap.Values || (n.id in remap && named in prior && named !in remap)
  }

  /** No alias names an id the config itself declares. */
  ghost predicate AliasesForeign(ir: IRGraph) {
    forall n, a :: n in ir && a in n.aliases ==> ExpandAlias(a, n.id) !in Ids(ir)
  }

  lemma NothingTaken(prior: set<Id>, ir: IRGraph, j: nat, a: string)
    requires IsRemap(prior, ir, map[]) && j < |ir| && a in ir[j].aliases && ir[j].id !in prior
    ensures ExpandAlias(a, ir[j].id) !in prior
  {
    hide ExpandAlias;
    var x :| 0 <= x < |ir[j].aliases| && ir[j].aliases[x] == a;
    if ExpandAlias(a, ir[j].id) in prior { FoundOrPassed(prior, ir, map[], j, x); }
  }

  /** What a pass leaves in state: a moved row under its new id, any other under its own. */
  lemma AfterPass(prior: set<Id>, ir: IRGraph, remap: Remap, id: Id)
    requires UniqueIds(ir) && IsRemap(prior, ir, remap)
    ensures id in ImageOf(prior, remap) <==> id in remap.Values || (id in prior && id !in remap)
  {
    hide IsRemap;
    if id in remap.Values {
      var k :| k in remap && remap[k] == id;
      RemapIsInjective(prior, ir, remap, k, k);
      assert Renamed(remap, k) == id;
    }
    if id in prior && id !in remap { assert Renamed(remap, id) == id; }
  }

  lemma SecondTakes(prior: set<Id>, ir: IRGraph, remap: Remap, again: Remap, k: Id) returns (n: IRNode, a: string)
    requires UniqueIds(ir) && IsRemap(prior, ir, remap) && IsRemap(ImageOf(prior, remap), ir, again) && k in again
    ensures n in ir && a in n.aliases && n.id !in ImageOf(prior, remap) && Chained(prior, remap, n, a)
  {
    hide ExpandAlias, PassedOver, ImageOf, Renamed;
    var j: nat, x: nat :| j < |ir| && Took(ImageOf(prior, remap), ir, again, k, j, x);
    n, a := ir[j], ir[j].aliases[x];
    AfterPass(prior, ir, remap, k);
    AfterPass(prior, ir, remap, n.id);
    if k !in remap.Values && n.id !in prior { FirstWouldHave(prior, ir, remap, j, x); }
  }

  /** A node absent from state leaves no alias of its own behind in state. */
  lemma FirstWouldHave(prior: set<Id>, ir: IRGraph, remap: Remap, j: nat, x: nat)
    requires UniqueIds(ir) && IsRemap(prior, ir, remap) && j < |ir| && ir[j].id !in prior && x < |ir[j].aliases|
    requires ExpandAlias(ir[j].aliases[x], ir[j].id) in prior
    ensures ExpandAlias(ir[j].aliases[x], ir[j].id) in remap || ir[j].id in remap.Values
  {
    hide ExpandAlias, RemapOf;
    FoundOrPassed(prior, ir, remap, j, x);
  }

  /** Main result: a second pass finds nothing exactly when no node still absent from state is chained. */
  lemma SecondPassEmptyExactly(prior: set<Id>, ir: IRGraph, remap: Remap, again: Remap)
    requires UniqueIds(ir) && IsRemap(prior, ir, remap) && IsRemap(ImageOf(prior, remap), ir, again)
    ensures again == map[] <==>
            forall n, a :: n in ir && a in n.aliases && n.id !in ImageOf(prior, remap) ==> !Chained(prior, remap, n, a)
  {
    hide IsRemap, ExpandAlias, ImageOf;
    if again == map[] {
      forall n, a | n in ir && a in n.aliases && n.id !in ImageOf(prior, remap) ensures !Chained(prior, remap, n, a) {
        var j :| 0 <= j < |ir| && ir[j] == n;
        NothingTaken(ImageOf(prior, remap), ir, j, a);
        AfterPass(prior, ir, remap, ExpandAlias(a, n.id));
      }
    } else {
      var k :| k in again;
      var n, a := SecondTakes(prior, ir, remap, again, k);
    }
  }

  /** When no alias names a declared id, migration is idempotent. */
  lemma SecondPassIsEmpty(prior: set<Id>, ir: IRGraph, remap: Remap, again: Remap)
    requires UniqueIds(ir) && AliasesForeign(ir)
    requires IsRemap(prior, ir, remap) && IsRemap(ImageOf(prior, remap), ir, again)
    ensures again == map[]
  {
    hide ExpandAlias, ImageOf, IsRemap;
    SecondPassEmptyExactly(prior, ir, remap, again);
    forall n, a | n in ir && a in n.aliases && n.id !in ImageOf(prior, remap) ensures !Chained(prior, remap, n, a) {
      ForeignIsUnchained(prior, ir, remap, n, a);
    }
  }

  lemma NamedBy(prior: set<Id>, ir: IRGraph, remap: Remap, k: Id) returns (n: IRNode, a: string)
    requires IsRemap(prior, ir, remap) && k in remap
    ensures n in ir && a in n.aliases && ExpandAlias(a, n.id) == k
  {
    hide ExpandAlias, PassedOver;
    var j: nat, x: nat :| j < |ir| && Took(prior, ir, remap, k, j, x);
    n, a := ir[j], ir[j].aliases[x];
  }

  lemma ForeignIsUnchained(prior: set<Id>, ir: IRGraph, remap: Remap, n: IRNode, a: string)
    requires UniqueIds(ir) && AliasesForeign(ir) && IsRemap(prior, ir, remap) && n in ir && a in n.aliases
    ensures !Chained(prior, remap, n, a)
  {
    hide ExpandAlias, PassedOver;
    if k :| k in remap && remap[k] == ExpandAlias(a, n.id) {
      RemapIsInjective(prior, ir, remap, k, k);
    }
    if n.id in remap {
      var m, b := NamedBy(prior, ir, remap, n.id);
    }
  }

  // -------------------------------------------------------------- a chained rename

  function Aliased(id: Id, alias: string): IRNode {
    IRNode(id, "t", "", "", map[], [], false, false, [], [alias], [], Resource)
  }

  /** `a` was renamed to `b`, and in the same config `b` to `c`. */
  const CHAIN: IRGraph := [Aliased("s:t:b", "s:t:a"), Aliased("s:t:c", "s:t:b")]

  /** Only `a` is in state: the first pass moves it to `b`, and a second pass moves it on to `c`. */
  lemma ChainedRenameMovesAgain(remap: Remap, again: Remap)
    requires IsRemap({"s:t:a"}, CHAIN, remap) && IsRemap(ImageOf({"s:t:a"}, remap), CHAIN, again)
    ensures UniqueIds(CHAIN) && "s:t:a" in remap && remap["s:t:a"] == "s:t:b" && again != map[]
  {
    hide IsRemap;
    ChainFirst(remap);
    SecondPassEmptyExactly({"s:t:a"}, CHAIN, remap, again);
    assert CHAIN[1] in CHAIN && CHAIN[1].aliases[0] == "s:t:b";
    AfterPass({"s:t:a"}, CHAIN, remap, "s:t:c");
    assert Chained({"s:t:a"}, remap, CHAIN[1], "s:t:b") by { assert "s:t:b"[1] == ':'; }
  }

  lemma ChainFirst(remap: Remap)
    requires IsRemap({"s:t:a"}, CHAIN, remap)
    ensures UniqueIds(CHAIN) && remap == map["s:t:a" := "s:t:b"]
  {
    assert "s:t:a"[1] == ':' && "s:t:b"[1] == ':';
    assert CHAIN[0].aliases[0] == "s:t:a" && ExpandAlias("s:t:a", "s:t:b") == "s:t:a";
    if TookNothing({"s:t:a"}, CHAIN, remap, 0) {
      PassedIsTaken({"s:t:a"}, CHAIN, remap, 0, 0, 1);
    } else {
      var k, x: nat :| Took({"s:t:a"}, CHAIN, remap, k, 0, x);
    }
  }
}
