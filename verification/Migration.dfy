/** Applying a remap to stored rows, and rehashing them under their new ids. */
module Migration {
  import opened Graphs
  import opened Values
  import opened Ir
  import opened GraphBuild
  import opened Order
  import opened Merkle
  import opened Renaming
  import opened Aliases
  import Text

  function RenamedIds(ids: seq<Id>, remap: Remap): seq<Id> {
    seq(|ids|, i requires 0 <= i < |ids| => Renamed(remap, ids[i]))
  }

  /** Every field of a property map, through the same walk as the map itself. */
  function RemapProperties(props: Properties, remap: Remap): Properties {
    match RemapRefs(Obj(props), remap)
    case Obj(m) => m
    case _ => props
  }

  /** One row with its id, dependencies, `depends_on` and references migrated. */
  function Rekey(row: StateNode, remap: Remap): StateNode {
    row.(id := Renamed(remap, row.id), properties := RemapProperties(row.properties, remap),
         dependencies := RenamedIds(row.dependencies, remap), dependsOn := RenamedIds(row.dependsOn, remap))
  }

  ghost predicate InjectiveOn(remap: Remap, ids: set<Id>) {
    forall a, b :: a in ids && b in ids && Renamed(remap, a) == Renamed(remap, b) ==> a == b
  }

  function Rekeyed(prior: StateGraph, remap: Remap): StateGraph
    requires InjectiveOn(remap, prior.Keys)
  {
    map k | k in prior :: Renamed(remap, k) := Rekey(prior[k], remap)
  }

  // ------------------------------------------------------- state read as a graph

  function Present(ids: seq<Id>, present: set<Id>): (r: seq<Id>)
    ensures forall d :: d in r <==> d in ids && d in present
  {
    if ids == [] then []
    else (if ids[0] in present then [ids[0]] else []) + Present(ids[1..], present)
  }

  /** A row as a config node; edges to ids absent from state are dropped. */
  function FromRow(row: StateNode, present: set<Id>, ignore: map<Id, seq<string>>): IRNode {
    IRNode(row.id, row.typ, row.provider, row.providerVersion, row.properties, Present(row.dependencies, present),
           false, false, if row.id in ignore then ignore[row.id] else [], [], Present(row.dependsOn, present), Resource)
  }

  function FromState(rows: StateGraph, ignore: map<Id, seq<string>>): (ir: IRGraph)
    ensures |ir| == |Text.Sorted(rows.Keys)|
  {
    var ids := Text.Sorted(rows.Keys);
    seq(|ids|, i requires 0 <= i < |ids| => assert ids[i] in ids; FromRow(rows[ids[i]], rows.Keys, ignore))
  }

  lemma FromStateAt(rows: StateGraph, ignore: map<Id, seq<string>>, i: nat)
    requires Keyed(rows) && i < |Text.Sorted(rows.Keys)|
    ensures var k := Text.Sorted(rows.Keys)[i];
            k in rows && FromState(rows, ignore)[i] == FromRow(rows[k], rows.Keys, ignore) && FromState(rows, ignore)[i].id == k
  {
    assert Text.Sorted(rows.Keys)[i] in Text.Sorted(rows.Keys);
  }

  lemma FromStateIds(rows: StateGraph, ignore: map<Id, seq<string>>)
    requires Keyed(rows)
    ensures UniqueIds(FromState(rows, ignore)) && Ids(FromState(rows, ignore)) == rows.Keys
  {
    hide FromState, FromRow;
    var ids, ir := Text.Sorted(rows.Keys), FromState(rows, ignore);
    Text.SortedAscends(rows.Keys);
    Text.AscendingDistinct(ids);
    forall i | 0 <= i < |ids| ensures ir[i].id == ids[i] { FromStateAt(rows, ignore, i); }
    forall k | k in rows ensures k in Ids(ir) {
      assert k in ids;
      var i :| 0 <= i < |ids| && ids[i] == k;
      assert ir[i] in ir;
    }
    forall k | k in Ids(ir) ensures k in rows {
      var i :| 0 <= i < |ir| && ir[i].id == k;
      assert ids[i] in ids;
    }
  }

  lemma FromStateNodes(rows: StateGraph, ignore: map<Id, seq<string>>)
    requires Keyed(rows)
    ensures UniqueIds(FromState(rows, ignore)) && ById(FromState(rows, ignore)).Keys == rows.Keys
    ensures forall k :: k in rows ==> ById(FromState(rows, ignore))[k] == FromRow(rows[k], rows.Keys, ignore)
  {
    hide FromState, FromRow;
    var ids, ir := Text.Sorted(rows.Keys), FromState(rows, ignore);
    FromStateIds(rows, ignore);
    forall k | k in rows ensures ById(ir)[k] == FromRow(rows[k], rows.Keys, ignore) {
      assert k in ids;
      var i :| 0 <= i < |ids| && ids[i] == k;
      FromStateAt(rows, ignore, i);
      ByIdUnique(ir, ir[i]);
    }
  }

  /** Nothing read back from state has an edge to an id state lacks. */
  lemma FromStateIsClosed(rows: StateGraph, ignore: map<Id, seq<string>>)
    requires Keyed(rows)
    ensures Closed(EdgesOf(FromState(rows, ignore)))
  {
    FromStateNodes(rows, ignore);
    var ir := FromState(rows, ignore);
    forall a, b | Step(EdgesOf(ir), a, b) ensures b in EdgesOf(ir) {
      assert a in rows;
      EdgesOfStep(ir, ById(ir)[a], b);
    }
  }

  // ------------------------------------------------------------------ migration

  datatype Migration = Migrated(state: StateGraph, remap: Remap) | CyclicState

  function IgnoreOf(ir: IRGraph): map<Id, seq<string>> {
    map k | k in ById(ir) :: ById(ir)[k].ignoreChanges
  }

  /** Fresh digests, except on rows marked as drifted. */
  function Rehashed(rows: StateGraph, h: Hashes): StateGraph
    requires rows.Keys <= h.Keys
  {
    map k | k in rows :: if rows[k].inputHash == NoInputHash then rows[k] else rows[k].(inputHash := h[k])
  }

  /** The migrated rows read back as a config. */
  function Synthetic(prior: StateGraph, ir: IRGraph, remap: Remap): IRGraph
    requires InjectiveOn(remap, prior.Keys)
  {
    FromState(Rekeyed(prior, remap), IgnoreOf(ir))
  }

  ghost predicate IsMigrated(prior: StateGraph, ir: IRGraph, remap: Remap, state: StateGraph) {
    if remap == map[] then state == prior
    else InjectiveOn(remap, prior.Keys) &&
         exists h :: IsHashing(Synthetic(prior, ir, remap), h) && Rekeyed(prior, remap).Keys <= h.Keys &&
                     state == Rehashed(Rekeyed(prior, remap), h)
  }

  ghost predicate IsMigration(prior: StateGraph, ir: IRGraph, r: Migration) {
    match r
    case Migrated(state, remap) => IsRemap(prior.Keys, ir, remap) && IsMigrated(prior, ir, remap, state)
    case CyclicState =>
      exists remap :: IsRemap(prior.Keys, ir, remap) && InjectiveOn(remap, prior.Keys) &&
                      !Acyclic(EdgesOf(Synthetic(prior, ir, remap)))
  }

  lemma RemapKeepsRowsApart(prior: StateGraph, ir: IRGraph, remap: Remap)
    requires UniqueIds(ir) && IsRemap(prior.Keys, ir, remap)
    ensures InjectiveOn(remap, prior.Keys)
  {
    hide IsRemap;
    forall a, b | a in prior && b in prior && Renamed(remap, a) == Renamed(remap, b) ensures a == b {
      if a in remap && b in remap { RemapIsInjective(prior.Keys, ir, remap, a, b); }
      else if a in remap { RemapIsInjective(prior.Keys, ir, remap, a, a); }
      else if b in remap { RemapIsInjective(prior.Keys, ir, remap, b, b); }
    }
  }

  lemma RekeyedIsKeyed(prior: StateGraph, remap: Remap)
    requires Keyed(prior) && InjectiveOn(remap, prior.Keys)
    ensures Keyed(Rekeyed(prior, remap))
  {}

  lemma RekeyedRow(prior: StateGraph, remap: Remap, k: Id)
    requires InjectiveOn(remap, prior.Keys) && k in prior
    ensures Renamed(remap, k) in Rekeyed(prior, remap) && Rekeyed(prior, remap)[Renamed(remap, k)] == Rekey(prior[k], remap)
  {
    hide Rekey;
  }

  lemma RekeyedKeys(prior: StateGraph, remap: Remap)
    requires InjectiveOn(remap, prior.Keys)
    ensures Rekeyed(prior, remap).Keys == ImageOf(prior.Keys, remap)
  {
    hide Rekey;
  }

  /** Rekeying is a bijection on rows: each row is found, migrated, under its new id, and none is lost. */
  lemma RekeyIsABijection(prior: StateGraph, ir: IRGraph, remap: Remap)
    requires UniqueIds(ir) && IsRemap(prior.Keys, ir, remap)
    ensures InjectiveOn(remap, prior.Keys) && |Rekeyed(prior, remap)| == |prior|
    ensures forall k :: k in prior ==> Renamed(remap, k) in Rekeyed(prior, remap) &&
                                       Rekeyed(prior, remap)[Renamed(remap, k)] == Rekey(prior[k], remap)
    ensures forall m :: m in Rekeyed(prior, remap) ==> exists k :: k in prior && Renamed(remap, k) == m
  {
    hide IsRemap, Rekey, Rekeyed, InjectiveOn;
    RemapKeepsRowsApart(prior, ir, remap);
    RekeyedKeys(prior, remap);
    ImageSize(prior.Keys, remap);
    assert |prior| == |prior.Keys| && |Rekeyed(prior, remap)| == |Rekeyed(prior, remap).Keys|;
    forall k | k in prior
      ensures Renamed(remap, k) in Rekeyed(prior, remap) && Rekeyed(prior, remap)[Renamed(remap, k)] == Rekey(prior[k], remap)
    {
      RekeyedRow(prior, remap, k);
    }
  }

  function ImageOf(ids: set<Id>, remap: Remap): set<Id> {
    set k | k in ids :: Renamed(remap, k)
  }

  lemma {:induction false} ImageSize(ids: set<Id>, remap: Remap)
    requires InjectiveOn(remap, ids)
    ensures |ImageOf(ids, remap)| == |ids|
  {
    hide Renamed;
    if ids != {} {
      var k :| k in ids;
      ImageSize(ids - {k}, remap);
      assert ids == (ids - {k}) + {k};
      assert ImageOf(ids, remap) == ImageOf(ids - {k}, remap) + {Renamed(remap, k)};
    }
  }

  /** Prior state migrated for every rename the aliases resolve. */
  method ResolveAliases(prior: StateGraph, ir: IRGraph) returns (r: Migration)
    requires Keyed(prior) && UniqueIds(ir) && Formatted(ir)
    ensures IsMigration(prior, ir, r)
  {
    hide IsRemap, Rekeyed, FromState, EdgesOf, IsHashing, Acyclic, Greedy, DependenciesFirst, IsTopological;
    var remap := AliasRemap(prior.Keys, ir);
    if remap == map[] { return Migrated(prior, map[]); }
    RemapKeepsRowsApart(prior, ir, remap);
    var rows := Rekeyed(prior, remap);
    RekeyedIsKeyed(prior, remap);
    var synthetic := FromState(rows, IgnoreOf(ir));
    FromStateNodes(rows, IgnoreOf(ir));
    FromStateIsClosed(rows, IgnoreOf(ir));
    var built := BuildGraph(synthetic);
    match built {
      case Cyclic(_) => r := CyclicState;
      case UnknownDependency(n, d) => NoUnknownEdge(synthetic, n, d);
      case Built(g) =>
        var order := TopologicalOrder(g, false);
        TopologicalSuffices(synthetic, order);
        var hashes := MerkleHashes(synthetic, order);
        HashingCovers(synthetic, hashes);
        r := Migrated(Rehashed(rows, hashes), remap);
    }
  }

  lemma NoUnknownEdge(ir: IRGraph, n: Id, d: Id)
    requires Closed(EdgesOf(ir))
    ensures !UnknownEdge(ir, n, d)
  {}
}
