/** What a migration makes of each row and of the graph the rows hold, field by field and edge by edge. */
module MigrationMeaning {
  import opened Graphs
  import opened Values
  import opened Ir
  import opened Renaming
  import opened Aliases
  import opened Migration
  import Merkle

  /** The id a row or a reference has after the migration. */
  ghost predicate Becomes(remap: Remap, was: Id, now: Id) {
    now == if was in remap then remap[was] else was
  }

  ghost predicate BecomeEach(remap: Remap, was: seq<Id>, now: seq<Id>) {
    |now| == |was| && forall i :: 0 <= i < |was| ==> Becomes(remap, was[i], now[i])
  }

  /** Only the ids in the row and its digest changed, and a drifted row's digest did not. */
  ghost predicate RowMoved(remap: Remap, was: StateNode, now: StateNode) {
    && now == was.(id := now.id, properties := now.properties, dependencies := now.dependencies,
                   dependsOn := now.dependsOn, inputHash := now.inputHash)
    && Becomes(remap, was.id, now.id)
    && BecomeEach(remap, was.dependencies, now.dependencies)
    && BecomeEach(remap, was.dependsOn, now.dependsOn)
    && (was.inputHash == NoInputHash ==> now.inputHash == NoInputHash)
  }

  lemma RekeyMoves(remap: Remap, was: StateNode, digest: Hash)
    ensures RowMoved(remap, was, Rekey(was, remap))
    ensures was.inputHash != NoInputHash ==> RowMoved(remap, was, Rekey(was, remap).(inputHash := digest))
  {
    hide RemapProperties;
  }

  lemma RehashMoves(prior: StateGraph, ir: IRGraph, remap: Remap, state: StateGraph, k: Id)
    requires remap != map[] && IsMigrated(prior, ir, remap, state) && k in prior
    ensures Renamed(remap, k) in state && RowMoved(remap, prior[k], state[Renamed(remap, k)])
    ensures state[Renamed(remap, k)].properties == RemapProperties(prior[k].properties, remap)
  {
    hide Rekeyed, Rekey, Merkle.IsHashing, RowMoved, Synthetic, RemapProperties, Renamed;
    var h :| Merkle.IsHashing(Synthetic(prior, ir, remap), h) && Rekeyed(prior, remap).Keys <= h.Keys &&
             state == Rehashed(Rekeyed(prior, remap), h);
    RekeyedRow(prior, remap, k);
    RekeyMoves(remap, prior[k], h[Renamed(remap, k)]);
    RekeyKeeps(prior[k], remap);
  }

  lemma RekeyKeeps(row: StateNode, remap: Remap)
    ensures Rekey(row, remap).inputHash == row.inputHash
    ensures Rekey(row, remap).properties == RemapProperties(row.properties, remap)
  {
    hide RemapProperties;
  }

  lemma UnmovedRow(row: StateNode)
    ensures RowMoved(map[], row, row)
  {}

  /** Main result: a migration keeps every row under its own or its new id, with the ids in it moved along and nothing
   * else touched but the digest, and adds no row.
   */
  lemma MigratedRowsExactly(prior: StateGraph, ir: IRGraph, r: Migration)
    requires Keyed(prior) && UniqueIds(ir) && IsMigration(prior, ir, r) && r.Migrated?
    ensures |r.state| == |prior|
    ensures forall k, m :: k in prior && Becomes(r.remap, k, m) ==> m in r.state && RowMoved(r.remap, prior[k], r.state[m])
  {
    hide IsRemap, RowMoved, IsMigrated;
    if r.remap == map[] {
      assert r.state == prior by { Unmigrated(prior, ir, r.state); }
      forall k | k in prior ensures RowMoved(r.remap, prior[k], prior[k]) { UnmovedRow(prior[k]); }
    } else {
      RekeyIsABijection(prior, ir, r.remap);
      SameSize(prior, ir, r.remap, r.state);
      forall k | k in prior ensures Renamed(r.remap, k) in r.state && RowMoved(r.remap, prior[k], r.state[Renamed(r.remap, k)]) {
        RehashMoves(prior, ir, r.remap, r.state, k);
      }
    }
  }

  lemma Unmigrated(prior: StateGraph, ir: IRGraph, state: StateGraph)
    requires IsMigrated(prior, ir, map[], state)
    ensures state == prior
  {}

  lemma SameSize(prior: StateGraph, ir: IRGraph, remap: Remap, state: StateGraph)
    requires remap != map[] && IsMigrated(prior, ir, remap, state)
    ensures InjectiveOn(remap, prior.Keys) && |state| == |Rekeyed(prior, remap)|
  {
    hide Rekeyed, Merkle.IsHashing, Synthetic;
    var h :| Merkle.IsHashing(Synthetic(prior, ir, remap), h) && Rekeyed(prior, remap).Keys <= h.Keys &&
             state == Rehashed(Rekeyed(prior, remap), h);
    assert state.Keys == Rekeyed(prior, remap).Keys;
    assert |state| == |state.Keys|;
  }

  /** What a migrated row's properties mean is what they meant before. */
  lemma MigratedPropertiesMean(prior: StateGraph, ir: IRGraph, r: Migration, k: Id, o: Outputs, p: Outputs, ops: Ops)
    requires Keyed(prior) && UniqueIds(ir) && IsMigration(prior, ir, r) && r.Migrated? && k in prior
    requires CleanIds(r.remap) && SameUnder(r.remap, o, p, Reads(Obj(prior[k].properties)))
    ensures var m := if k in r.remap then r.remap[k] else k;
            m in r.state && Resolve(Obj(r.state[m].properties), p, ops) == Resolve(Obj(prior[k].properties), o, ops)
  {
    hide IsRemap, RowMoved, IsMigrated, Resolve, Reads, SameUnder;
    if r.remap == map[] {
      Unmigrated(prior, ir, r.state);
      SameOutputs(Obj(prior[k].properties), o, p, ops);
    } else {
      RehashMoves(prior, ir, r.remap, r.state, k);
      RenamingPreservesMeaning(Obj(prior[k].properties), r.remap, o, p, ops);
      StillProperties(prior[k].properties, r.remap);
    }
  }

  lemma SameOutputs(v: Value, o: Outputs, p: Outputs, ops: Ops)
    requires SameUnder(map[], o, p, Reads(v))
    ensures Resolve(v, p, ops) == Resolve(v, o, ops)
  {
    ResolveFrame(v, o, p, ops);
  }

  lemma StillProperties(props: Properties, remap: Remap)
    ensures RemapRefs(Obj(props), remap) == Obj(RemapProperties(props, remap))
  {}

  // ---------------------------------------------------------------------- edges

  /** The row lists the id, as a dependency or under `depends_on`. */
  ghost predicate Lists(row: StateNode, d: Id) {
    d in row.dependencies || d in row.dependsOn
  }

  lemma RekeyLists(row: StateNode, remap: Remap, y: Id)
    ensures Lists(Rekey(row, remap), y) <==> exists d :: Lists(row, d) && Becomes(remap, d, y)
  {
    hide RemapProperties;
    var now := Rekey(row, remap);
    if Lists(now, y) {
      if y in now.dependencies {
        var i :| 0 <= i < |now.dependencies| && now.dependencies[i] == y;
        assert Lists(row, row.dependencies[i]) && Becomes(remap, row.dependencies[i], y);
      } else {
        var i :| 0 <= i < |now.dependsOn| && now.dependsOn[i] == y;
        assert Lists(row, row.dependsOn[i]) && Becomes(remap, row.dependsOn[i], y);
      }
    }
    if d :| Lists(row, d) && Becomes(remap, d, y) {
      if d in row.dependencies {
        var i :| 0 <= i < |row.dependencies| && row.dependencies[i] == d;
        assert now.dependencies[i] == y;
      } else {
        var i :| 0 <= i < |row.dependsOn| && row.dependsOn[i] == d;
        assert now.dependsOn[i] == y;
      }
    }
  }

  lemma StateEdges(rows: StateGraph, ignore: map<Id, seq<string>>, x: Id, y: Id)
    requires Keyed(rows)
    ensures Step(EdgesOf(FromState(rows, ignore)), x, y) <==> x in rows && y in rows && Lists(rows[x], y)
  {
    hide FromState;
    FromStateNodes(rows, ignore);
    if x in rows { EdgesOfStep(FromState(rows, ignore), ById(FromState(rows, ignore))[x], y); }
  }

  lemma BecomesRenamed(remap: Remap)
    ensures forall was, now :: Becomes(remap, was, now) <==> now == Renamed(remap, was)
  {}

  /** Some row's listed id is moved along with the row. */
  ghost predicate ComesFrom(prior: StateGraph, remap: Remap, x: Id, y: Id) {
    exists a, d, k :: a in prior && k in prior && Lists(prior[a], d) &&
                      Becomes(remap, a, x) && Becomes(remap, d, y) && Becomes(remap, k, y)
  }

  lemma EdgeHasOrigin(prior: StateGraph, remap: Remap, x: Id, y: Id)
    requires InjectiveOn(remap, prior.Keys)
    requires var rows := Rekeyed(prior, remap); x in rows && y in rows && Lists(rows[x], y)
    ensures ComesFrom(prior, remap, x, y)
  {
    hide Rekeyed, Rekey, Lists, Renamed, Becomes, InjectiveOn;
    BecomesRenamed(remap);
    RekeyedKeys(prior, remap);
    var a :| a in prior && Renamed(remap, a) == x;
    var k :| k in prior && Renamed(remap, k) == y;
    RekeyedRow(prior, remap, a);
    RekeyLists(prior[a], remap, y);
    var d :| Lists(prior[a], d) && Becomes(remap, d, y);
  }

  lemma OriginHasEdge(prior: StateGraph, remap: Remap, x: Id, y: Id)
    requires InjectiveOn(remap, prior.Keys) && ComesFrom(prior, remap, x, y)
    ensures var rows := Rekeyed(prior, remap); x in rows && y in rows && Lists(rows[x], y)
  {
    hide Rekeyed, Rekey, Lists, Renamed, Becomes, InjectiveOn;
    BecomesRenamed(remap);
    var a, d, k :| a in prior && k in prior && Lists(prior[a], d) &&
                   Becomes(remap, a, x) && Becomes(remap, d, y) && Becomes(remap, k, y);
    RekeyedRow(prior, remap, a);
    RekeyedRow(prior, remap, k);
    RekeyLists(prior[a], remap, y);
  }

  /** Main result: the migrated rows' edges are exactly the images of the edges listed before, wherever the id listed
   * is then that of a row.
   */
  lemma MigratedEdgesExactly(prior: StateGraph, ir: IRGraph, remap: Remap, x: Id, y: Id)
    requires Keyed(prior) && InjectiveOn(remap, prior.Keys)
    ensures Step(EdgesOf(Synthetic(prior, ir, remap)), x, y) <==>
            exists a, d, k :: a in prior && k in prior && Lists(prior[a], d) &&
                              Becomes(remap, a, x) && Becomes(remap, d, y) && Becomes(remap, k, y)
  {
    hide FromState, EdgesOf, Rekeyed, Lists, Rekey, Becomes, InjectiveOn, Step;
    var rows := Rekeyed(prior, remap);
    RekeyedIsKeyed(prior, remap);
    StateEdges(rows, IgnoreOf(ir), x, y);
    if x in rows && y in rows && Lists(rows[x], y) { EdgeHasOrigin(prior, remap, x, y); }
    if ComesFrom(prior, remap, x, y) { OriginHasEdge(prior, remap, x, y); }
  }

  /** When every listed id is that of a row, a migrated row has an edge to another exactly when it had one before. */
  lemma EdgesMoveWithTheirEnds(prior: StateGraph, ir: IRGraph, remap: Remap, a: Id, b: Id, x: Id, y: Id)
    requires Keyed(prior) && InjectiveOn(remap, prior.Keys) && a in prior && b in prior
    requires Becomes(remap, a, x) && Becomes(remap, b, y)
    requires forall k, d :: k in prior && Lists(prior[k], d) ==> d in prior
    ensures Step(EdgesOf(Synthetic(prior, ir, remap)), x, y) <==> Lists(prior[a], b)
  {
    hide Lists, EdgesOf, Synthetic, Becomes, Renamed, Step;
    BecomesRenamed(remap);
    MigratedEdgesExactly(prior, ir, remap, x, y);
  }
}
