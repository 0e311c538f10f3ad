/** A pure rename is invisible to the diff, and a second migration pass finds nothing to do. */
module PureRename {
  import opened Graphs
  import opened Values
  import opened Ir
  import opened Merkle
  import opened Renaming
  import opened Aliases
  import opened Migration
  import opened Diffing
  import opened Convergence

  /** The same resource under a new id: its references follow the renames, nothing else changes. */
  ghost predicate RenamedNode(was: IRNode, now: IRNode, remap: Remap) {
    && now.id == Renamed(remap, was.id) && now.typ == was.typ
    && now.properties == RemapProperties(was.properties, remap)
    && Elems(now.dependencies) == Elems(RenamedIds(was.dependencies, remap))
    && now.ignoreChanges == was.ignoreChanges && now.preventDestroy == was.preventDestroy
  }

  /** `after` is `before` with ids consistently renamed to fresh ones, each new id aliased to its old one. */
  ghost predicate IsRename(before: IRGraph, after: IRGraph, remap: Remap) {
    && UniqueIds(before) && UniqueIds(after) && InjectiveOn(remap, Ids(before))
    && remap.Keys <= Ids(before) && (forall k :: k in remap ==> remap[k] !in Ids(before))
    && Ids(after) == ImageOf(Ids(before), remap)
    && (forall k :: k in ById(before) ==>
          Renamed(remap, k) in ById(after) && RenamedNode(ById(before)[k], ById(after)[Renamed(remap, k)], remap))
    && (forall k :: k in remap ==> remap[k] in ById(after) && AliasedTo(ById(after)[remap[k]], k, Ids(before)))
  }

  /** Of all the ids in state, the node's aliases name exactly `k`. */
  ghost predicate AliasedTo(n: IRNode, k: Id, prior: set<Id>) {
    && (exists a :: a in n.aliases && ExpandAlias(a, n.id) == k)
    && (forall a :: a in n.aliases && ExpandAlias(a, n.id) in prior ==> ExpandAlias(a, n.id) == k)
  }

  /** The rows of a config applied in full. */
  ghost predicate CommittedBy(ir: IRGraph, h: Hashes, state: StateGraph) {
    && state.Keys == Ids(ir)
    && forall k :: k in ById(ir) && k in h ==> k in state && state[k] == CommittedRow(ById(ir)[k], h[k])
  }

  lemma RenameAt(before: IRGraph, after: IRGraph, remap: Remap, k: Id)
    requires IsRename(before, after, remap) && k in Ids(before)
    ensures k in ById(before) && Renamed(remap, k) in ById(after)
    ensures RenamedNode(ById(before)[k], ById(after)[Renamed(remap, k)], remap)
  {
    hide RenamedNode, AliasedTo;
  }

  lemma RenameIds(before: IRGraph, after: IRGraph, remap: Remap)
    requires IsRename(before, after, remap)
    ensures UniqueIds(before) && UniqueIds(after) && InjectiveOn(remap, Ids(before))
    ensures Ids(after) == ImageOf(Ids(before), remap) == ById(after).Keys
  {
    hide RenamedNode, AliasedTo;
  }

  lemma RenameAliases(before: IRGraph, after: IRGraph, remap: Remap, k: Id)
    requires IsRename(before, after, remap) && k in remap
    ensures k in Ids(before) && remap[k] !in Ids(before) && remap[k] in ById(after)
    ensures AliasedTo(ById(after)[remap[k]], k, Ids(before)) && ById(after)[remap[k]].id == remap[k]
  {
    hide RenamedNode, AliasedTo;
  }

  lemma RenameOrigin(before: IRGraph, after: IRGraph, remap: Remap, m: Id) returns (k: Id)
    requires IsRename(before, after, remap) && m in Ids(after)
    ensures k in Ids(before) && Renamed(remap, k) == m && (m !in Ids(before) ==> k in remap)
  {
    hide RenamedNode, AliasedTo;
    k :| k in Ids(before) && Renamed(remap, k) == m;
  }

  // ------------------------------------------------------- the remap it causes

  lemma RemapOnlyRenames(before: IRGraph, after: IRGraph, remap: Remap, found: Remap, k: Id)
    requires IsRename(before, after, remap) && IsRemap(Ids(before), after, found) && k in found
    ensures k in remap && found[k] == remap[k]
  {
    hide ExpandAlias, IsRename, PassedOver;
    var j: nat, x: nat :| j < |after| && Took(Ids(before), after, found, k, j, x);
    var n := after[j];
    assert n in after && n.id in Ids(after);
    RenameIds(before, after, remap);
    ByIdUnique(after, n);
    var w := RenameOrigin(before, after, remap, n.id);
    RenameAliases(before, after, remap, w);
    assert n.aliases[x] in n.aliases;
  }

  lemma RemapFindsRenames(before: IRGraph, after: IRGraph, remap: Remap, found: Remap, k: Id)
    requires IsRename(before, after, remap) && IsRemap(Ids(before), after, found) && k in remap
    ensures k in found
  {
    hide ExpandAlias, IsRename, RemapOf;
    RenameIds(before, after, remap);
    RenameAliases(before, after, remap, k);
    var n := ById(after)[remap[k]];
    var j :| 0 <= j < |after| && after[j] == n;
    var a :| a in n.aliases && ExpandAlias(a, n.id) == k;
    var x :| 0 <= x < |n.aliases| && n.aliases[x] == a;
    FoundOrPassed(Ids(before), after, found, j, x);
    if k !in found {
      var was, y: nat :| Took(Ids(before), after, found, was, j, y);
      assert n.aliases[y] in n.aliases;
      TookPrior(Ids(before), after, found, was);
    }
  }

  lemma TookPrior(prior: set<Id>, ir: IRGraph, found: Remap, k: Id)
    requires IsRemap(prior, ir, found) && k in found
    ensures k in prior
  {}

  /** The aliases recover exactly the renames. */
  lemma RemapIsTheRename(before: IRGraph, after: IRGraph, remap: Remap, found: Remap)
    requires IsRename(before, after, remap) && IsRemap(Ids(before), after, found)
    ensures found == remap
  {
    hide IsRename, IsRemap;
    forall k ensures k in found <==> k in remap
      ensures k in found && k in remap ==> found[k] == remap[k]
    {
      if k in found { RemapOnlyRenames(before, after, remap, found, k); }
      if k in remap { RemapFindsRenames(before, after, remap, found, k); }
    }
  }

  // -------------------------------------------------- same digests as the config

  lemma CommittedRowAt(ir: IRGraph, h: Hashes, state: StateGraph, k: Id)
    requires IsHashing(ir, h) && CommittedBy(ir, h, state) && k in Ids(ir)
    ensures k in ById(ir) && ById(ir)[k].id == k && k in h && h[k].Sha?
    ensures k in state && state[k] == CommittedRow(ById(ir)[k], h[k])
    ensures forall d :: d in ById(ir)[k].dependencies ==> d in Ids(ir)
  {
    hide HashesOf;
    HashAt(ir, h, k);
  }

  lemma CommittedIds(ir: IRGraph, h: Hashes, state: StateGraph)
    requires IsHashing(ir, h) && CommittedBy(ir, h, state)
    ensures state.Keys == Ids(ir) && Keyed(state)
  {
    forall k | k in state ensures state[k].id == k { CommittedRowAt(ir, h, state, k); }
  }

  lemma RenamedElems(ids: seq<Id>, remap: Remap)
    ensures Elems(RenamedIds(ids, remap)) == ImageOf(Elems(ids), remap)
  {
    var r := RenamedIds(ids, remap);
    forall m | m in ImageOf(Elems(ids), remap) ensures m in r {
      var k :| k in Elems(ids) && Renamed(remap, k) == m;
      var i :| 0 <= i < |ids| && ids[i] == k;
      assert r[i] == m;
    }
    forall m | m in r ensures m in ImageOf(Elems(ids), remap) {
      var i :| 0 <= i < |r| && r[i] == m;
      assert ids[i] in Elems(ids);
    }
  }

  lemma ImageWithin(ids: set<Id>, all: set<Id>, remap: Remap)
    requires ids <= all
    ensures ImageOf(ids, remap) <= ImageOf(all, remap)
  {}

  lemma PresentAll(ids: seq<Id>, present: set<Id>)
    requires Elems(ids) <= present
    ensures Elems(Present(ids, present)) == Elems(ids)
  {}

  /** A migrated row, read back as a node. */
  lemma MigratedNode(was: IRNode, digest: Hash, now: IRNode, remap: Remap, present: set<Id>, ignore: map<Id, seq<string>>)
    requires RenamedNode(was, now, remap) && ImageOf(Elems(was.dependencies), remap) <= present
    requires now.id in ignore && ignore[now.id] == now.ignoreChanges
    ensures var row := Rekey(CommittedRow(was, digest), remap);
            && row.status == Created && row.inputHash == digest && row.preventDestroy == now.preventDestroy
            && var node := FromRow(row, present, ignore);
               SameToHash(node, now) && Elems(node.dependencies) == Elems(now.dependencies)
  {
    hide RemapProperties, RenamedIds, ImageOf, Present, Renamed;
    RenamedElems(was.dependencies, remap);
    PresentAll(RenamedIds(was.dependencies, remap), present);
    var node := FromRow(Rekey(CommittedRow(was, digest), remap), present, ignore);
    assert node.Ignored() == now.Ignored() && node.properties == now.properties;
    assert Kept(node) == Kept(now);
  }

  /** What migration and read-back make of one committed row. */
  lemma SyntheticAt(before: IRGraph, h: Hashes, state: StateGraph, after: IRGraph, remap: Remap, m: Id)
    requires IsRename(before, after, remap) && IsHashing(before, h) && CommittedBy(before, h, state)
    requires InjectiveOn(remap, state.Keys) && m in Ids(after)
    ensures m in Rekeyed(state, remap) && m in ById(after)
    ensures var row := Rekeyed(state, remap)[m];
            && row.status == Created && row.inputHash != NoInputHash && row.preventDestroy == ById(after)[m].preventDestroy
            && var node := FromRow(row, Ids(after), IgnoreOf(after));
               SameToHash(node, ById(after)[m]) && Elems(node.dependencies) == Elems(ById(after)[m].dependencies)
  {
    hide IsRename, RenamedNode, ImageOf, Rekey, FromRow, SameToHash, IsHashing, CommittedBy, Rekeyed, Renamed;
    var k := RenameOrigin(before, after, remap, m);
    RenameAt(before, after, remap, k);
    RenameIds(before, after, remap);
    CommittedRowAt(before, h, state, k);
    RekeyedRow(state, remap, k);
    ImageWithin(Elems(ById(before)[k].dependencies), Ids(before), remap);
    MigratedNode(ById(before)[k], h[k], ById(after)[m], remap, Ids(after), IgnoreOf(after)) by {
      RenamedNodeId(before, after, remap, k);
    }
  }

  lemma RenamedNodeId(before: IRGraph, after: IRGraph, remap: Remap, k: Id)
    requires IsRename(before, after, remap) && k in Ids(before)
    ensures Renamed(remap, k) in ById(after) && ById(after)[Renamed(remap, k)].id == Renamed(remap, k)
  {
    RenameAt(before, after, remap, k);
  }

  lemma RekeyedIds(before: IRGraph, h: Hashes, state: StateGraph, after: IRGraph, remap: Remap)
    requires IsRename(before, after, remap) && IsHashing(before, h) && CommittedBy(before, h, state)
    ensures InjectiveOn(remap, state.Keys) && Keyed(state) && Rekeyed(state, remap).Keys == Ids(after)
  {
    hide IsRename, IsHashing, CommittedBy, ImageOf;
    CommittedIds(before, h, state);
    RenameIds(before, after, remap);
    RekeyedKeys(state, remap);
  }

  lemma SyntheticHasSameShape(before: IRGraph, h: Hashes, state: StateGraph, after: IRGraph, remap: Remap)
    requires IsRename(before, after, remap) && IsHashing(before, h) && CommittedBy(before, h, state)
    requires InjectiveOn(remap, state.Keys)
    ensures SameShape(Synthetic(state, after, remap), after)
    ensures forall m :: m in ById(Synthetic(state, after, remap)) && m in ById(after) ==>
              SameToHash(ById(Synthetic(state, after, remap))[m], ById(after)[m])
  {
    hide FromState, FromRow, SameToHash, Rekeyed, CommittedBy, IsHashing, IsRename, Elems, ById;
    RekeyedIds(before, h, state, after, remap);
    var synthetic, rekeyed := Synthetic(state, after, remap), Rekeyed(state, remap);
    RekeyedIsKeyed(state, remap);
    FromStateNodes(rekeyed, IgnoreOf(after));
    RenameIds(before, after, remap);
    forall m | m in Ids(after)
      ensures m in ById(synthetic) && m in ById(after) && SameToHash(ById(synthetic)[m], ById(after)[m])
      ensures Elems(ById(synthetic)[m].dependencies) == Elems(ById(after)[m].dependencies)
    {
      SyntheticAt(before, h, state, after, remap, m);
    }
  }

  /** The rehash of the migrated state gives every row the digest the renamed config gives its node. */
  lemma RehashMatches(before: IRGraph, h: Hashes, state: StateGraph, after: IRGraph, remap: Remap, rehashed: Hashes, now: Hashes)
    requires IsRename(before, after, remap) && IsHashing(before, h) && CommittedBy(before, h, state)
    requires InjectiveOn(remap, state.Keys)
    requires IsHashing(Synthetic(state, after, remap), rehashed) && IsHashing(after, now)
    ensures rehashed == now
  {
    hide SameToHash, IsHashing, IsRename, CommittedBy, Synthetic, SameShape;
    SyntheticHasSameShape(before, h, state, after, remap);
    SameDigests(Synthetic(state, after, remap), rehashed, after, now);
  }

  // --------------------------------------------------------------- the main result

  lemma RehashedSettles(rows: StateGraph, inp: DiffInputs)
    requires rows.Keys == inp.desired.Keys <= inp.hashes.Keys
    requires forall m :: m in rows ==>
               rows[m].status == Created && rows[m].inputHash != NoInputHash &&
                   rows[m].preventDestroy == inp.desired[m].preventDestroy
    ensures Settles(inp, Rehashed(rows, inp.hashes))
  {}

  lemma RenamedSettles(before: IRGraph, h: Hashes, state: StateGraph, after: IRGraph, remap: Remap, inp: DiffInputs,
                       rehashed: Hashes)
    requires IsRename(before, after, remap) && IsHashing(before, h) && CommittedBy(before, h, state)
    requires Wellformed(after, inp) && IsHashing(after, inp.hashes) && InjectiveOn(remap, state.Keys)
    requires IsHashing(Synthetic(state, after, remap), rehashed) && Rekeyed(state, remap).Keys <= rehashed.Keys
    ensures Settles(inp, Rehashed(Rekeyed(state, remap), rehashed))
  {
    hide IsRename, CommittedBy, IsHashing, Rekeyed, Synthetic, ById, IgnoreOf, Rehashed, Settles, FromRow, SameToHash;
    RekeyedIds(before, h, state, after, remap);
    HashingCovers(after, inp.hashes);
    RenameIds(before, after, remap);
    RehashMatches(before, h, state, after, remap, rehashed, inp.hashes);
    forall m | m in Rekeyed(state, remap)
      ensures m in inp.desired && Rekeyed(state, remap)[m].status == Created && Rekeyed(state, remap)[m].inputHash != NoInputHash
      ensures Rekeyed(state, remap)[m].preventDestroy == inp.desired[m].preventDestroy
    {
      SyntheticAt(before, h, state, after, remap, m);
    }
    RehashedSettles(Rekeyed(state, remap), inp);
  }

  lemma MigratedSettles(before: IRGraph, h: Hashes, state: StateGraph, after: IRGraph, remap: Remap, inp: DiffInputs)
    requires IsRename(before, after, remap) && IsHashing(before, h) && CommittedBy(before, h, state)
    requires Wellformed(after, inp) && IsHashing(after, inp.hashes) && IsMigrated(state, after, remap, inp.prior)
    ensures Settles(inp, inp.prior)
  {
    hide IsRename, CommittedBy, IsHashing, Rekeyed, Synthetic, Wellformed, Rehashed, Settles, InjectiveOn;
    if remap != map[] {
      var rehashed :| IsHashing(Synthetic(state, after, remap), rehashed) && Rekeyed(state, remap).Keys <= rehashed.Keys &&
                      inp.prior == Rehashed(Rekeyed(state, remap), rehashed);
      RenamedSettles(before, h, state, after, remap, inp, rehashed);
    } else {
      UnrenamedSettles(before, h, state, after, inp);
    }
  }

  lemma {:induction false} RemapNothing(v: Value)
    ensures RemapRefs(v, map[]) == v
  {
    if !IsRefMarker(v) {
      match v
      case List(items) => forall i | 0 <= i < |items| ensures RemapRefs(items[i], map[]) == items[i] { RemapNothing(items[i]); }
      case Obj(m) => forall k | k in m ensures RemapRefs(m[k], map[]) == m[k] { RemapNothing(m[k]); }
      case _ =>
    }
  }

  lemma UnrenamedNode(a: IRNode, b: IRNode)
    requires RenamedNode(a, b, map[])
    ensures SameToHash(a, b) && Elems(a.dependencies) == Elems(b.dependencies) && a.preventDestroy == b.preventDestroy
  {
    RemapNothing(Obj(a.properties));
    assert RenamedIds(a.dependencies, map[]) == a.dependencies;
    assert Kept(a) == Kept(b);
  }

  lemma UnrenamedShape(before: IRGraph, after: IRGraph)
    requires IsRename(before, after, map[])
    ensures SameShape(before, after)
    ensures forall k :: k in ById(before) && k in ById(after) ==>
              SameToHash(ById(before)[k], ById(after)[k]) && ById(before)[k].preventDestroy == ById(after)[k].preventDestroy
  {
    hide IsRename, SameToHash, RenamedNode, Elems, ById;
    RenameIds(before, after, map[]);
    assert Ids(after) == Ids(before);
    forall k | k in Ids(before)
      ensures k in ById(before) && k in ById(after) && SameToHash(ById(before)[k], ById(after)[k])
      ensures Elems(ById(before)[k].dependencies) == Elems(ById(after)[k].dependencies)
      ensures ById(before)[k].preventDestroy == ById(after)[k].preventDestroy
    {
      RenameAt(before, after, map[], k);
      UnrenamedNode(ById(before)[k], ById(after)[k]);
    }
  }

  /** Nothing renamed: the digests already agree. */
  lemma UnrenamedSettles(before: IRGraph, h: Hashes, state: StateGraph, after: IRGraph, inp: DiffInputs)
    requires IsRename(before, after, map[]) && IsHashing(before, h) && CommittedBy(before, h, state)
    requires Wellformed(after, inp) && IsHashing(after, inp.hashes) && inp.prior == state
    ensures Settles(inp, state)
  {
    hide IsRename, SameToHash, IsHashing, CommittedBy, SameShape, ById;
    UnrenamedShape(before, after);
    SameDigests(before, h, after, inp.hashes);
    CommittedIds(before, h, state);
    HashingCovers(before, h);
    ShapeIds(before, after);
    forall k | k in state
      ensures state[k].status == Created && state[k].inputHash == h[k] && state[k].preventDestroy == ById(before)[k].preventDestroy
    {
      CommittedRowAt(before, h, state, k);
    }
  }

  /** Main result: over the migrated state of a config's own commit, the same config consistently renamed plans
   * nothing but plain NOOPs. */
  lemma RenameIsInvisible(before: IRGraph, h: Hashes, state: StateGraph, after: IRGraph, remap: Remap, r: Migration,
                          inp: DiffInputs, c: Change)
    requires IsRename(before, after, remap) && IsHashing(before, h) && CommittedBy(before, h, state)
    requires IsMigration(state, after, r) && r.Migrated?
    requires Wellformed(after, inp) && IsHashing(after, inp.hashes) && inp.prior == r.state && inp.verdicts == map[]
    requires c in Diff(after, inp, {})
    ensures r.remap == remap
    ensures c.nodeId in inp.desired && c.nodeId in inp.prior
    ensures c == Plain(c.nodeId, Noop, Some(inp.desired[c.nodeId]), Some(inp.prior[c.nodeId]))
  {
    hide IsRename, IsHashing, CommittedBy, Diff, Settles, IsMigrated, IsRemap;
    CommittedIds(before, h, state);
    RemapIsTheRename(before, after, remap, r.remap);
    MigratedSettles(before, h, state, after, remap, inp);
    SettledPlansNothing(after, inp, c);
  }

  // ------------------------------------------------------ migration never fails

  /** An edge of the migrated state is the image of an edge of the config that wrote it. */
  lemma EdgeComesFrom(before: IRGraph, h: Hashes, state: StateGraph, after: IRGraph, remap: Remap, k: Id, m: Id) returns (d: Id)
    requires IsRename(before, after, remap) && IsHashing(before, h) && CommittedBy(before, h, state)
    requires InjectiveOn(remap, state.Keys) && k in Ids(before) && Closed(EdgesOf(before))
    requires Step(EdgesOf(Synthetic(state, after, remap)), Renamed(remap, k), m)
    ensures d in Ids(before) && Renamed(remap, d) == m && Step(EdgesOf(before), k, d)
  {
    hide IsRename, IsHashing, CommittedBy, Rekeyed, ImageOf, FromState, EdgesOf, Renamed, RemapProperties, Closed;
    var synthetic, rekeyed := Synthetic(state, after, remap), Rekeyed(state, remap);
    RekeyedIds(before, h, state, after, remap);
    RekeyedIsKeyed(state, remap);
    FromStateNodes(rekeyed, IgnoreOf(after));
    CommittedRowAt(before, h, state, k);
    RekeyedRow(state, remap, k);
    RenameIds(before, after, remap);
    var node, row := ById(before)[k], rekeyed[Renamed(remap, k)];
    EdgesOfStep(synthetic, FromRow(row, rekeyed.Keys, IgnoreOf(after)), m) by {
      FromRowListed(rekeyed, IgnoreOf(after), Renamed(remap, k));
    }
    assert row.dependencies == RenamedIds(node.dependencies, remap) && row.dependsOn == RenamedIds(node.dependsOn, remap);
    if m in row.dependencies { d := ListedUnder(node.dependencies, remap, m); } else { d := ListedUnder(node.dependsOn, remap, m); }
    ByIdUnique(before, node);
    EdgesOfStep(before, node, d);
    ClosedHas(before, k, d);
  }

  lemma FromRowListed(rows: StateGraph, ignore: map<Id, seq<string>>, m: Id)
    requires Keyed(rows) && m in rows
    ensures FromRow(rows[m], rows.Keys, ignore) in FromState(rows, ignore) && FromRow(rows[m], rows.Keys, ignore).id == m
    ensures UniqueIds(FromState(rows, ignore))
  {
    hide FromState;
    FromStateNodes(rows, ignore);
    assert ById(FromState(rows, ignore))[m] == FromRow(rows[m], rows.Keys, ignore);
  }

  lemma ListedUnder(ids: seq<Id>, remap: Remap, m: Id) returns (d: Id)
    requires m in RenamedIds(ids, remap)
    ensures d in ids && Renamed(remap, d) == m
  {
    var i :| 0 <= i < |RenamedIds(ids, remap)| && RenamedIds(ids, remap)[i] == m;
    d := ids[i];
  }

  lemma ClosedHas(ir: IRGraph, k: Id, d: Id)
    requires Closed(EdgesOf(ir)) && Step(EdgesOf(ir), k, d)
    ensures d in Ids(ir)
  {}

  lemma {:induction false} PathComesFrom(before: IRGraph, h: Hashes, state: StateGraph, after: IRGraph, remap: Remap, k: Id,
                                         p: seq<Id>, m: Id) returns (d: Id)
    requires IsRename(before, after, remap) && IsHashing(before, h) && CommittedBy(before, h, state)
    requires InjectiveOn(remap, state.Keys) && k in Ids(before) && Closed(EdgesOf(before))
    requires Via(EdgesOf(Synthetic(state, after, remap)), Renamed(remap, k), p, m)
    ensures d in Ids(before) && Renamed(remap, d) == m && Reach(EdgesOf(before), k, d)
    decreases |p|
  {
    hide IsRename, IsHashing, CommittedBy, Synthetic, EdgesOf, Closed, Renamed, InjectiveOn;
    if p == [] {
      d := k;
      ReachSelf(EdgesOf(before), k);
    } else {
      var next := EdgeComesFrom(before, h, state, after, remap, k, p[0]);
      d := PathComesFrom(before, h, state, after, remap, next, p[1..], m);
      ReachCons(EdgesOf(before), k, next, d);
    }
  }

  /** The migrated state of an acyclic config's commit is acyclic, so a rename always migrates. */
  lemma RenameMigrates(before: IRGraph, h: Hashes, state: StateGraph, after: IRGraph, remap: Remap, r: Migration)
    requires IsRename(before, after, remap) && IsHashing(before, h) && CommittedBy(before, h, state)
    requires Acyclic(EdgesOf(before)) && Closed(EdgesOf(before)) && IsMigration(state, after, r)
    ensures r.Migrated?
  {
    hide IsRename, IsHashing, CommittedBy, EdgesOf, Synthetic, IsRemap, Closed;
    CommittedIds(before, h, state);
    if r.CyclicState? {
      var found :| IsRemap(state.Keys, after, found) && InjectiveOn(found, state.Keys) &&
                   !Acyclic(EdgesOf(Synthetic(state, after, found)));
      RemapIsTheRename(before, after, remap, found);
      SyntheticIsAcyclic(before, h, state, after, remap);
    }
  }

  lemma SyntheticIsAcyclic(before: IRGraph, h: Hashes, state: StateGraph, after: IRGraph, remap: Remap)
    requires IsRename(before, after, remap) && IsHashing(before, h) && CommittedBy(before, h, state)
    requires InjectiveOn(remap, state.Keys) && Acyclic(EdgesOf(before)) && Closed(EdgesOf(before))
    ensures Acyclic(EdgesOf(Synthetic(state, after, remap)))
  {
    hide IsRename, IsHashing, CommittedBy, EdgesOf, Synthetic, Closed, Renamed;
    var g := EdgesOf(Synthetic(state, after, remap));
    CommittedIds(before, h, state);
    forall v ensures !ReachPlus(g, v, v) {
      if e :| Step(g, v, e) && Reach(g, e, v) {
        var p :| Via(g, e, p, v);
        SyntheticNodes(before, h, state, after, remap, v, e);
        var k := RenameOrigin(before, after, remap, v);
        var d := EdgeComesFrom(before, h, state, after, remap, k, e);
        var k' := PathComesFrom(before, h, state, after, remap, d, p, v);
        assert k' == k;
        assert ReachPlus(EdgesOf(before), k, k);
      }
    }
  }

  lemma SyntheticNodes(before: IRGraph, h: Hashes, state: StateGraph, after: IRGraph, remap: Remap, v: Id, e: Id)
    requires IsRename(before, after, remap) && IsHashing(before, h) && CommittedBy(before, h, state)
    requires InjectiveOn(remap, state.Keys) && Step(EdgesOf(Synthetic(state, after, remap)), v, e)
    ensures v in Ids(after)
  {
    hide IsRename, IsHashing, CommittedBy, Rekeyed, FromState;
    RekeyedIds(before, h, state, after, remap);
    RekeyedIsKeyed(state, remap);
    FromStateNodes(Rekeyed(state, remap), IgnoreOf(after));
  }
}
