/** What an unchanged digest says about the values a node is applied with. */
module HashMeaning {
  import opened Graphs
  import opened Values
  import opened Ir
  import opened Merkle
  import Text

  /** A node's properties with every reference replaced; `None` when one does not resolve. */
  function ResolvedInputs(props: Properties, outs: Outputs, ops: Ops): Option<Properties> {
    AllSome(map k | k in props :: Resolve(props[k], outs, ops))
  }

  /** What a provider reports for a type applied with the given inputs. */
  type Provider = (string, Option<Properties>) -> Properties

  /** The outputs of a whole config, every node applied with its resolved inputs. */
  ghost predicate IsRun(ir: IRGraph, outs: Outputs, provider: Provider, ops: Ops) {
    outs.Keys == Ids(ir) &&
    forall k :: k in ById(ir) ==>
      k in outs && outs[k] == provider(ById(ir)[k].typ, ResolvedInputs(ById(ir)[k].properties, outs, ops))
  }

  /** Every node the node's fields refer to. */
  function ReadsOf(props: Properties): set<Id> {
    set k, t | k in props && t in Reads(props[k]) :: t
  }

  /** Dependencies as lowering lists them: the nodes the fields refer to. */
  ghost predicate Lowered(ir: IRGraph) {
    forall k :: k in ById(ir) ==> Elems(ById(ir)[k].dependencies) == ReadsOf(ById(ir)[k].properties)
  }

  /** No ignored field holds different values in the two configs. */
  ghost predicate NothingHidden(ir1: IRGraph, ir2: IRGraph, m: Id) {
    m in ById(ir1) && m in ById(ir2) ==>
      forall f :: f in ById(ir1)[m].Ignored() || f in ById(ir2)[m].Ignored() ==>
        (f in ById(ir1)[m].properties <==> f in ById(ir2)[m].properties) &&
        (f in ById(ir1)[m].properties ==> ById(ir1)[m].properties[f] == ById(ir2)[m].properties[f])
  }

  lemma KeptMeansAll(a: IRNode, b: IRNode)
    requires Kept(a) == Kept(b)
    requires forall f :: f in a.Ignored() || f in b.Ignored() ==>
               (f in a.properties <==> f in b.properties) && (f in a.properties ==> a.properties[f] == b.properties[f])
    ensures a.properties == b.properties
  {
    forall f ensures f in a.properties <==> f in b.properties
      ensures f in a.properties ==> f in b.properties && a.properties[f] == b.properties[f]
    {
      assert f in Kept(a) <==> f in Kept(b);
    }
  }

  lemma InputsFrame(props: Properties, o: Outputs, p: Outputs, ops: Ops)
    requires forall id :: id in ReadsOf(props) ==> SameAt(o, p, id)
    ensures ResolvedInputs(props, o, ops) == ResolvedInputs(props, p, ops)
  {
    forall k | k in props ensures Resolve(props[k], o, ops) == Resolve(props[k], p, ops) { ResolveFrame(props[k], o, p, ops); }
    assert (map k | k in props :: Resolve(props[k], o, ops)) == (map k | k in props :: Resolve(props[k], p, ops));
  }

  /** Main result: with no ignored field differing below it, a node whose digest is unchanged has unchanged
   * resolved inputs, and so unchanged outputs. */
  lemma {:induction false} SameHashSameInputs(ir1: IRGraph, h1: Hashes, outs1: Outputs, ir2: IRGraph, h2: Hashes, outs2: Outputs,
                                              provider: Provider, ops: Ops, n: Id)
    requires IsHashing(ir1, h1) && IsHashing(ir2, h2) && Lowered(ir1) && Lowered(ir2)
    requires IsRun(ir1, outs1, provider, ops) && IsRun(ir2, outs2, provider, ops)
    requires n in h1 && n in h2 && h1[n] == h2[n]
    requires forall m :: Reach(DepGraph(ir1), n, m) ==> NothingHidden(ir1, ir2, m)
    ensures n in ById(ir1) && n in ById(ir2) && n in outs1 && n in outs2
    ensures ResolvedInputs(ById(ir1)[n].properties, outs1, ops) == ResolvedInputs(ById(ir2)[n].properties, outs2, ops)
    ensures outs1[n] == outs2[n]
    decreases h1[n]
  {
    hide HashesOf, ResolvedInputs, Reach, IsHashing, Lowered, IsRun, Kept, NothingHidden;
    HashAt(ir1, h1, n);
    HashAt(ir2, h2, n);
    ReachSelf(DepGraph(ir1), n);
    var a, b := ById(ir1)[n], ById(ir2)[n];
    SameNode(ir1, h1, ir2, h2, n);
    HashesAgree(h1, h2, SortedDeps(a));
    forall d | d in SortedDeps(a) ensures SameAt(outs1, outs2, d) {
      DepIsSmaller(h1, SortedDeps(a), d);
      assert Step(DepGraph(ir1), n, d);
      forall m | Reach(DepGraph(ir1), d, m) ensures NothingHidden(ir1, ir2, m) { ReachCons(DepGraph(ir1), n, d, m); }
      SameHashSameInputs(ir1, h1, outs1, ir2, h2, outs2, provider, ops, d);
    }
    InputsFrame(a.properties, outs1, outs2, ops);
    RunAt(ir1, outs1, provider, ops, n);
    RunAt(ir2, outs2, provider, ops, n);
  }

  lemma RunAt(ir: IRGraph, outs: Outputs, provider: Provider, ops: Ops, n: Id)
    requires IsRun(ir, outs, provider, ops) && n in ById(ir)
    ensures n in outs && outs[n] == provider(ById(ir)[n].typ, ResolvedInputs(ById(ir)[n].properties, outs, ops))
  {}

  lemma SameNode(ir1: IRGraph, h1: Hashes, ir2: IRGraph, h2: Hashes, n: Id)
    requires IsHashing(ir1, h1) && IsHashing(ir2, h2) && Lowered(ir1) && Lowered(ir2)
    requires n in h1 && n in h2 && h1[n] == h2[n] && NothingHidden(ir1, ir2, n)
    ensures n in ById(ir1) && n in ById(ir2)
    ensures ById(ir1)[n].properties == ById(ir2)[n].properties && ById(ir1)[n].typ == ById(ir2)[n].typ
    ensures SortedDeps(ById(ir1)[n]) == SortedDeps(ById(ir2)[n])
    ensures forall t :: t in ReadsOf(ById(ir1)[n].properties) ==> t in SortedDeps(ById(ir1)[n])
    ensures HashesOf(h1, SortedDeps(ById(ir1)[n])) == HashesOf(h2, SortedDeps(ById(ir2)[n]))
  {
    hide IsHashing;
    HashAt(ir1, h1, n);
    HashAt(ir2, h2, n);
    KeptMeansAll(ById(ir1)[n], ById(ir2)[n]);
  }

  // --------------------------------------------------- what ignore_changes hides

  /** `u` passes its field `x` on as an output, ignores changes to it, and `d` reads it. */
  function Hiding(x: int): IRGraph {
    [IRNode("u", "t", "", "", map["x" := Int(x)], [], false, false, ["x"], [], [], Resource),
     IRNode("d", "t", "", "", map["y" := RefMarker("u", "x")], ["u"], false, false, [], [], [], Resource)]
  }

  const HIDING_U := Sha("t", map[], [])
  const HIDING_HASHES: Hashes := map["u" := HIDING_U, "d" := Sha("t", map["y" := RefMarker("u", "x")], [HIDING_U])]

  lemma HidingNodes(x: int)
    ensures UniqueIds(Hiding(x)) && ById(Hiding(x)).Keys == {"u", "d"}
    ensures ById(Hiding(x))["u"] == Hiding(x)[0] && ById(Hiding(x))["d"] == Hiding(x)[1]
  {
    var ir := Hiding(x);
    ByIdUnique(ir, ir[0]);
    ByIdUnique(ir, ir[1]);
  }

  lemma HidingIsHashing(x: int)
    ensures IsHashing(Hiding(x), HIDING_HASHES)
  {
    var ir := Hiding(x);
    assert Elems(["u"]) == {"u"} && Elems([]) == {};
    Text.OneMember("u");
    assert Kept(ir[0]) == map[];
    assert Kept(ir[1]) == ir[1].properties;
    assert SortedDeps(ir[1]) == ["u"] && HashesOf(HIDING_HASHES, ["u"]) == [HIDING_U];
    assert HashedAt(ir[0], HIDING_HASHES) && HashedAt(ir[1], HIDING_HASHES);
    HidingNodes(x);
  }

  /** A provider whose outputs are the inputs it was given. */
  function Passing(): Provider {
    (typ, inputs: Option<Properties>) => if inputs.Some? then inputs.value else map[]
  }

  function HidingOuts(x: int): Outputs {
    map["u" := map["x" := Int(x)], "d" := map["y" := Int(x)]]
  }

  /** A node of one field is applied with that field's value. */
  lemma OneField(f: string, v: Value, outs: Outputs, ops: Ops)
    ensures ReadsOf(map[f := v]) == Reads(v)
    ensures Resolve(v, outs, ops).Some? ==> ResolvedInputs(map[f := v], outs, ops) == Some(map[f := Resolve(v, outs, ops).value])
  {
    hide Resolve, Reads;
    var props := map[f := v];
    var each := map k | k in props :: Resolve(props[k], outs, ops);
    assert props[f] == v && f in each;
    if Resolve(v, outs, ops).Some? { assert AllSome(each).value == map[f := Resolve(v, outs, ops).value]; }
  }

  /** What the two nodes are applied with, and what they read. */
  lemma HidingInputs(x: int, ops: Ops)
    ensures ResolvedInputs(map["x" := Int(x)], HidingOuts(x), ops) == Some(map["x" := Int(x)])
    ensures ResolvedInputs(map["y" := RefMarker("u", "x")], HidingOuts(x), ops) == Some(map["y" := Int(x)])
    ensures ReadsOf(map["x" := Int(x)]) == {} && ReadsOf(map["y" := RefMarker("u", "x")]) == {"u"}
  {
    hide ResolvedInputs, ReadsOf;
    SplitHash("u", "x");
    OneField("x", Int(x), HidingOuts(x), ops);
    OneField("y", RefMarker("u", "x"), HidingOuts(x), ops);
    assert Resolve(RefMarker("u", "x"), HidingOuts(x), ops) == Some(Int(x));
  }

  lemma HidingIsLowered(x: int, ops: Ops)
    ensures Lowered(Hiding(x))
  {
    hide ReadsOf, RefMarker, IRNode.Ignored, ResolvedInputs;
    HidingNodes(x);
    HidingInputs(x, ops);
    assert Elems([]) == {} && Elems(["u"]) == {"u"};
  }

  lemma HidingRuns(x: int, ops: Ops)
    ensures IsRun(Hiding(x), HidingOuts(x), Passing(), ops)
  {
    hide ResolvedInputs, ReadsOf, RefMarker;
    HidingNodes(x);
    HidingInputs(x, ops);
  }

  lemma HiddenDiffers()
    ensures !NothingHidden(Hiding(1), Hiding(2), "u")
  {
    HidingNodes(1);
    HidingNodes(2);
    var a, b := ById(Hiding(1))["u"], ById(Hiding(2))["u"];
    assert "x" in a.Ignored() by { assert a.ignoreChanges[0] == "x"; }
    assert a.properties["x"] == Int(1) && b.properties["x"] == Int(2);
  }

  /** Two lowered configs can agree on every digest while one provider runs them to different inputs of the same node:
   * a field a dependency ignores reaches the node through that dependency's outputs. */
  lemma IgnoredFieldHidesAMove(ops: Ops)
    ensures IsHashing(Hiding(1), HIDING_HASHES) && IsHashing(Hiding(2), HIDING_HASHES) && Lowered(Hiding(1)) && Lowered(Hiding(2))
    ensures IsRun(Hiding(1), HidingOuts(1), Passing(), ops) && IsRun(Hiding(2), HidingOuts(2), Passing(), ops)
    ensures "d" in HIDING_HASHES && "d" in ById(Hiding(1)) && "d" in ById(Hiding(2))
    ensures ResolvedInputs(ById(Hiding(1))["d"].properties, HidingOuts(1), ops) !=
            ResolvedInputs(ById(Hiding(2))["d"].properties, HidingOuts(2), ops)
    ensures !NothingHidden(Hiding(1), Hiding(2), "u")
  {
    hide IsHashing, NothingHidden, ResolvedInputs, Lowered, IsRun, HidingOuts, Passing, RefMarker;
    HidingIsHashing(1);
    HidingIsHashing(2);
    HiddenDiffers();
    HidingIsLowered(1, ops);
    HidingRuns(1, ops);
    HidingIsLowered(2, ops);
    HidingRuns(2, ops);
    HidingNodes(1);
    HidingNodes(2);
    HidingInputs(1, ops);
    HidingInputs(2, ops);
    assert map["y" := Int(1)]["y"] != map["y" := Int(2)]["y"];
  }

  // ---------------------------------------------- an ignored field that refers

  /** `n` ignores changes to its field `f`, which refers to `target`. */
  function Pointing(target: Id): IRGraph {
    [IRNode("a", "p", "", "", map[], [], false, false, [], [], [], Resource),
     IRNode("b", "q", "", "", map[], [], false, false, [], [], [], Resource),
     IRNode("n", "t", "", "", map["f" := RefMarker(target, "id")], [target], false, false, ["f"], [], [], Resource)]
  }

  lemma PointingDigest(target: Id, typ: string, h: Hashes)
    requires (target == "a" && typ == "p") || (target == "b" && typ == "q")
    requires IsHashing(Pointing(target), h)
    ensures "n" in h && h["n"].Sha? && |h["n"].deps| == 1 && h["n"].deps[0].Sha? && h["n"].deps[0].typ == typ
  {
    var ir := Pointing(target);
    assert ir[2] in ir && HashedAt(ir[2], h);
    var t := if target == "a" then ir[0] else ir[1];
    assert t in ir && HashedAt(t, h);
    assert Elems([target]) == {target};
    Text.OneMember(target);
    assert SortedDeps(ir[2]) == [target];
  }

  /** An ignored field still counts through what it refers to: moving its reference moves the digest. */
  lemma IgnoredReferenceMovesTheDigest(h1: Hashes, h2: Hashes)
    requires IsHashing(Pointing("a"), h1) && IsHashing(Pointing("b"), h2)
    ensures SameToHash(Pointing("a")[2], Pointing("b")[2])
    ensures "n" in h1 && "n" in h2 && h1["n"] != h2["n"]
  {
    hide IsHashing;
    PointingDigest("a", "p", h1);
    PointingDigest("b", "q", h2);
    assert Kept(Pointing("a")[2]) == map[] == Kept(Pointing("b")[2]) by {
      assert Pointing("a")[2].ignoreChanges[0] == "f" && Pointing("b")[2].ignoreChanges[0] == "f";
    }
  }
}
