/** Exactly when an unchanged digest means unchanged resolved inputs, whatever the providers report. */
module HashExact {
  import opened Graphs
  import opened Values
  import opened Ir
  import opened Merkle
  import opened HashMeaning
  import Text

  /** A value resolution can always finish, given upstreams that report `attrs`: each reference asks for one of them,
   * and each transform has a named operation over a list or a string. */
  ghost predicate Resolvable(v: Value, attrs: set<string>) {
    if IsTransformMarker(v) then
      var body := v.fields[TRANSFORM_KEY].fields;
      assert body["args"] < v.fields[TRANSFORM_KEY] < v;
      body["op"].Str? &&
      match body["args"]
      case List(items) => forall i :: 0 <= i < |items| ==> Resolvable(items[i], attrs)
      case Str(_) => true
      case _ => false
    else if IsRefMarker(v) then RefAttr(v) in attrs
    else match v
      case List(items) => forall i :: 0 <= i < |items| ==> Resolvable(items[i], attrs)
      case Obj(m) => forall k :: k in m ==> Resolvable(m[k], attrs)
      case _ => true
  }

  ghost predicate FieldsResolvable(ir: IRGraph, attrs: set<string>) {
    forall k, f :: k in ById(ir) && f in ById(ir)[k].properties ==> Resolvable(ById(ir)[k].properties[f], attrs)
  }

  /** Ignored fields hold plain values: no reference hides in one. */
  ghost predicate PlainIgnored(ir: IRGraph) {
    forall k, f :: k in ById(ir) && f in ById(ir)[k].Ignored() && f in ById(ir)[k].properties ==>
      !NeedsResolution(ById(ir)[k].properties[f])
  }

  /** Whatever the providers and the transforms do, the node is applied with the same inputs in both configs. */
  ghost predicate SameInputsAlways(ir1: IRGraph, ir2: IRGraph, n: Id)
    requires n in ById(ir1) && n in ById(ir2)
  {
    forall outs1, outs2, provider, ops | IsRun(ir1, outs1, provider, ops) && IsRun(ir2, outs2, provider, ops) ::
      ResolvedInputs(ById(ir1)[n].properties, outs1, ops) == ResolvedInputs(ById(ir2)[n].properties, outs2, ops)
  }

  // -------------------------------------------------------- references are visible

  /** In lowered configs whose ignored fields are plain, every reference shows in what the hash reads. */
  lemma LoweredShowsRefs(ir1: IRGraph, ir2: IRGraph)
    requires Lowered(ir1) && Lowered(ir2) && PlainIgnored(ir1) && PlainIgnored(ir2)
    ensures RefsShow(ir1, ir2)
  {
    hide Reads, NeedsResolution, ReadsOf, ById;
    forall k | k in ById(ir1) && k in ById(ir2) && SameToHash(ById(ir1)[k], ById(ir2)[k])
      ensures ReadsOf(ById(ir1)[k].properties) == ReadsOf(ById(ir2)[k].properties)
    {
      ReadsAreKept(ById(ir1)[k]);
      ReadsAreKept(ById(ir2)[k]);
    }
  }

  lemma ReadsAreKept(n: IRNode)
    requires forall f :: f in n.Ignored() && f in n.properties ==> !NeedsResolution(n.properties[f])
    ensures ReadsOf(n.properties) == ReadsOf(Kept(n))
  {
    hide Reads, NeedsResolution;
    forall f | f in n.properties && f !in Kept(n) ensures Reads(n.properties[f]) == {} {
      NothingToResolve(n.properties[f], map[], EchoOps());
    }
    forall t | t in ReadsOf(n.properties) ensures t in ReadsOf(Kept(n)) {
      var f :| f in n.properties && t in Reads(n.properties[f]);
      assert f in Kept(n) && Kept(n)[f] == n.properties[f];
    }
  }

  // ----------------------------------------------------------- a run that tells all

  /** Transforms that keep their arguments. */
  function EchoOps(): Ops {
    (op, args) => Some(List(args))
  }

  /** Every attribute reports the inputs the node was applied with. */
  function EchoProvider(attrs: set<string>): Provider {
    (typ, inputs: Option<Properties>) => map a | a in attrs :: if inputs.Some? then Obj(inputs.value) else Null
  }

  /** The outputs of one node, its dependencies applied first. */
  ghost function RunOf(ir: IRGraph, h: Hashes, n: Id, provider: Provider, ops: Ops): Properties
    requires IsHashing(ir, h) && n in h
    decreases h[n], 1
  {
    HashAt(ir, h, n);
    provider(ById(ir)[n].typ, ResolvedInputs(ById(ir)[n].properties, BelowOf(ir, h, n, provider, ops), ops))
  }

  /** What its dependencies report. */
  ghost function BelowOf(ir: IRGraph, h: Hashes, n: Id, provider: Provider, ops: Ops): Outputs
    requires IsHashing(ir, h) && n in h
    decreases h[n], 0
  {
    HashAt(ir, h, n);
    var deps := SortedDeps(ById(ir)[n]);
    map d | d in deps :: (DepIsSmaller(h, deps, d); RunOf(ir, h, d, provider, ops))
  }

  ghost function RunOutputs(ir: IRGraph, h: Hashes, provider: Provider, ops: Ops): Outputs
    requires IsHashing(ir, h)
  {
    map n | n in h :: RunOf(ir, h, n, provider, ops)
  }

  lemma RunAtNode(ir: IRGraph, h: Hashes, n: Id, provider: Provider, ops: Ops)
    requires IsHashing(ir, h) && Lowered(ir) && n in h
    ensures var outs := RunOutputs(ir, h, provider, ops);
            n in ById(ir) && n in outs && outs[n] == provider(ById(ir)[n].typ, ResolvedInputs(ById(ir)[n].properties, outs, ops))
  {
    hide ResolvedInputs, ReadsOf, HashesOf, IsHashing, Text.Sorted;
    HashAt(ir, h, n);
    InputsFrame(ById(ir)[n].properties, BelowOf(ir, h, n, provider, ops), RunOutputs(ir, h, provider, ops), ops);
  }

  /** Every config that can be hashed can be run. */
  lemma EveryConfigRuns(ir: IRGraph, h: Hashes, provider: Provider, ops: Ops)
    requires IsHashing(ir, h) && Lowered(ir)
    ensures IsRun(ir, RunOutputs(ir, h, provider, ops), provider, ops)
  {
    hide ResolvedInputs, Lowered, RunOf, IsHashing;
    HashingCovers(ir, h);
    forall k | k in ById(ir)
      ensures var outs := RunOutputs(ir, h, provider, ops);
              k in outs && outs[k] == provider(ById(ir)[k].typ, ResolvedInputs(ById(ir)[k].properties, outs, ops))
    {
      RunAtNode(ir, h, k, provider, ops);
    }
  }

  lemma InputsAt(props: Properties, outs: Outputs, ops: Ops, f: string)
    requires ResolvedInputs(props, outs, ops).Some?
    ensures ResolvedInputs(props, outs, ops).value.Keys == props.Keys
    ensures f in props ==> Resolve(props[f], outs, ops).Some? &&
                           ResolvedInputs(props, outs, ops).value[f] == Resolve(props[f], outs, ops).value
  {
    hide Resolve;
    if f in props { assert f in (map k | k in props :: Resolve(props[k], outs, ops)); }
  }

  lemma {:induction false} ResolveAllAt(vs: seq<Value>, outs: Outputs, ops: Ops)
    ensures ResolveAll(vs, outs, ops).Some? <==> forall i :: 0 <= i < |vs| ==> Resolve(vs[i], outs, ops).Some?
    ensures ResolveAll(vs, outs, ops).Some? ==>
              |ResolveAll(vs, outs, ops).value| == |vs| &&
              forall i :: 0 <= i < |vs| ==> ResolveAll(vs, outs, ops).value[i] == Resolve(vs[i], outs, ops).value
  {
    hide Resolve;
    if vs != [] {
      ResolveAllAt(vs[1..], outs, ops);
      assert forall i :: 0 < i < |vs| ==> vs[i] == vs[1..][i - 1];
      assert forall i :: 0 <= i < |vs| - 1 ==> vs[1..][i] == vs[i + 1];
    }
  }

  /** Upstreams report every attribute. */
  ghost predicate Reports(outs: Outputs, ids: set<Id>, attrs: set<string>) {
    forall t :: t in ids ==> t in outs && attrs <= outs[t].Keys
  }

  lemma {:induction false} EchoResolves(v: Value, outs: Outputs, attrs: set<string>)
    requires Resolvable(v, attrs) && Reports(outs, Reads(v), attrs)
    ensures Resolve(v, outs, EchoOps()).Some?
  {
    if IsTransformMarker(v) {
      var body := v.fields[TRANSFORM_KEY].fields;
      assert body["args"] < v.fields[TRANSFORM_KEY] < v;
      match body["args"] {
        case List(items) =>
          forall i | 0 <= i < |items| ensures Resolve(items[i], outs, EchoOps()).Some? { EchoResolves(items[i], outs, attrs); }
          ResolveAllAt(items, outs, EchoOps());
        case _ =>
      }
    } else if IsRefMarker(v) {
      assert RefTarget(v) in Reads(v);
    } else {
      match v
      case List(items) =>
        forall i | 0 <= i < |items| ensures Resolve(items[i], outs, EchoOps()).Some? { EchoResolves(items[i], outs, attrs); }
        ResolveAllAt(items, outs, EchoOps());
      case Obj(m) =>
        forall k | k in m ensures Resolve(m[k], outs, EchoOps()).Some? { EchoResolves(m[k], outs, attrs); }
      case _ =>
    }
  }

  /** An upstream that differs in every attribute shows in whatever reads it. */
  lemma {:induction false} TellsApart(v: Value, o: Outputs, p: Outputs, attrs: set<string>, t: Id)
    requires Resolvable(v, attrs) && t in Reads(v) && t in o && t in p
    requires forall a :: a in attrs ==> a in o[t] && a in p[t] && o[t][a] != p[t][a]
    requires Resolve(v, o, EchoOps()).Some? && Resolve(v, p, EchoOps()).Some?
    ensures Resolve(v, o, EchoOps()) != Resolve(v, p, EchoOps())
  {
    if IsTransformMarker(v) {
      var body := v.fields[TRANSFORM_KEY].fields;
      assert body["args"] < v.fields[TRANSFORM_KEY] < v;
      ListTellsApart(body["args"].items, o, p, attrs, t);
    } else if !IsRefMarker(v) {
      match v
      case List(items) => ListTellsApart(items, o, p, attrs, t);
      case Obj(m) =>
        var k :| k in m && t in Reads(m[k]);
        InputsAt(m, o, EchoOps(), k);
        InputsAt(m, p, EchoOps(), k);
        TellsApart(m[k], o, p, attrs, t);
        assert Resolve(v, o, EchoOps()).value.fields[k] != Resolve(v, p, EchoOps()).value.fields[k];
      case _ =>
    }
  }

  lemma {:induction false} ListTellsApart(items: seq<Value>, o: Outputs, p: Outputs, attrs: set<string>, t: Id)
    requires forall i :: 0 <= i < |items| ==> Resolvable(items[i], attrs)
    requires (exists i :: 0 <= i < |items| && t in Reads(items[i])) && t in o && t in p
    requires forall a :: a in attrs ==> a in o[t] && a in p[t] && o[t][a] != p[t][a]
    requires ResolveAll(items, o, EchoOps()).Some? && ResolveAll(items, p, EchoOps()).Some?
    ensures ResolveAll(items, o, EchoOps()) != ResolveAll(items, p, EchoOps())
  {
    hide Resolve, ResolveAll, Resolvable, Reads;
    ResolveAllAt(items, o, EchoOps());
    ResolveAllAt(items, p, EchoOps());
    var i :| 0 <= i < |items| && t in Reads(items[i]);
    TellsApart(items[i], o, p, attrs, t);
    assert ResolveAll(items, o, EchoOps()).value[i] != ResolveAll(items, p, EchoOps()).value[i];
  }

  // ------------------------------------------------------------ from hidden to seen

  /** Both configs as the theorem below takes them. */
  ghost predicate Comparable(ir: IRGraph, h: Hashes, attrs: set<string>) {
    IsHashing(ir, h) && Lowered(ir) && PlainIgnored(ir) && FieldsResolvable(ir, attrs)
  }

  /** In the echoing run every node's fields resolve, and each of its attributes reports them. */
  lemma EchoRunAt(ir: IRGraph, h: Hashes, attrs: set<string>, outs: Outputs, k: Id)
    requires Comparable(ir, h, attrs) && IsRun(ir, outs, EchoProvider(attrs), EchoOps()) && k in h
    ensures k in ById(ir) && k in outs && forall f :: f in ById(ir)[k].properties ==>
            Resolve(ById(ir)[k].properties[f], outs, EchoOps()).Some?
    ensures ResolvedInputs(ById(ir)[k].properties, outs, EchoOps()).Some?
    ensures outs[k] == map a | a in attrs :: Obj(ResolvedInputs(ById(ir)[k].properties, outs, EchoOps()).value)
  {
    hide Resolve, Resolvable, Reads, NeedsResolution, EchoOps, HashesOf, Text.Sorted;
    HashAt(ir, h, k);
    RunAt(ir, outs, EchoProvider(attrs), EchoOps(), k);
    var props := ById(ir)[k].properties;
    forall f | f in props ensures Resolve(props[f], outs, EchoOps()).Some? {
      forall t | t in Reads(props[f]) ensures t in outs && attrs <= outs[t].Keys {
        assert t in ReadsOf(props);
        HashAt(ir, h, t);
        RunAt(ir, outs, EchoProvider(attrs), EchoOps(), t);
      }
      EchoResolves(props[f], outs, attrs);
    }
  }

  /** The node is applied with different inputs in the two echoing runs. */
  ghost predicate Differ(ir1: IRGraph, outs1: Outputs, ir2: IRGraph, outs2: Outputs, k: Id)
    requires k in ById(ir1) && k in ById(ir2)
  {
    ResolvedInputs(ById(ir1)[k].properties, outs1, EchoOps()) != ResolvedInputs(ById(ir2)[k].properties, outs2, EchoOps())
  }

  /** A plain field that differs between the configs is a different input. */
  lemma HiddenShows(ir1: IRGraph, h1: Hashes, outs1: Outputs, ir2: IRGraph, h2: Hashes, outs2: Outputs, attrs: set<string>, m: Id)
    requires Comparable(ir1, h1, attrs) && Comparable(ir2, h2, attrs)
    requires IsRun(ir1, outs1, EchoProvider(attrs), EchoOps()) && IsRun(ir2, outs2, EchoProvider(attrs), EchoOps())
    requires m in h1 && m in h2 && h1[m] == h2[m] && !NothingHidden(ir1, ir2, m)
    ensures m in ById(ir1) && m in ById(ir2) && Differ(ir1, outs1, ir2, outs2, m)
  {
    hide Resolve, Resolvable, Reads, NeedsResolution, EchoOps, IsRun, ResolvedInputs, Lowered, FieldsResolvable, HashesOf;
    HashAt(ir1, h1, m);
    HashAt(ir2, h2, m);
    EchoRunAt(ir1, h1, attrs, outs1, m);
    EchoRunAt(ir2, h2, attrs, outs2, m);
    var a, b := ById(ir1)[m], ById(ir2)[m];
    var f :| (f in a.Ignored() || f in b.Ignored()) &&
             !((f in a.properties <==> f in b.properties) && (f in a.properties ==> a.properties[f] == b.properties[f]));
    InputsAt(a.properties, outs1, EchoOps(), f);
    InputsAt(b.properties, outs2, EchoOps(), f);
    if f in a.properties && f in b.properties {
      assert f !in Kept(a) && f !in Kept(b);
      NothingToResolve(a.properties[f], outs1, EchoOps());
      NothingToResolve(b.properties[f], outs2, EchoOps());
    }
  }

  /** A dependency applied with different inputs makes its dependent's inputs differ. */
  lemma DifferenceClimbs(ir1: IRGraph, h1: Hashes, outs1: Outputs, ir2: IRGraph, h2: Hashes, outs2: Outputs,
                         attrs: set<string>, n: Id, d: Id)
    requires Comparable(ir1, h1, attrs) && Comparable(ir2, h2, attrs)
    requires IsRun(ir1, outs1, EchoProvider(attrs), EchoOps()) && IsRun(ir2, outs2, EchoProvider(attrs), EchoOps())
    requires n in h1 && n in h2 && h1[n] == h2[n] && Step(DepGraph(ir1), n, d)
    requires d in h1 && d in h2 && d in ById(ir1) && d in ById(ir2) && Differ(ir1, outs1, ir2, outs2, d)
    ensures n in ById(ir1) && n in ById(ir2) && Differ(ir1, outs1, ir2, outs2, n)
  {
    hide Resolve, Resolvable, Reads, NeedsResolution, EchoOps, IsRun, ResolvedInputs, HashesOf;
    HashAt(ir1, h1, n);
    HashAt(ir2, h2, n);
    EchoRunAt(ir1, h1, attrs, outs1, n);
    EchoRunAt(ir2, h2, attrs, outs2, n);
    EchoRunAt(ir1, h1, attrs, outs1, d);
    EchoRunAt(ir2, h2, attrs, outs2, d);
    var a, b := ById(ir1)[n], ById(ir2)[n];
    ReadsAreKept(a);
    assert d in ReadsOf(Kept(a));
    var f :| f in Kept(a) && d in Reads(Kept(a)[f]);
    assert f in Kept(b) && Kept(a)[f] == Kept(b)[f];
    InputsAt(a.properties, outs1, EchoOps(), f);
    InputsAt(b.properties, outs2, EchoOps(), f);
    TellsApart(a.properties[f], outs1, outs2, attrs, d);
  }

  lemma {:induction false} DifferenceClimbsAlong(ir1: IRGraph, h1: Hashes, outs1: Outputs, ir2: IRGraph, h2: Hashes, outs2: Outputs,
                                                 attrs: set<string>, n: Id, p: seq<Id>, m: Id)
    requires Comparable(ir1, h1, attrs) && Comparable(ir2, h2, attrs)
    requires IsRun(ir1, outs1, EchoProvider(attrs), EchoOps()) && IsRun(ir2, outs2, EchoProvider(attrs), EchoOps())
    requires n in h1 && n in h2 && h1[n] == h2[n] && Via(DepGraph(ir1), n, p, m) && !NothingHidden(ir1, ir2, m)
    ensures n in ById(ir1) && n in ById(ir2) && Differ(ir1, outs1, ir2, outs2, n)
    decreases |p|
  {
    hide IsHashing, Lowered, PlainIgnored, FieldsResolvable, IsRun, NothingHidden, Differ, DepGraph;
    if p == [] {
      HiddenShows(ir1, h1, outs1, ir2, h2, outs2, attrs, n);
    } else {
      LoweredShowsRefs(ir1, ir2);
      assert Via(DepGraph(ir1), p[0], [], p[0]);
      EqualAlong(ir1, h1, ir2, h2, n, [p[0]], p[0]);
      DifferenceClimbsAlong(ir1, h1, outs1, ir2, h2, outs2, attrs, p[0], p[1..], m);
      DifferenceClimbs(ir1, h1, outs1, ir2, h2, outs2, attrs, n, p[0]);
    }
  }

  lemma ComparableMeans(ir: IRGraph, h: Hashes, attrs: set<string>)
    requires Comparable(ir, h, attrs)
    ensures IsHashing(ir, h) && Lowered(ir)
  {}

  /** Main result: where ignored fields hold no reference, an unchanged digest means unchanged resolved inputs,
   * whatever the providers report, exactly when no ignored field at or below the node holds a different value. */
  lemma UnchangedMeansExactly(ir1: IRGraph, h1: Hashes, ir2: IRGraph, h2: Hashes, attrs: set<string>, n: Id)
    requires Comparable(ir1, h1, attrs) && Comparable(ir2, h2, attrs) && n in h1 && n in h2 && h1[n] == h2[n]
    ensures n in ById(ir1) && n in ById(ir2)
    ensures SameInputsAlways(ir1, ir2, n) <==> forall m :: Reach(DepGraph(ir1), n, m) ==> NothingHidden(ir1, ir2, m)
  {
    hide Comparable, IsHashing, Lowered, IsRun, NothingHidden, ResolvedInputs, EchoOps, EchoProvider, RunOutputs, DepGraph;
    ComparableMeans(ir1, h1, attrs);
    ComparableMeans(ir2, h2, attrs);
    HashAt(ir1, h1, n);
    HashAt(ir2, h2, n);
    if forall m :: Reach(DepGraph(ir1), n, m) ==> NothingHidden(ir1, ir2, m) {
      forall outs1, outs2, provider, ops | IsRun(ir1, outs1, provider, ops) && IsRun(ir2, outs2, provider, ops)
        ensures ResolvedInputs(ById(ir1)[n].properties, outs1, ops) == ResolvedInputs(ById(ir2)[n].properties, outs2, ops)
      {
        SameHashSameInputs(ir1, h1, outs1, ir2, h2, outs2, provider, ops, n);
      }
    } else {
      var m :| Reach(DepGraph(ir1), n, m) && !NothingHidden(ir1, ir2, m);
      var p :| Via(DepGraph(ir1), n, p, m);
      var provider, ops := EchoProvider(attrs), EchoOps();
      EveryConfigRuns(ir1, h1, provider, ops);
      EveryConfigRuns(ir2, h2, provider, ops);
      DifferenceClimbsAlong(ir1, h1, RunOutputs(ir1, h1, provider, ops), ir2, h2, RunOutputs(ir2, h2, provider, ops), attrs,
          n, p, m);
    }
  }
}
