/** In-config cross-stack output references replaced by the expressions they name. */
module Inline {
  import opened Graphs
  import opened Values
  import opened Order
  import Text

  /** What a container node is; its values are its children. */
  datatype Shape = Sequence | Mapping(keys: seq<string>) | Deferred(op: string)

  /** A live value expression, before lowering. */
  datatype Expr =
    | Leaf(value: Value)
    | NodeRef(node: Id, attr: string)
    | OutputRef(stack: string, name: string)
    | Node(shape: Shape, children: seq<Expr>)

  type Outputs = map<string, Expr>

  function Key(stack: string, name: string): string {
    stack + ":" + name
  }

  /** The output keys among `keys` that the expression refers to, through containers and transforms alike. */
  function InRefs(e: Expr, keys: set<string>): set<string> {
    match e
    case OutputRef(stack, name) => {Key(stack, name)} * keys
    case Node(_, children) => set i, t | 0 <= i < |children| && t in InRefs(children[i], keys) :: t
    case _ => {}
  }

  /** Every reference to a key of `env` replaced by what `env` holds for it. */
  function Subst(e: Expr, env: Outputs): Expr {
    match e
    case OutputRef(stack, name) => if Key(stack, name) in env then env[Key(stack, name)] else e
    case Node(shape, children) => Node(shape, seq(|children|, i requires 0 <= i < |children| => Subst(children[i], env)))
    case _ => e
  }

  function SubstEach(es: seq<Expr>, env: Outputs): seq<Expr> {
    seq(|es|, i requires 0 <= i < |es| => Subst(es[i], env))
  }

  ghost predicate Extends(more: Outputs, less: Outputs) {
    forall k :: k in less ==> k in more && more[k] == less[k]
  }

  /** Substitution reads only the keys the expression refers to. */
  lemma {:induction false} SubstFrame(e: Expr, less: Outputs, more: Outputs, keys: set<string>)
    requires Extends(more, less) && more.Keys <= keys && InRefs(e, keys) <= less.Keys
    ensures Subst(e, less) == Subst(e, more)
  {
    match e
    case OutputRef(stack, name) => assert Key(stack, name) in more ==> Key(stack, name) in InRefs(e, keys);
    case Node(_, children) =>
      forall i | 0 <= i < |children| ensures Subst(children[i], less) == Subst(children[i], more) {
        forall t | t in InRefs(children[i], keys) ensures t in InRefs(e, keys) {}
        SubstFrame(children[i], less, more, keys);
      }
    case _ =>
  }

  /** Substituting expressions without references leaves none. */
  lemma {:induction false} SubstCloses(e: Expr, env: Outputs, keys: set<string>)
    requires InRefs(e, keys) <= env.Keys && forall k :: k in env ==> InRefs(env[k], keys) == {}
    ensures InRefs(Subst(e, env), keys) == {}
  {
    match e
    case OutputRef(stack, name) =>
    case Node(_, children) =>
      forall i | 0 <= i < |children| ensures InRefs(Subst(children[i], env), keys) == {} {
        forall t | t in InRefs(children[i], keys) ensures t in InRefs(e, keys) {}
        SubstCloses(children[i], env, keys);
      }
    case _ =>
  }

  /** An expression without references is left as it is. */
  lemma {:induction false} SubstNothing(e: Expr, env: Outputs)
    requires InRefs(e, env.Keys) == {}
    ensures Subst(e, env) == e
  {
    match e
    case OutputRef(stack, name) => assert Key(stack, name) !in InRefs(e, env.Keys);
    case Node(shape, children) =>
      forall i | 0 <= i < |children| ensures Subst(children[i], env) == children[i] {
        forall t | t in InRefs(children[i], env.Keys) ensures t in InRefs(e, env.Keys) {}
        SubstNothing(children[i], env);
      }
    case _ =>
  }

  // ------------------------------------------------------- full substitution

  /** Which outputs each output refers to. */
  function OutputGraph(outputs: Outputs): Edges {
    map k | k in outputs :: Text.Sorted(InRefs(outputs[k], outputs.Keys))
  }

  lemma OutputStep(outputs: Outputs, a: string, b: string)
    ensures Step(OutputGraph(outputs), a, b) <==> a in outputs && b in InRefs(outputs[a], outputs.Keys)
  {}

  lemma {:induction false} InRefsAreKeys(e: Expr, keys: set<string>)
    ensures InRefs(e, keys) <= keys
  {
    if e.Node? {
      forall i | 0 <= i < |e.children| ensures InRefs(e.children[i], keys) <= keys { InRefsAreKeys(e.children[i], keys); }
    }
  }

  /** Every output with its references replaced by the replaced outputs. */
  ghost predicate IsSolution(outputs: Outputs, resolved: Outputs) {
    resolved.Keys == outputs.Keys && forall k :: k in outputs ==> resolved[k] == Subst(outputs[k], resolved)
  }

  lemma {:induction false} SubstSame(e: Expr, r1: Outputs, r2: Outputs)
    requires r1.Keys == r2.Keys && forall t :: t in r1 && t in InRefs(e, r1.Keys) ==> r1[t] == r2[t]
    ensures Subst(e, r1) == Subst(e, r2)
  {
    match e
    case OutputRef(stack, name) => assert Key(stack, name) in r1 ==> Key(stack, name) in InRefs(e, r1.Keys);
    case Node(_, children) =>
      forall i | 0 <= i < |children| ensures Subst(children[i], r1) == Subst(children[i], r2) {
        forall t | t in InRefs(children[i], r1.Keys) ensures t in InRefs(e, r1.Keys) {}
        SubstSame(children[i], r1, r2);
      }
    case _ =>
  }

  /** Acyclic outputs have one full substitution: the order outputs are visited in does not show. */
  lemma {:induction false} SolutionIsUnique(outputs: Outputs, r1: Outputs, r2: Outputs, k: string)
    requires Acyclic(OutputGraph(outputs)) && IsSolution(outputs, r1) && IsSolution(outputs, r2) && k in outputs
    ensures r1[k] == r2[k]
    decreases |Descendants(OutputGraph(outputs), k)|
  {
    InRefsAreKeys(outputs[k], outputs.Keys);
    forall t | t in InRefs(outputs[k], outputs.Keys) ensures r1[t] == r2[t] {
      OutputStep(outputs, k, t);
      DescendantsShrink(OutputGraph(outputs), k, t);
      SolutionIsUnique(outputs, r1, r2, t);
    }
    SubstSame(outputs[k], r1, r2);
  }

  // --------------------------------------------------------------- memoised walk

  datatype Outcome<T> = Done(value: T) | Cycle(keys: seq<string>)

  /** What the memo holds: finished outputs, in an order their references respect. */
  ghost predicate Memo(outputs: Outputs, resolved: Outputs, order: seq<string>) {
    && Elems(order) == resolved.Keys && resolved.Keys <= outputs.Keys && Distinct(order)
    && Respects(OutputGraph(outputs), order)
    && forall k :: k in resolved ==>
         InRefs(outputs[k], outputs.Keys) <= resolved.Keys && resolved[k] == Subst(outputs[k], resolved) &&
         InRefs(resolved[k], outputs.Keys) == {}
  }

  /** `seen` is the chain of outputs being resolved, each referring to the next and the last to `key`. */
  ghost predicate Chain(outputs: Outputs, seen: seq<string>, key: string) {
    && (forall i :: 0 <= i < |seen| - 1 ==> Step(OutputGraph(outputs), seen[i], seen[i + 1]))
    && (seen != [] ==> Step(OutputGraph(outputs), seen[|seen| - 1], key))
  }

  lemma {:induction false} ChainReaches(outputs: Outputs, seen: seq<string>, key: string, i: nat)
    requires Chain(outputs, seen, key) && i < |seen|
    ensures ReachPlus(OutputGraph(outputs), seen[i], key)
    decreases |seen| - i
  {
    hide OutputGraph, Reach;
    var g := OutputGraph(outputs);
    if i == |seen| - 1 {
      ReachSelf(g, key);
    } else {
      ChainReaches(outputs, seen, key, i + 1);
      ReachOne(g, seen[i], seen[i + 1]);
      ReachReachPlus(g, seen[i], seen[i + 1], key);
    }
  }

  lemma ChainGrows(outputs: Outputs, seen: seq<string>, key: string, target: string)
    requires Chain(outputs, seen, key) && key in outputs && target in InRefs(outputs[key], outputs.Keys)
    ensures Chain(outputs, seen + [key], target)
  {
    hide OutputGraph, InRefs, Step;
    OutputStep(outputs, key, target);
  }

  lemma MemoGrows(outputs: Outputs, resolved: Outputs, order: seq<string>, key: string)
    requires Memo(outputs, resolved, order) && key in outputs && key !in resolved
    requires InRefs(outputs[key], outputs.Keys) <= resolved.Keys
    ensures Memo(outputs, resolved[key := Subst(outputs[key], resolved)], order + [key])
  {
    hide Subst, InRefs, OutputGraph;
    var more := resolved[key := Subst(outputs[key], resolved)];
    ElemsSnoc(order, key);
    RespectsOneMore(outputs, order, key);
    SubstCloses(outputs[key], resolved, outputs.Keys);
    forall k | k in more ensures more[k] == Subst(outputs[k], more) {
      SubstFrame(outputs[k], resolved, more, outputs.Keys);
    }
  }

  lemma RespectsOneMore(outputs: Outputs, order: seq<string>, key: string)
    requires Respects(OutputGraph(outputs), order) && key in outputs && InRefs(outputs[key], outputs.Keys) <= Elems(order)
    ensures Respects(OutputGraph(outputs), order + [key])
  {
    var g, more := OutputGraph(outputs), order + [key];
    forall k, p | 0 <= k < |more| && Step(g, more[k], p) ensures p in more[..k] {
      if k == |order| {
        OutputStep(outputs, key, p);
        assert p in Elems(order) && more[..k] == order;
      } else {
        assert more[..k] == order[..k] && more[k] == order[k];
      }
    }
  }

  /** A reported cycle: each key refers to the next, and the last occurs before. */
  ghost predicate ClosedChain(outputs: Outputs, keys: seq<string>) {
    && |keys| >= 2 && keys[|keys| - 1] in keys[..|keys| - 1]
    && forall i :: 0 <= i < |keys| - 1 ==> Step(OutputGraph(outputs), keys[i], keys[i + 1])
  }

  /** Meeting a key of the chain again closes a cycle. */
  lemma ClosesCycle(outputs: Outputs, seen: seq<string>, key: string)
    requires Chain(outputs, seen, key) && key in seen
    ensures ClosedChain(outputs, seen + [key])
  {
    hide OutputGraph, Step;
    var keys := seen + [key];
    assert keys[..|keys| - 1] == seen;
    forall i | 0 <= i < |keys| - 1 ensures Step(OutputGraph(outputs), keys[i], keys[i + 1]) {
      assert keys[i] == seen[i];
    }
  }

  lemma ClosedIsCyclic(outputs: Outputs, keys: seq<string>)
    requires ClosedChain(outputs, keys)
    ensures !Acyclic(OutputGraph(outputs))
  {
    hide OutputGraph, Step, ReachPlus;
    var seen, key := keys[..|keys| - 1], keys[|keys| - 1];
    assert Chain(outputs, seen, key);
    var i :| 0 <= i < |seen| && seen[i] == key;
    ChainReaches(outputs, seen, key, i);
  }

  /** `resolving` is a chain whose last output is being walked; `e` is a part of its expression. */
  ghost predicate Walking(outputs: Outputs, resolving: seq<string>, refs: set<string>) {
    && resolving != [] && resolving[|resolving| - 1] in outputs
    && Chain(outputs, resolving[..|resolving| - 1], resolving[|resolving| - 1])
    && refs <= InRefs(outputs[resolving[|resolving| - 1]], outputs.Keys)
  }

  lemma WalkInto(outputs: Outputs, resolving: seq<string>, refs: set<string>, target: string)
    requires Walking(outputs, resolving, refs) && target in refs
    ensures target in outputs && Chain(outputs, resolving, target)
  {
    var last := resolving[|resolving| - 1];
    InRefsAreKeys(outputs[last], outputs.Keys);
    assert resolving == resolving[..|resolving| - 1] + [last];
    ChainGrows(outputs, resolving[..|resolving| - 1], last, target);
  }

  function InRefsEach(es: seq<Expr>, keys: set<string>): set<string> {
    set i, t | 0 <= i < |es| && t in InRefs(es[i], keys) :: t
  }

  lemma InRefsParts(es: seq<Expr>, keys: set<string>)
    requires es != []
    ensures InRefsEach(es, keys) == InRefs(es[0], keys) + InRefsEach(es[1..], keys)
  {
    hide InRefs;
    forall t | t in InRefsEach(es, keys) ensures t in InRefs(es[0], keys) + InRefsEach(es[1..], keys) {
      var i :| 0 <= i < |es| && t in InRefs(es[i], keys);
      if i > 0 { assert es[1..][i - 1] == es[i]; }
    }
    forall t | t in InRefsEach(es[1..], keys) ensures t in InRefsEach(es, keys) {
      var i :| 0 <= i < |es[1..]| && t in InRefs(es[1..][i], keys);
      assert es[i + 1] == es[1..][i];
    }
  }

  lemma SubstParts(es: seq<Expr>, env: Outputs)
    requires es != []
    ensures SubstEach(es, env) == [Subst(es[0], env)] + SubstEach(es[1..], env)
  {
    hide Subst;
  }

  lemma WalkingPart(outputs: Outputs, resolving: seq<string>, refs: set<string>, fewer: set<string>)
    requires Walking(outputs, resolving, refs) && fewer <= refs
    ensures Walking(outputs, resolving, fewer)
  {}

  lemma MemoBound(outputs: Outputs, resolved: Outputs, order: seq<string>)
    requires Memo(outputs, resolved, order)
    ensures resolved.Keys <= outputs.Keys
  {}

  lemma NodeParts(e: Expr, keys: set<string>, env: Outputs)
    requires e.Node?
    ensures InRefs(e, keys) == InRefsEach(e.children, keys)
    ensures Subst(e, env) == Node(e.shape, SubstEach(e.children, env))
  {}

  lemma LeafParts(e: Expr, keys: set<string>, env: Outputs)
    requires !e.Node? && (e.OutputRef? ==> Key(e.stack, e.name) !in keys) && env.Keys <= keys
    ensures InRefs(e, keys) == {} && Subst(e, env) == e
  {}

  /** Resolves outputs on demand, each once. */
  class Inliner {
    const outputs: Outputs
    var resolved: Outputs
    /** The order outputs were finished in. */
    ghost var order: seq<string>

    constructor (outputs: Outputs)
      ensures this.outputs == outputs && resolved == map[] && Memo(this.outputs, resolved, order)
    {
      this.outputs, resolved, order := outputs, map[], [];
    }

    /** One output's expression, fully resolved; `seen` is the chain of outputs being resolved. */
    method ResolveOutput(key: string, seen: seq<string>) returns (r: Outcome<Expr>)
      requires Memo(outputs, resolved, order) && key in outputs && Chain(outputs, seen, key) && Elems(seen) !! resolved.Keys
      modifies this`resolved, this`order
      ensures Memo(outputs, resolved, order) && Extends(resolved, old(resolved)) && Elems(seen) !! resolved.Keys
      ensures r.Done? ==> key in resolved && r.value == resolved[key]
      ensures r.Cycle? ==> ClosedChain(outputs, r.keys)
      decreases |outputs.Keys - Elems(seen)|, 0
    {
      hide Memo, Chain, ClosedChain, Subst, InRefs, OutputGraph;
      if key in resolved { return Done(resolved[key]); }
      if key in seen {
        ClosesCycle(outputs, seen, key);
        return Cycle(seen + [key]);
      }
      var resolving := seen + [key];
      ElemsSnoc(seen, key);
      SmallerSet(outputs.Keys - Elems(resolving), outputs.Keys - Elems(seen));
      assert resolving[..|resolving| - 1] == seen;
      r := ResolveExpr(outputs[key], resolving);
      if r.Cycle? { return; }
      assert key in Elems(resolving);
      MemoGrows(outputs, resolved, order, key);
      resolved, order := resolved[key := r.value], order + [key];
    }

    /** The walk over one expression of the last output of `resolving`. */
    method ResolveExpr(e: Expr, resolving: seq<string>) returns (r: Outcome<Expr>)
      requires Memo(outputs, resolved, order) && Elems(resolving) !! resolved.Keys
      requires Walking(outputs, resolving, InRefs(e, outputs.Keys))
      modifies this`resolved, this`order
      ensures Memo(outputs, resolved, order) && Extends(resolved, old(resolved)) && Elems(resolving) !! resolved.Keys
      ensures r.Done? ==> InRefs(e, outputs.Keys) <= resolved.Keys && r.value == Subst(e, resolved)
      ensures r.Cycle? ==> ClosedChain(outputs, r.keys)
      decreases |outputs.Keys - Elems(resolving)|, 1, e
    {
      hide Memo, Chain, ClosedChain, OutputGraph, Walking;
      if e.OutputRef? && Key(e.stack, e.name) in outputs {
        var target := Key(e.stack, e.name);
        WalkInto(outputs, resolving, InRefs(e, outputs.Keys), target);
        r := ResolveOutput(target, resolving);
      } else if e.Node? {
        NodeParts(e, outputs.Keys, resolved);
        var children := ResolveEach(e.children, resolving);
        NodeParts(e, outputs.Keys, resolved);
        r := if children.Done? then Done(Node(e.shape, children.value)) else Cycle(children.keys);
      } else {
        MemoBound(outputs, resolved, order);
        LeafParts(e, outputs.Keys, resolved);
        r := Done(e);
      }
    }

    method ResolveEach(es: seq<Expr>, resolving: seq<string>) returns (r: Outcome<seq<Expr>>)
      requires Memo(outputs, resolved, order) && Elems(resolving) !! resolved.Keys
      requires Walking(outputs, resolving, InRefsEach(es, outputs.Keys))
      modifies this`resolved, this`order
      ensures Memo(outputs, resolved, order) && Extends(resolved, old(resolved)) && Elems(resolving) !! resolved.Keys
      ensures r.Done? ==> InRefsEach(es, outputs.Keys) <= resolved.Keys && r.value == SubstEach(es, resolved)
      ensures r.Cycle? ==> ClosedChain(outputs, r.keys)
      decreases |outputs.Keys - Elems(resolving)|, 1, es
    {
      hide Memo, Chain, ClosedChain, Subst, InRefs, OutputGraph, Walking;
      if es == [] { return Done([]); }
      InRefsParts(es, outputs.Keys);
      WalkingPart(outputs, resolving, InRefsEach(es, outputs.Keys), InRefs(es[0], outputs.Keys));
      WalkingPart(outputs, resolving, InRefsEach(es, outputs.Keys), InRefsEach(es[1..], outputs.Keys));
      var head := ResolveExpr(es[0], resolving);
      if head.Cycle? { return Cycle(head.keys); }
      ghost var early := resolved;
      var tail := ResolveEach(es[1..], resolving);
      if tail.Cycle? { return Cycle(tail.keys); }
      MemoBound(outputs, resolved, order);
      SubstFrame(es[0], early, resolved, outputs.Keys);
      SubstParts(es, resolved);
      r := Done([head.value] + tail.value);
    }
  }

  // ------------------------------------------------------------------ the registry

  /** A declared resource: its id and its input fields. */
  datatype Resource = Resource(id: Id, inputs: map<string, Expr>)

  datatype Registry = Registry(resources: seq<Resource>, outputs: Outputs)

  predicate HasInRef(e: Expr, keys: set<string>) {
    InRefs(e, keys) != {}
  }

  predicate HasAnyInRef(reg: Registry) {
    (exists r, f | r in reg.resources && f in r.inputs :: HasInRef(r.inputs[f], reg.outputs.Keys)) ||
    (exists k | k in reg.outputs :: HasInRef(reg.outputs[k], reg.outputs.Keys))
  }

  /** A resource with the fields that need it substituted. */
  function Rebuilt(r: Resource, keys: set<string>, env: Outputs): Resource {
    r.(inputs := map f | f in r.inputs :: if HasInRef(r.inputs[f], keys) then Subst(r.inputs[f], env) else r.inputs[f])
  }

  lemma MemoIsSolution(outputs: Outputs, resolved: Outputs, order: seq<string>)
    requires Memo(outputs, resolved, order) && resolved.Keys == outputs.Keys
    ensures IsSolution(outputs, resolved) && Acyclic(OutputGraph(outputs))
    ensures forall k :: k in resolved ==> InRefs(resolved[k], outputs.Keys) == {}
  {
    hide Subst, InRefs;
    OrderedIsAcyclic(OutputGraph(outputs), order);
  }

  /** Every output resolved, in whatever order `keys` lists them. */
  method ResolveOutputs(outputs: Outputs, keys: seq<string>) returns (r: Outcome<Outputs>)
    requires Elems(keys) == outputs.Keys
    ensures r.Done? <==> Acyclic(OutputGraph(outputs))
    ensures r.Cycle? ==> ClosedChain(outputs, r.keys)
    ensures r.Done? ==> IsSolution(outputs, r.value) && forall k :: k in r.value ==> InRefs(r.value[k], outputs.Keys) == {}
  {
    hide Memo, Acyclic, ClosedChain, OutputGraph, Subst, InRefs, IsSolution;
    var inliner := new Inliner(outputs);
    for i := 0 to |keys|
      invariant inliner.outputs == outputs && Memo(outputs, inliner.resolved, inliner.order)
      invariant Elems(keys[..i]) <= inliner.resolved.Keys
    {
      assert keys[i] in Elems(keys) && keys[..i + 1] == keys[..i] + [keys[i]];
      EmptyChain(outputs, keys[i]);
      var one := inliner.ResolveOutput(keys[i], []);
      if one.Cycle? {
        ClosedIsCyclic(outputs, one.keys);
        return Cycle(one.keys);
      }
    }
    assert keys[..|keys|] == keys;
    MemoBound(outputs, inliner.resolved, inliner.order);
    MemoIsSolution(outputs, inliner.resolved, inliner.order);
    r := Done(inliner.resolved);
  }

  lemma EmptyChain(outputs: Outputs, key: string)
    ensures Chain(outputs, [], key) && Elems([]) == {}
  {}

  /** The registry with in-config references replaced by the expressions they name, or the cycle that prevents it. */
  method InlineStackOutputs(reg: Registry, keys: seq<string>) returns (r: Outcome<Registry>)
    requires Elems(keys) == reg.outputs.Keys
    ensures r.Done? <==> Acyclic(OutputGraph(reg.outputs))
    ensures r.Cycle? ==> ClosedChain(reg.outputs, r.keys)
    ensures r.Done? ==> IsInlined(reg, r.value)
    ensures !HasAnyInRef(reg) ==> r == Done(reg)
  {
    hide Acyclic, ClosedChain, Subst, InRefs, IsSolution, OutputGraph;
    if !HasAnyInRef(reg) {
      NothingToInline(reg);
      return Done(reg);
    }
    var resolved := ResolveOutputs(reg.outputs, keys);
    if resolved.Cycle? { return Cycle(resolved.keys); }
    var outKeys := reg.outputs.Keys;
    r := Done(Registry(seq(|reg.resources|, i requires 0 <= i < |reg.resources| =>
                             Rebuilt(reg.resources[i], outKeys, resolved.value)), resolved.value));
    AllInlined(reg, r.value);
  }

  /** Main result on the whole registry: outputs are the full substitution, every input is its own substitution
   * under it, and no in-config reference is left anywhere. */
  ghost predicate IsInlined(reg: Registry, r: Registry) {
    && IsSolution(reg.outputs, r.outputs)
    && |r.resources| == |reg.resources|
    && (forall i :: 0 <= i < |r.resources| ==> r.resources[i] == ResourceUnder(reg.resources[i], r.outputs))
    && !HasAnyInRef(r)
  }

  function ResourceUnder(r: Resource, env: Outputs): Resource {
    r.(inputs := map f | f in r.inputs :: Subst(r.inputs[f], env))
  }

  lemma NothingToInline(reg: Registry)
    requires !HasAnyInRef(reg)
    ensures Acyclic(OutputGraph(reg.outputs)) && IsInlined(reg, reg)
  {
    hide Subst, InRefs;
    var g := OutputGraph(reg.outputs);
    forall a, b ensures !Step(g, a, b) {
      OutputStep(reg.outputs, a, b);
      if a in reg.outputs { assert !HasInRef(reg.outputs[a], reg.outputs.Keys); }
    }
    forall k | k in reg.outputs ensures reg.outputs[k] == Subst(reg.outputs[k], reg.outputs) {
      assert !HasInRef(reg.outputs[k], reg.outputs.Keys);
      SubstNothing(reg.outputs[k], reg.outputs);
    }
    forall i | 0 <= i < |reg.resources| ensures reg.resources[i] == ResourceUnder(reg.resources[i], reg.outputs) {
      var r := reg.resources[i];
      assert r in reg.resources;
      forall f | f in r.inputs ensures Subst(r.inputs[f], reg.outputs) == r.inputs[f] {
        assert !HasInRef(r.inputs[f], reg.outputs.Keys);
        SubstNothing(r.inputs[f], reg.outputs);
      }
      assert ResourceUnder(r, reg.outputs).inputs == r.inputs;
    }
  }

  lemma AllInlined(reg: Registry, r: Registry)
    requires IsSolution(reg.outputs, r.outputs) && |r.resources| == |reg.resources|
    requires forall k :: k in r.outputs ==> InRefs(r.outputs[k], reg.outputs.Keys) == {}
    requires forall i :: 0 <= i < |r.resources| ==> r.resources[i] == Rebuilt(reg.resources[i], reg.outputs.Keys, r.outputs)
    ensures IsInlined(reg, r)
  {
    hide Subst, InRefs;
    var keys := reg.outputs.Keys;
    forall i | 0 <= i < |r.resources|
      ensures r.resources[i] == ResourceUnder(reg.resources[i], r.outputs)
      ensures forall f :: f in r.resources[i].inputs ==> !HasInRef(r.resources[i].inputs[f], keys)
    {
      ResourceInlined(reg.resources[i], keys, r.outputs);
    }
  }

  lemma ResourceInlined(r: Resource, keys: set<string>, env: Outputs)
    requires env.Keys == keys && forall k :: k in env ==> InRefs(env[k], keys) == {}
    ensures Rebuilt(r, keys, env) == ResourceUnder(r, env)
    ensures forall f :: f in ResourceUnder(r, env).inputs ==> !HasInRef(ResourceUnder(r, env).inputs[f], keys)
  {
    hide Subst, InRefs;
    forall f | f in r.inputs
      ensures !HasInRef(r.inputs[f], keys) ==> Subst(r.inputs[f], env) == r.inputs[f]
      ensures InRefs(Subst(r.inputs[f], env), keys) == {}
    {
      InRefsAreKeys(r.inputs[f], keys);
      SubstCloses(r.inputs[f], env, keys);
      if !HasInRef(r.inputs[f], keys) { SubstNothing(r.inputs[f], env); }
    }
    assert Rebuilt(r, keys, env).inputs == ResourceUnder(r, env).inputs;
  }

  /** Whatever order outputs are visited in, the inlined registry is the same. */
  lemma VisitOrderDoesNotShow(reg: Registry, r1: Registry, r2: Registry)
    requires Acyclic(OutputGraph(reg.outputs)) && IsInlined(reg, r1) && IsInlined(reg, r2)
    ensures r1 == r2
  {
    hide HasAnyInRef, Acyclic, Subst;
    forall k | k in reg.outputs ensures r1.outputs[k] == r2.outputs[k] {
      SolutionIsUnique(reg.outputs, r1.outputs, r2.outputs, k);
    }
    assert r1.outputs == r2.outputs && r1.resources == r2.resources;
  }
}
