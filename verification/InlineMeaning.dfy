/** What inlining must not change: the value every expression stands for, however values are computed. */
module InlineMeaning {
  import opened Graphs
  import Values
  import opened Inline

  /** How values are computed from expressions; `foreign` gives the outputs of stacks outside the config. */
  datatype Interpretation<!T> = Interpretation(
    leaf: Values.Value -> T,
    read: (Id, string) -> T,
    foreign: (string, string) -> T,
    build: (Shape, seq<T>) -> T)

  /** An expression's value when the config's own outputs have the given values. */
  function Eval<T>(e: Expr, i: Interpretation<T>, outs: map<string, T>): T {
    match e
    case Leaf(v) => i.leaf(v)
    case NodeRef(node, attr) => i.read(node, attr)
    case OutputRef(stack, name) => if stack + ":" + name in outs then outs[stack + ":" + name] else i.foreign(stack, name)
    case Node(shape, children) => i.build(shape, EvalEach(children, i, outs))
  }

  function EvalEach<T>(es: seq<Expr>, i: Interpretation<T>, outs: map<string, T>): (r: seq<T>)
    ensures |r| == |es|
  {
    if es == [] then [] else [Eval(es[0], i, outs)] + EvalEach(es[1..], i, outs)
  }

  /** Each output has the value of its own expression. */
  ghost predicate Consistent<T>(outputs: Outputs, i: Interpretation<T>, outs: map<string, T>) {
    outs.Keys == outputs.Keys && forall k :: k in outputs ==> outs[k] == Eval(outputs[k], i, outs)
  }

  ghost predicate SameValues<T>(i: Interpretation<T>, outs: map<string, T>, env: Outputs, ids: set<string>) {
    forall k :: k in ids ==> k in env && k in outs && Eval(env[k], i, map[]) == outs[k]
  }

  /** A substituted expression has the value of the expression, if what replaces each reference has the value of the
   * output referred to.
   */
  lemma {:induction false} SubstMeans<T>(e: Expr, env: Outputs, i: Interpretation<T>, outs: map<string, T>)
    requires env.Keys == outs.Keys && SameValues(i, outs, env, InRefs(e, env.Keys))
    ensures Eval(Subst(e, env), i, map[]) == Eval(e, i, outs)
    decreases e
  {
    match e
    case OutputRef(stack, name) => assert Key(stack, name) in env ==> Key(stack, name) in InRefs(e, env.Keys);
    case Node(_, children) =>
      forall j | 0 <= j < |children| ensures Eval(Subst(children[j], env), i, map[]) == Eval(children[j], i, outs) {
        forall t | t in InRefs(children[j], env.Keys) ensures t in InRefs(e, env.Keys) {}
        SubstMeans(children[j], env, i, outs);
      }
      EachMeans(children, SubstEach(children, env), i, outs);
    case _ =>
  }

  lemma {:induction false} EachMeans<T>(es: seq<Expr>, fs: seq<Expr>, i: Interpretation<T>, outs: map<string, T>)
    requires |fs| == |es| && forall j :: 0 <= j < |es| ==> Eval(fs[j], i, map[]) == Eval(es[j], i, outs)
    ensures EvalEach(fs, i, map[]) == EvalEach(es, i, outs)
  {
    if es != [] {
      forall j | 0 <= j < |es[1..]| ensures Eval(fs[1..][j], i, map[]) == Eval(es[1..][j], i, outs) {
        assert fs[1..][j] == fs[j + 1] && es[1..][j] == es[j + 1];
      }
      EachMeans(es[1..], fs[1..], i, outs);
    }
  }

  /** A full substitution of acyclic outputs gives every output its value, with no output known. */
  lemma {:induction false} SolutionMeans<T>(outputs: Outputs, r: Outputs, i: Interpretation<T>, outs: map<string, T>, k: string)
    requires Acyclic(OutputGraph(outputs)) && IsSolution(outputs, r) && Consistent(outputs, i, outs) && k in outputs
    ensures Eval(r[k], i, map[]) == outs[k]
    decreases |Descendants(OutputGraph(outputs), k)|
  {
    hide Eval, Subst, InRefs;
    InRefsAreKeys(outputs[k], outputs.Keys);
    forall t | t in InRefs(outputs[k], outputs.Keys) ensures Eval(r[t], i, map[]) == outs[t] {
      OutputStep(outputs, k, t);
      DescendantsShrink(OutputGraph(outputs), k, t);
      SolutionMeans(outputs, r, i, outs, t);
    }
    SubstMeans(outputs[k], r, i, outs);
  }

  /** The values the inlined outputs have on their own are values the outputs can have. */
  lemma ValuesExist<T>(outputs: Outputs, r: Outputs, i: Interpretation<T>, outs: map<string, T>)
    requires IsSolution(outputs, r) && outs.Keys == r.Keys && forall k :: k in r ==> Eval(r[k], i, map[]) == outs[k]
    ensures Consistent(outputs, i, outs)
  {
    hide Eval, Subst, InRefs;
    forall k | k in outputs ensures outs[k] == Eval(outputs[k], i, outs) {
      InRefsAreKeys(outputs[k], outputs.Keys);
      SubstMeans(outputs[k], r, i, outs);
    }
  }

  /** Main result: inlining preserves meaning. However values are computed, an acyclic registry gives its outputs values in
   * exactly one way, every inlined output and input has the value of what it replaces, and reads no output to have it.
   */
  lemma InliningPreservesMeaning<T>(reg: Registry, r: Registry, i: Interpretation<T>, outs: map<string, T>)
    requires Acyclic(OutputGraph(reg.outputs)) && IsInlined(reg, r)
    ensures Consistent(reg.outputs, i, outs) <==>
            outs.Keys == r.outputs.Keys && forall k :: k in r.outputs ==> outs[k] == Eval(r.outputs[k], i, map[])
    ensures |r.resources| == |reg.resources|
    ensures Consistent(reg.outputs, i, outs) ==>
              forall n :: 0 <= n < |reg.resources| ==>
                r.resources[n].id == reg.resources[n].id && r.resources[n].inputs.Keys == reg.resources[n].inputs.Keys &&
                forall f :: f in r.resources[n].inputs ==>
                  Eval(r.resources[n].inputs[f], i, map[]) == Eval(reg.resources[n].inputs[f], i, outs)
  {
    hide Eval, Subst, InRefs, Acyclic;
    if outs.Keys == r.outputs.Keys && forall k :: k in r.outputs ==> outs[k] == Eval(r.outputs[k], i, map[]) {
      ValuesExist(reg.outputs, r.outputs, i, outs);
    }
    if Consistent(reg.outputs, i, outs) {
      forall k | k in reg.outputs ensures Eval(r.outputs[k], i, map[]) == outs[k] {
        SolutionMeans(reg.outputs, r.outputs, i, outs, k);
      }
      forall n | 0 <= n < |reg.resources| ensures
        forall f :: f in r.resources[n].inputs ==>
          Eval(r.resources[n].inputs[f], i, map[]) == Eval(reg.resources[n].inputs[f], i, outs)
      {
        ResourceMeans(reg.resources[n], r.outputs, i, outs);
      }
    }
  }

  lemma ResourceMeans<T>(r: Resource, env: Outputs, i: Interpretation<T>, outs: map<string, T>)
    requires env.Keys == outs.Keys && forall k :: k in env ==> Eval(env[k], i, map[]) == outs[k]
    ensures forall f :: f in r.inputs ==> Eval(ResourceUnder(r, env).inputs[f], i, map[]) == Eval(r.inputs[f], i, outs)
  {
    hide Eval, Subst, InRefs;
    forall f | f in r.inputs ensures Eval(Subst(r.inputs[f], env), i, map[]) == Eval(r.inputs[f], i, outs) {
      InRefsAreKeys(r.inputs[f], env.Keys);
      SubstMeans(r.inputs[f], env, i, outs);
    }
  }
}
