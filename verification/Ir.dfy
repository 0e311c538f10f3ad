/** The canonical config, the stored state, and the changes a plan makes between them. */
module Ir {
  import opened Graphs
  import opened Values
  import Text

  datatype Kind = Resource | Data

  /** One resource, flattened to data. */
  datatype IRNode = IRNode(
    id: Id,
    typ: string,
    provider: string,
    providerVersion: string,
    properties: Properties,
    dependencies: seq<Id>,
    preventDestroy: bool,
    createBeforeDestroy: bool,
    ignoreChanges: seq<string>,
    aliases: seq<string>,
    dependsOn: seq<Id>,
    kind: Kind)
  {
    /** The node's prerequisites, by reference or by `depends_on`, in sorted order without repeats. */
    function Edges(): seq<Id> {
      Text.Sorted((set d | d in dependencies) + (set d | d in dependsOn))
    }

    function Ignored(): set<string> {
      set f | f in ignoreChanges
    }

    /** `properties.get(name)`: a missing field reads as null. */
    function Field(name: string): Value {
      if name in properties then properties[name] else Null
    }
  }

  type IRGraph = seq<IRNode>

  function Ids(ir: IRGraph): set<Id> {
    set n | n in ir :: n.id
  }

  ghost predicate UniqueIds(ir: IRGraph) {
    forall i, j :: 0 <= i < j < |ir| ==> ir[i].id != ir[j].id
  }

  /** The nodes keyed by id, the last of equals winning. */
  function ById(ir: IRGraph): (m: map<Id, IRNode>)
    ensures m.Keys == Ids(ir)
    ensures forall k :: k in m ==> m[k] in ir && m[k].id == k
  {
    if ir == [] then map[]
    else
      var n := ir[|ir| - 1];
      assert ir == ir[..|ir| - 1] + [n];
      ById(ir[..|ir| - 1])[n.id := n]
  }

  lemma ByIdUnique(ir: IRGraph, n: IRNode)
    requires UniqueIds(ir) && n in ir
    ensures n.id in ById(ir) && ById(ir)[n.id] == n
  {
    var m := ById(ir)[n.id];
    var i :| 0 <= i < |ir| && ir[i] == n;
    var j :| 0 <= j < |ir| && ir[j] == m;
  }

  /** Every node with its edges. */
  function GraphOf(nodes: map<Id, IRNode>): (g: Edges)
    ensures g.Keys == nodes.Keys
  {
    map k | k in nodes :: nodes[k].Edges()
  }

  /** The dependency graph of a config. */
  function EdgesOf(ir: IRGraph): (g: Edges)
    ensures g.Keys == Ids(ir)
  {
    GraphOf(ById(ir))
  }

  lemma EdgesOfStep(ir: IRGraph, n: IRNode, d: Id)
    requires UniqueIds(ir) && n in ir
    ensures Step(EdgesOf(ir), n.id, d) <==> d in n.dependencies || d in n.dependsOn
  {
    ByIdUnique(ir, n);
  }

  // -------------------------------------------------------------------- state

  /** A Merkle digest. SHA-256 is taken as injective, so a digest is its payload; `NoInputHash` is
   * the mark on a drifted row, which no digest equals. */
  datatype Hash = NoInputHash | Sha(typ: string, properties: Properties, deps: seq<Hash>)

  datatype Status = Created | Creating

  /** A persisted resource. */
  datatype StateNode = StateNode(
    id: Id,
    typ: string,
    provider: string,
    providerVersion: string,
    inputHash: Hash,
    properties: Properties,
    dependencies: seq<Id>,
    dependsOn: seq<Id>,
    preventDestroy: bool,
    status: Status)

  /** The committed state, keyed by node id. */
  type StateGraph = map<Id, StateNode>

  ghost predicate Keyed(state: StateGraph) {
    forall k :: k in state ==> state[k].id == k
  }

  // ------------------------------------------------------------------ changes

  datatype Action = Create | Update | Replace | Delete | Noop

  datatype Mutability = Mutable | Immutable | Computed

  type FieldMutability = map<string, Mutability>

  /** The field mutabilities of every known type. */
  type TypeMutability = map<string, FieldMutability>

  /** What a forced REPLACE lists in place of a field name. */
  const FORCED_FIELD := "(forced)"

  predicate IsImmutable(muts: FieldMutability, f: string) {
    f in muts && muts[f] == Immutable
  }

  function FieldsOf(mutability: TypeMutability, typ: string): FieldMutability {
    if typ in mutability then mutability[typ] else map[]
  }

  /** One node's planned change. `changedFields` is a sorted tuple in the source, hence a set here. */
  datatype Change = Change(
    nodeId: Id,
    action: Action,
    desired: Option<IRNode>,
    prior: Option<StateNode>,
    changedFields: set<string>,
    conditional: bool,
    createBeforeDestroy: bool,
    stateOnly: bool,
    upstreamMoved: set<string>)

  /** A change with every flag off. */
  function Plain(nodeId: Id, action: Action, desired: Option<IRNode>, prior: Option<StateNode>): Change {
    Change(nodeId, action, desired, prior, {}, false, false, false, {})
  }

  type ChangeSet = seq<Change>

  ghost predicate DistinctChanges(cs: ChangeSet) {
    forall i, j :: 0 <= i < j < |cs| ==> cs[i].nodeId != cs[j].nodeId
  }

  /** After such an action the provider knows the node under a new id. */
  predicate Reidentifies(a: Action) {
    a == Create || a == Replace
  }
}
