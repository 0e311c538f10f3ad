/** Property values as lowered IR and state hold them: JSON trees in which a `$ref` or `$transform`
 * marker is an ordinary object of a certain shape, never a separate kind of value.
 */
module Values {
  import opened Graphs

  datatype Option<+T> = None | Some(value: T)

  datatype Value =
    | Null
    | Bool(b: bool)
    | Int(i: int)
    | Str(s: string)
    | List(items: seq<Value>)
    | Obj(fields: map<string, Value>)

  type Properties = map<string, Value>

  const REF_KEY := "$ref"
  const TRANSFORM_KEY := "$transform"

  // ------------------------------------------------------------------ markers

  /** `s.partition(sep)[0]`: everything before the first `sep`, or all of `s`. */
  function Before(s: string, sep: char): string {
    if s == "" || s[0] == sep then "" else [s[0]] + Before(s[1..], sep)
  }

  /** `s.partition(sep)[2]`: what follows the first `sep`. */
  function After(s: string, sep: char): string {
    if s == "" then "" else if s[0] == sep then s[1..] else After(s[1..], sep)
  }

  /** A strict `{"$ref": "node_id#attr"}` marker. */
  predicate IsRefMarker(v: Value) {
    v.Obj? && v.fields.Keys == {REF_KEY} && v.fields[REF_KEY].Str? && '#' in v.fields[REF_KEY].s
  }

  function RefMarker(id: Id, attr: string): Value {
    Obj(map[REF_KEY := Str(id + "#" + attr)])
  }

  /** The node a strict or loose `$ref` points at. */
  function RefTarget(v: Value): Id
    requires IsLooseRef(v)
  {
    Before(v.fields[REF_KEY].s, '#')
  }

  function RefAttr(v: Value): string
    requires IsLooseRef(v)
  {
    After(v.fields[REF_KEY].s, '#')
  }

  /** Any object with a string under `$ref`, whatever else it holds: what the diff looks for. */
  predicate IsLooseRef(v: Value) {
    v.Obj? && REF_KEY in v.fields && v.fields[REF_KEY].Str?
  }

  /** A strict `{"$transform": {"op": ..., "args": ...}}` marker. */
  predicate IsTransformMarker(v: Value) {
    v.Obj? && v.fields.Keys == {TRANSFORM_KEY} && v.fields[TRANSFORM_KEY].Obj? &&
    "op" in v.fields[TRANSFORM_KEY].fields && "args" in v.fields[TRANSFORM_KEY].fields
  }

  /** Some object in the tree carries a `$ref` key. */
  predicate HasRefKey(v: Value) {
    match v
    case List(items) => exists x | x in items :: HasRefKey(x)
    case Obj(m) => REF_KEY in m || exists k | k in m :: HasRefKey(m[k])
    case _ => false
  }

  /** The node ids the diff attributes a value to. A matching object is not descended into. */
  function Targets(v: Value): set<Id> {
    if IsLooseRef(v) then {RefTarget(v)}
    else match v
      case List(items) => set i, t | 0 <= i < |items| && t in Targets(items[i]) :: t
      case Obj(m) => set k, t | k in m && t in Targets(m[k]) :: t
      case _ => {}
  }

  /** Under every `$ref` key stands a string. */
  predicate KeysHoldStrings(v: Value) {
    match v
    case List(items) => forall x | x in items :: KeysHoldStrings(x)
    case Obj(m) => (REF_KEY in m ==> m[REF_KEY].Str?) && forall k | k in m :: KeysHoldStrings(m[k])
    case _ => true
  }

  /** Where `$ref` keys hold strings, a value carries one exactly when the diff attributes it to some node. */
  lemma {:induction false} KeyedExactly(v: Value)
    requires KeysHoldStrings(v)
    ensures HasRefKey(v) <==> Targets(v) != {}
  {
    if !IsLooseRef(v) {
      match v
      case List(items) =>
        forall i | 0 <= i < |items| ensures HasRefKey(items[i]) <==> Targets(items[i]) != {} { KeyedExactly(items[i]); }
      case Obj(m) =>
        forall k | k in m ensures HasRefKey(m[k]) <==> Targets(m[k]) != {} { KeyedExactly(m[k]); }
      case _ =>
    }
  }

  // --------------------------------------------------------------- resolution

  type Outputs = map<Id, map<string, Value>>

  /** The pure reducers of deferred transforms; `None` where a reducer would raise. */
  type Ops = (string, seq<Value>) -> Option<Value>

  function Lookup(outputs: Outputs, id: Id, attr: string): Option<Value> {
    if id in outputs && attr in outputs[id] then Some(outputs[id][attr]) else None
  }

  function AllSome(m: map<string, Option<Value>>): Option<map<string, Value>> {
    if forall k | k in m :: m[k].Some? then Some(map k | k in m :: m[k].value) else None
  }

  /** A value with its markers replaced by live outputs; `None` where the strict form raises. */
  function Resolve(v: Value, outputs: Outputs, ops: Ops): Option<Value> {
    if IsTransformMarker(v) then
      var body := v.fields[TRANSFORM_KEY].fields;
      assert body["args"] < v.fields[TRANSFORM_KEY] < v;
      match body["args"]
      case List(items) =>
        var args := ResolveAll(items, outputs, ops);
        if args.Some? && body["op"].Str? then ops(body["op"].s, args.value) else None
      case Str(s) =>
        if body["op"].Str? then ops(body["op"].s, seq(|s|, i requires 0 <= i < |s| => Str([s[i]]))) else None
      case _ => None
    else if IsRefMarker(v) then Lookup(outputs, RefTarget(v), RefAttr(v))
    else match v
      case List(items) =>
        var all := ResolveAll(items, outputs, ops);
        if all.Some? then Some(List(all.value)) else None
      case Obj(m) =>
        var all := AllSome(map k | k in m :: Resolve(m[k], outputs, ops));
        if all.Some? then Some(Obj(all.value)) else None
      case _ => Some(v)
  }

  function ResolveAll(vs: seq<Value>, outputs: Outputs, ops: Ops): Option<seq<Value>> {
    if vs == [] then Some([])
    else
      var head := Resolve(vs[0], outputs, ops);
      var tail := ResolveAll(vs[1..], outputs, ops);
      if head.Some? && tail.Some? then Some([head.value] + tail.value) else None
  }

  /** Some marker in the tree is replaced on resolution. */
  predicate NeedsResolution(v: Value) {
    IsRefMarker(v) || IsTransformMarker(v) ||
    match v
    case List(items) => exists x | x in items :: NeedsResolution(x)
    case Obj(m) => exists k | k in m :: NeedsResolution(m[k])
    case _ => false
  }

  /** Skipping a value that needs no resolution loses nothing: it resolves to itself, whatever the outputs. */
  lemma {:induction false} NothingToResolve(v: Value, outputs: Outputs, ops: Ops)
    requires !NeedsResolution(v)
    ensures Resolve(v, outputs, ops) == Some(v) && Reads(v) == {}
  {
    match v
    case List(items) =>
      forall i | 0 <= i < |items| ensures Reads(items[i]) == {} { NothingToResolve(items[i], outputs, ops); }
      NothingToResolveAll(items, outputs, ops);
    case Obj(m) =>
      forall k | k in m ensures Resolve(m[k], outputs, ops) == Some(m[k]) && Reads(m[k]) == {} {
        NothingToResolve(m[k], outputs, ops);
      }
      var each := map k | k in m :: Resolve(m[k], outputs, ops);
      assert AllSome(each).value == m;
    case _ =>
  }

  lemma {:induction false} NothingToResolveAll(vs: seq<Value>, outputs: Outputs, ops: Ops)
    requires forall x :: x in vs ==> !NeedsResolution(x)
    ensures ResolveAll(vs, outputs, ops) == Some(vs)
  {
    if vs != [] {
      NothingToResolve(vs[0], outputs, ops);
      NothingToResolveAll(vs[1..], outputs, ops);
      assert vs == [vs[0]] + vs[1..];
    }
  }

  /** Without any output, and with transforms that all fail, what needs resolution is what does not resolve. */
  lemma {:induction false} NeedsResolutionExactly(v: Value, failing: Ops)
    requires forall op, args :: failing(op, args) == None
    ensures NeedsResolution(v) <==> Resolve(v, map[], failing).None?
  {
    if !IsTransformMarker(v) && !IsRefMarker(v) {
      match v
      case List(items) =>
        ItemsResolve(items, map[], failing);
        forall i | 0 <= i < |items| ensures NeedsResolution(items[i]) <==> Resolve(items[i], map[], failing).None? {
          NeedsResolutionExactly(items[i], failing);
        }
      case Obj(m) =>
        forall k | k in m ensures NeedsResolution(m[k]) <==> Resolve(m[k], map[], failing).None? {
          NeedsResolutionExactly(m[k], failing);
        }
        var each := map k | k in m :: Resolve(m[k], map[], failing);
        assert Resolve(v, map[], failing).None? <==> AllSome(each).None?;
        assert AllSome(each).None? <==> exists k :: k in m && each[k].None?;
      case _ =>
    }
  }

  /** The nodes whose outputs `Resolve` reads. */
  function Reads(v: Value): set<Id> {
    if IsTransformMarker(v) then
      var body := v.fields[TRANSFORM_KEY].fields;
      assert body["args"] < v.fields[TRANSFORM_KEY] < v;
      match body["args"]
      case List(items) => set i, t | 0 <= i < |items| && t in Reads(items[i]) :: t
      case _ => {}
    else if IsRefMarker(v) then {RefTarget(v)}
    else match v
      case List(items) => set i, t | 0 <= i < |items| && t in Reads(items[i]) :: t
      case Obj(m) => set k, t | k in m && t in Reads(m[k]) :: t
      case _ => {}
  }

  /** Whatever its keys hold, a value that refers to a node, for the diff or for resolution, carries one. */
  lemma {:induction false} ReferringHasKey(v: Value)
    ensures Targets(v) != {} || Reads(v) != {} ==> HasRefKey(v)
  {
    if IsTransformMarker(v) {
      var body := v.fields[TRANSFORM_KEY];
      assert body.fields["args"] < body < v;
      ReferringHasKey(body);
      if body.fields["args"].List? {
        forall i | 0 <= i < |body.fields["args"].items|
          ensures Reads(body.fields["args"].items[i]) != {} ==> HasRefKey(body.fields["args"].items[i])
        {
          ReferringHasKey(body.fields["args"].items[i]);
        }
        assert HasRefKey(body.fields["args"]) ==> HasRefKey(body) && HasRefKey(v);
      }
      assert HasRefKey(body) ==> HasRefKey(v);
    } else if !IsRefMarker(v) {
      match v
      case List(items) => forall i | 0 <= i < |items| { ReferringHasKey(items[i]); }
      case Obj(m) => forall k | k in m { ReferringHasKey(m[k]); }
      case _ =>
    }
  }

  // -------------------------------------------------- what resolution replaces by what

  /** A list resolves item by item. */
  lemma {:induction false} ItemsResolve(vs: seq<Value>, outputs: Outputs, ops: Ops)
    ensures ResolveAll(vs, outputs, ops).Some? <==> forall i :: 0 <= i < |vs| ==> Resolve(vs[i], outputs, ops).Some?
    ensures ResolveAll(vs, outputs, ops).Some? ==>
              |ResolveAll(vs, outputs, ops).value| == |vs| &&
              forall i :: 0 <= i < |vs| ==> Some(ResolveAll(vs, outputs, ops).value[i]) == Resolve(vs[i], outputs, ops)
  {
    hide Resolve;
    if vs != [] {
      ItemsResolve(vs[1..], outputs, ops);
      assert forall i :: 0 < i < |vs| ==> vs[i] == vs[1..][i - 1];
      assert forall i :: 0 <= i < |vs| - 1 ==> vs[1..][i] == vs[i + 1];
    }
  }

  /** A deferred transform applies its operation to its arguments, resolved and in their order. */
  lemma TransformApplies(op: string, args: seq<Value>, given: seq<Value>, outputs: Outputs, ops: Ops)
    requires |given| == |args| && forall i :: 0 <= i < |args| ==> Resolve(args[i], outputs, ops) == Some(given[i])
    ensures Resolve(Obj(map[TRANSFORM_KEY := Obj(map["op" := Str(op), "args" := List(args)])]), outputs, ops) == ops(op, given)
  {
    ItemsResolve(args, outputs, ops);
    assert ResolveAll(args, outputs, ops).value == given;
    assert IsTransformMarker(Obj(map[TRANSFORM_KEY := Obj(map["op" := Str(op), "args" := List(args)])]));
  }

  /** `$ref` occurs only as a strict marker. */
  predicate RefsStrict(v: Value) {
    (IsLooseRef(v) ==> IsRefMarker(v)) &&
    match v
    case List(items) => forall x | x in items :: RefsStrict(x)
    case Obj(m) => forall k | k in m :: RefsStrict(m[k])
    case _ => true
  }

  ghost predicate SameAt(o: Outputs, p: Outputs, id: Id) {
    (id in o <==> id in p) && (id in o ==> o[id] == p[id])
  }

  /** With strict markers the diff sees every node that resolution reads. */
  lemma {:induction false} StrictTargetsCoverReads(v: Value)
    requires RefsStrict(v)
    ensures Reads(v) <= Targets(v)
  {
    if IsTransformMarker(v) {
      var body := v.fields[TRANSFORM_KEY];
      assert RefsStrict(body) && !IsLooseRef(body);
      if body.fields["args"].List? {
        var args := body.fields["args"];
        assert RefsStrict(args);
        forall t | t in Reads(v) ensures t in Targets(v) {
          var i :| 0 <= i < |args.items| && t in Reads(args.items[i]);
          assert args.items[i] < args < body < v;
          StrictTargetsCoverReads(args.items[i]);
          assert t in Targets(args);
          assert t in Targets(body);
        }
      }
    } else if !IsRefMarker(v) {
      match v
      case List(items) =>
        forall i | 0 <= i < |items| ensures Reads(items[i]) <= Targets(items[i]) {
          StrictTargetsCoverReads(items[i]);
        }
      case Obj(m) =>
        forall k | k in m ensures Reads(m[k]) <= Targets(m[k]) { StrictTargetsCoverReads(m[k]); }
      case _ =>
    }
  }

  /** Resolution depends on nothing but the outputs it reads. */
  lemma {:induction false} ResolveFrame(v: Value, o: Outputs, p: Outputs, ops: Ops)
    requires forall id :: id in Reads(v) ==> SameAt(o, p, id)
    ensures Resolve(v, o, ops) == Resolve(v, p, ops)
  {
    if IsTransformMarker(v) {
      var body := v.fields[TRANSFORM_KEY].fields;
      assert body["args"] < v.fields[TRANSFORM_KEY] < v;
      if body["args"].List? { ResolveAllFrame(body["args"].items, o, p, ops); }
    } else if IsRefMarker(v) {
      assert RefTarget(v) in Reads(v);
    } else {
      match v
      case List(items) => ResolveAllFrame(items, o, p, ops);
      case Obj(m) =>
        forall k | k in m ensures Resolve(m[k], o, ops) == Resolve(m[k], p, ops) { ResolveFrame(m[k], o, p, ops); }
        assert (map k | k in m :: Resolve(m[k], o, ops)) == (map k | k in m :: Resolve(m[k], p, ops));
      case _ =>
    }
  }

  lemma {:induction false} ResolveAllFrame(vs: seq<Value>, o: Outputs, p: Outputs, ops: Ops)
    requires forall i, id :: 0 <= i < |vs| && id in Reads(vs[i]) ==> SameAt(o, p, id)
    ensures ResolveAll(vs, o, ops) == ResolveAll(vs, p, ops)
  {
    if vs != [] {
      ResolveFrame(vs[0], o, p, ops);
      ResolveAllFrame(vs[1..], o, p, ops);
    }
  }

  /** Every output `Resolve` reads is needed: without one of them it fails. */
  lemma {:induction false} AbsentReadFails(v: Value, o: Outputs, ops: Ops, t: Id)
    requires t in Reads(v) && (t in o ==> o[t] == map[])
    ensures Resolve(v, o, ops) == None
  {
    if IsTransformMarker(v) {
      var body := v.fields[TRANSFORM_KEY].fields;
      assert body["args"] < v.fields[TRANSFORM_KEY] < v;
      var i :| 0 <= i < |body["args"].items| && t in Reads(body["args"].items[i]);
      AbsentReadFailsAll(body["args"].items, o, ops, t, i);
    } else if !IsRefMarker(v) {
      match v
      case List(items) =>
        var i :| 0 <= i < |items| && t in Reads(items[i]);
        AbsentReadFailsAll(items, o, ops, t, i);
      case Obj(m) =>
        var k :| k in m && t in Reads(m[k]);
        AbsentReadFails(m[k], o, ops, t);
        assert (map f | f in m :: Resolve(m[f], o, ops))[k] == None;
      case _ =>
    }
  }

  lemma {:induction false} AbsentReadFailsAll(vs: seq<Value>, o: Outputs, ops: Ops, t: Id, i: nat)
    requires i < |vs| && t in Reads(vs[i]) && (t in o ==> o[t] == map[])
    ensures ResolveAll(vs, o, ops) == None
  {
    if i == 0 { AbsentReadFails(vs[0], o, ops, t); } else { AbsentReadFailsAll(vs[1..], o, ops, t, i - 1); }
  }

  ghost predicate AgreeOn(o: Outputs, p: Outputs, seen: set<Id>) {
    forall id :: id in seen ==> SameAt(o, p, id)
  }

  /** The value cannot move without one of the outputs in `seen` moving. */
  ghost predicate Determined(v: Value, o: Outputs, ops: Ops, seen: set<Id>) {
    forall p :: AgreeOn(o, p, seen) ==> Resolve(v, p, ops) == Resolve(v, o, ops)
  }

  /** Watching some nodes is enough exactly when resolution reads no other. */
  lemma DeterminedExactly(v: Value, o: Outputs, ops: Ops, seen: set<Id>)
    requires Resolve(v, o, ops).Some?
    ensures Determined(v, o, ops, seen) <==> Reads(v) <= seen
  {
    hide Reads, Resolve;
    if Reads(v) <= seen {
      forall p | AgreeOn(o, p, seen) ensures Resolve(v, p, ops) == Resolve(v, o, ops) { ResolveFrame(v, o, p, ops); }
    }
    if t :| t in Reads(v) && t !in seen {
      var p := o[t := map[]];
      assert AgreeOn(o, p, seen);
      AbsentReadFails(v, p, ops, t);
    }
  }

  /** So the targets the diff watches are enough exactly when they cover what resolution reads. */
  lemma TargetsSufficeExactly(v: Value, o: Outputs, ops: Ops)
    requires Resolve(v, o, ops).Some?
    ensures Determined(v, o, ops, Targets(v)) <==> Reads(v) <= Targets(v)
  {
    DeterminedExactly(v, o, ops, Targets(v));
  }

  /** A second key beside `$ref` hides the references under it from the diff, not from resolution. */
  lemma LooseRefHidesReads() returns (v: Value)
    ensures Targets(v) == {"x"} && "up" in Reads(v) && !(Reads(v) <= Targets(v))
    ensures forall ops :: Resolve(v, map["up" := map["id" := Int(1)]], ops) != Resolve(v, map["up" := map["id" := Int(2)]], ops)
  {
    var inner := RefMarker("up", "id");
    v := Obj(map[REF_KEY := Str("x"), "tag" := inner]);
    assert Before("x", '#') == "x" by { assert "x" == ['x'] + ""; }
    InnerMarker();
    assert "tag" in v.fields && v.fields["tag"] == inner;
    assert IsLooseRef(v) && !IsRefMarker(v);
    assert "up" in Reads(inner) && "up" in Reads(v);
    forall ops
      ensures Resolve(v, map["up" := map["id" := Int(1)]], ops) != Resolve(v, map["up" := map["id" := Int(2)]], ops)
    {
      var o, p := map["up" := map["id" := Int(1)]], map["up" := map["id" := Int(2)]];
      assert Resolve(inner, o, ops) == Some(Int(1)) && Resolve(inner, p, ops) == Some(Int(2));
      assert Resolve(v.fields[REF_KEY], o, ops) == Some(Str("x")) == Resolve(v.fields[REF_KEY], p, ops);
      assert Resolve(v, o, ops).value.fields["tag"] == Int(1);
      assert Resolve(v, p, ops).value.fields["tag"] == Int(2);
    }
  }

  lemma InnerMarker()
    ensures IsRefMarker(RefMarker("up", "id"))
    ensures RefTarget(RefMarker("up", "id")) == "up" && RefAttr(RefMarker("up", "id")) == "id"
  {
    SplitHash("up", "id");
  }

  /** Splitting at the first separator undoes a joining whose front has none. */
  lemma {:induction false} SplitAt(front: string, sep: char, rest: string)
    requires sep !in front
    ensures Before(front + [sep] + rest, sep) == front && After(front + [sep] + rest, sep) == rest
    ensures sep in front + [sep] + rest
  {
    var s := front + [sep] + rest;
    if front != "" {
      SplitAt(front[1..], sep, rest);
      assert s[1..] == front[1..] + [sep] + rest;
    }
    assert s[|front|] == sep;
  }

  /** A marker's two halves are the id and the attribute it was made of. */
  lemma SplitHash(id: string, attr: string)
    requires '#' !in id
    ensures Before(id + "#" + attr, '#') == id && After(id + "#" + attr, '#') == attr
    ensures '#' in id + "#" + attr
  {
    SplitAt(id, '#', attr);
  }
}
