/** Rewriting the node ids inside a property tree, and what it leaves unchanged. */
module Renaming {
  import opened Graphs
  import opened Values

  type Remap = map<Id, Id>

  /** `remap.get(id, id)`. */
  function Renamed(remap: Remap, id: Id): Id {
    if id in remap then remap[id] else id
  }

  /** Every strict reference with its target rewritten, inside transforms too. */
  function RemapRefs(v: Value, remap: Remap): Value {
    if IsRefMarker(v) then
      if RefTarget(v) in remap then RefMarker(remap[RefTarget(v)], RefAttr(v)) else v
    else match v
      case List(items) => List(seq(|items|, i requires 0 <= i < |items| => RemapRefs(items[i], remap)))
      case Obj(m) => Obj(map k | k in m :: RemapRefs(m[k], remap))
      case _ => v
  }

  /** No new id holds the `#` that ends an id inside a marker. */
  ghost predicate CleanIds(remap: Remap) {
    forall k :: k in remap ==> '#' !in remap[k]
  }

  lemma RemapMarker(v: Value, remap: Remap)
    requires IsRefMarker(v) && CleanIds(remap)
    ensures IsRefMarker(RemapRefs(v, remap))
    ensures RefTarget(RemapRefs(v, remap)) == Renamed(remap, RefTarget(v))
    ensures RefAttr(RemapRefs(v, remap)) == RefAttr(v)
  {
    if RefTarget(v) in remap { SplitHash(remap[RefTarget(v)], RefAttr(v)); }
  }

  /** Rewriting neither makes nor breaks a marker. */
  lemma RemapKeepsShape(v: Value, remap: Remap)
    requires CleanIds(remap)
    ensures IsRefMarker(RemapRefs(v, remap)) <==> IsRefMarker(v)
    ensures IsTransformMarker(RemapRefs(v, remap)) <==> IsTransformMarker(v)
    ensures IsTransformMarker(v) ==>
              var before, after := v.fields[TRANSFORM_KEY].fields, RemapRefs(v, remap).fields[TRANSFORM_KEY].fields;
              after["op"] == RemapRefs(before["op"], remap) && after["args"] == RemapRefs(before["args"], remap)
  {
    if IsRefMarker(v) {
      RemapMarker(v, remap);
      assert REF_KEY in v.fields && TRANSFORM_KEY !in v.fields;
    } else if v.Obj? {
      assert RemapRefs(v, remap).fields.Keys == v.fields.Keys;
    }
  }

  /** The outputs `p` are `o` under the new names, as far as `v` reads them. */
  ghost predicate SameUnder(remap: Remap, o: Outputs, p: Outputs, ids: set<Id>) {
    forall id :: id in ids ==>
      (id in o <==> Renamed(remap, id) in p) && (id in o ==> o[id] == p[Renamed(remap, id)])
  }

  /** Main result: a renamed tree resolves, against the renamed outputs, to what it resolved to before. */
  lemma {:induction false} RenamingPreservesMeaning(v: Value, remap: Remap, o: Outputs, p: Outputs, ops: Ops)
    requires CleanIds(remap) && SameUnder(remap, o, p, Reads(v))
    ensures Resolve(RemapRefs(v, remap), p, ops) == Resolve(v, o, ops)
    decreases v, 1
  {
    RemapKeepsShape(v, remap);
    if IsTransformMarker(v) {
      RenamedTransform(v, remap, o, p, ops);
    } else if IsRefMarker(v) {
      RemapMarker(v, remap);
      assert RefTarget(v) in Reads(v);
    } else {
      match v
      case List(items) =>
        RenamedAll(items, remap, o, p, ops);
        assert RemapRefs(v, remap) == List(RemapEach(items, remap));
      case Obj(_) => RenamedObj(v, remap, o, p, ops);
      case _ =>
    }
  }

  lemma {:induction false} RenamedObj(v: Value, remap: Remap, o: Outputs, p: Outputs, ops: Ops)
    requires CleanIds(remap) && SameUnder(remap, o, p, Reads(v)) && v.Obj? && !IsRefMarker(v) && !IsTransformMarker(v)
    ensures Resolve(RemapRefs(v, remap), p, ops) == Resolve(v, o, ops)
    decreases v, 0
  {
    RemapKeepsShape(v, remap);
    var m, m' := v.fields, RemapRefs(v, remap).fields;
    forall k | k in m ensures Resolve(m'[k], p, ops) == Resolve(m[k], o, ops) {
      forall id | id in Reads(m[k]) ensures id in Reads(v) {}
      RenamingPreservesMeaning(m[k], remap, o, p, ops);
    }
    assert (map k | k in m' :: Resolve(m'[k], p, ops)) == (map k | k in m :: Resolve(m[k], o, ops));
  }

  lemma {:induction false} RenamedTransform(v: Value, remap: Remap, o: Outputs, p: Outputs, ops: Ops)
    requires CleanIds(remap) && SameUnder(remap, o, p, Reads(v)) && IsTransformMarker(v)
    ensures Resolve(RemapRefs(v, remap), p, ops) == Resolve(v, o, ops)
    decreases v, 0
  {
    hide SameUnder;
    RemapKeepsShape(v, remap);
    var body := v.fields[TRANSFORM_KEY].fields;
    assert body["args"] < v.fields[TRANSFORM_KEY] < v;
    if body["args"].List? {
      var items := body["args"].items;
      forall i | 0 <= i < |items| ensures SameUnder(remap, o, p, Reads(items[i])) { ReadByTransform(v, remap, o, p, i); }
      RenamedAll(items, remap, o, p, ops);
      assert RemapRefs(body["args"], remap) == List(RemapEach(items, remap));
    }
  }

  lemma ReadByTransform(v: Value, remap: Remap, o: Outputs, p: Outputs, i: nat)
    requires IsTransformMarker(v) && SameUnder(remap, o, p, Reads(v))
    requires var args := v.fields[TRANSFORM_KEY].fields["args"]; args.List? && i < |args.items|
    ensures SameUnder(remap, o, p, Reads(v.fields[TRANSFORM_KEY].fields["args"].items[i]))
  {
    var args := v.fields[TRANSFORM_KEY].fields["args"];
    forall id | id in Reads(args.items[i]) ensures id in Reads(v) {}
  }

  function RemapEach(vs: seq<Value>, remap: Remap): seq<Value> {
    seq(|vs|, i requires 0 <= i < |vs| => RemapRefs(vs[i], remap))
  }

  lemma {:induction false} RenamedAll(vs: seq<Value>, remap: Remap, o: Outputs, p: Outputs, ops: Ops)
    requires CleanIds(remap) && forall i :: 0 <= i < |vs| ==> SameUnder(remap, o, p, Reads(vs[i]))
    ensures ResolveAll(RemapEach(vs, remap), p, ops) == ResolveAll(vs, o, ops)
    decreases vs, 0
  {
    if vs != [] {
      RenamingPreservesMeaning(vs[0], remap, o, p, ops);
      RenamedAll(vs[1..], remap, o, p, ops);
      assert RemapEach(vs, remap)[1..] == RemapEach(vs[1..], remap);
    }
  }
}
