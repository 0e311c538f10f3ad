/** The bounded walk that charges a native call for the values it will traverse. */
module Costs {

  type Ref = nat

  /** An object: what a walk counts, and the references it follows. */
  datatype Object =
    | Dict(keys: seq<Ref>, values: seq<Ref>)
    | Container(items: seq<Ref>)
    | Text(length: nat)
    | Other(size: nat)

  /** Objects by identity; values may share parts, and lists and dicts may contain themselves. */
  type Heap = map<Ref, Object>

  function Children(o: Object): seq<Ref> {
    match o
    case Dict(keys, values) => keys + values
    case Container(items) => items
    case _ => []
  }

  ghost predicate Closed(h: Heap) {
    forall r, c :: r in h && c in Children(h[r]) ==> c in h
  }

  predicate Nested(o: Object) {
    o.Dict? || o.Container?
  }

  /** What visiting one object charges, its parts aside. */
  function Own(o: Object): nat {
    match o
    case Dict(keys, _) => 1 + |keys|
    case Container(items) => 1 + |items|
    case Text(length) => 1 + length / 64
    case Other(size) => 1 + size
  }

  // ------------------------------------------------- the cost a full walk would have

  /** Followed reference by reference, the value is at most `depth` deep. */
  ghost predicate Within(h: Heap, r: Ref, depth: nat)
    requires Closed(h) && r in h
    decreases depth
  {
    Children(h[r]) == [] || (depth > 0 && forall c :: c in Children(h[r]) ==> Within(h, c, depth - 1))
  }

  /** Every reference counted, a shared part once for each reference to it, down to `depth`. */
  ghost function WalkCost(h: Heap, r: Ref, depth: nat): nat
    requires Closed(h) && r in h
    decreases depth, 1, 0
  {
    Own(h[r]) + if depth == 0 then 0 else SumCost(h, Children(h[r]), depth - 1)
  }

  ghost function SumCost(h: Heap, rs: seq<Ref>, depth: nat): nat
    requires Closed(h) && forall r :: r in rs ==> r in h
    decreases depth, 2, |rs|
  {
    if rs == [] then 0 else WalkCost(h, rs[0], depth) + SumCost(h, rs[1..], depth)
  }

  /** The full walk of the value is finite and costs `c`. A top-level leaf costs its whole length. */
  ghost predicate HasCost(h: Heap, r: Ref, c: nat)
    requires Closed(h) && r in h
  {
    match h[r]
    case Text(length) => c == 1 + length
    case Other(size) => c == 1 + size
    case _ => exists depth: nat :: Within(h, r, depth) && c == WalkCost(h, r, depth)
  }

  /** The full walk costs more than `bound`, or never ends. */
  ghost predicate CostsMoreThan(h: Heap, r: Ref, bound: int)
    requires Closed(h) && r in h
  {
    forall c: nat :: HasCost(h, r, c) ==> c > bound
  }

  lemma {:induction false} DeeperIsTheSame(h: Heap, r: Ref, d: nat, e: nat)
    requires Closed(h) && r in h && Within(h, r, d) && d <= e
    ensures Within(h, r, e) && WalkCost(h, r, e) == WalkCost(h, r, d)
    decreases d, 1, 0
  {
    var children := Children(h[r]);
    if children != [] {
      forall c | c in children ensures Within(h, c, e - 1) { DeeperIsTheSame(h, c, d - 1, e - 1); }
      DeeperSum(h, children, d - 1, e - 1);
    }
  }

  lemma {:induction false} DeeperSum(h: Heap, rs: seq<Ref>, d: nat, e: nat)
    requires Closed(h) && d <= e && (forall r :: r in rs ==> r in h && Within(h, r, d))
    ensures SumCost(h, rs, e) == SumCost(h, rs, d)
    decreases d, 2, |rs|
  {
    if rs != [] {
      DeeperIsTheSame(h, rs[0], d, e);
      DeeperSum(h, rs[1..], d, e);
    }
  }

  /** A value has at most one cost. */
  lemma CostIsUnique(h: Heap, r: Ref, a: nat, b: nat)
    requires Closed(h) && r in h && HasCost(h, r, a) && HasCost(h, r, b)
    ensures a == b
  {
    hide WalkCost, Within;
    if Nested(h[r]) {
      var d: nat :| Within(h, r, d) && a == WalkCost(h, r, d);
      var e: nat :| Within(h, r, e) && b == WalkCost(h, r, e);
      if d <= e { DeeperIsTheSame(h, r, d, e); } else { DeeperIsTheSame(h, r, e, d); }
    }
  }

  lemma {:induction false} SumSplits(h: Heap, a: seq<Ref>, b: seq<Ref>, d: nat)
    requires Closed(h) && (forall r :: r in a ==> r in h) && (forall r :: r in b ==> r in h)
    ensures forall r :: r in a + b ==> r in h
    ensures SumCost(h, a + b, d) == SumCost(h, a, d) + SumCost(h, b, d)
  {
    hide WalkCost;
    if a == [] {
      assert a + b == b;
    } else {
      SumSplits(h, a[1..], b, d);
      assert (a + b)[1..] == a[1..] + b;
    }
  }

  // ------------------------------------------- what a full walk charges, part by part

  function Sum(ks: seq<nat>): nat {
    if ks == [] then 0 else ks[0] + Sum(ks[1..])
  }

  /** What a part of a value costs: a string one more for every 64 characters begun, and nested values their own cost. */
  ghost predicate PartCost(h: Heap, r: Ref, k: nat)
    requires Closed(h) && r in h
  {
    match h[r]
    case Text(length) => 64 * (k - 1) <= length < 64 * k
    case Other(size) => k == 1 + size
    case _ => HasCost(h, r, k)
  }

  ghost predicate PartCosts(h: Heap, rs: seq<Ref>, ks: seq<nat>)
    requires Closed(h) && forall r :: r in rs ==> r in h
  {
    |ks| == |rs| && forall i :: 0 <= i < |rs| ==> PartCost(h, rs[i], ks[i])
  }

  ghost predicate WalksTo(h: Heap, rs: seq<Ref>, ks: seq<nat>, depth: nat)
    requires Closed(h) && forall r :: r in rs ==> r in h
  {
    |ks| == |rs| && forall i :: 0 <= i < |rs| ==> Within(h, rs[i], depth) && WalkCost(h, rs[i], depth) == ks[i]
  }

  lemma PartWalks(h: Heap, r: Ref, depth: nat)
    requires Closed(h) && r in h && Within(h, r, depth)
    ensures PartCost(h, r, WalkCost(h, r, depth))
  {}

  lemma PartHasDepth(h: Heap, r: Ref, k: nat) returns (depth: nat)
    requires Closed(h) && r in h && PartCost(h, r, k)
    ensures Within(h, r, depth) && WalkCost(h, r, depth) == k
  {
    if Nested(h[r]) { depth :| Within(h, r, depth) && k == WalkCost(h, r, depth); } else { depth := 0; }
  }

  lemma {:induction false} SumWalks(h: Heap, rs: seq<Ref>, ks: seq<nat>, depth: nat)
    requires Closed(h) && (forall r :: r in rs ==> r in h) && WalksTo(h, rs, ks, depth)
    ensures SumCost(h, rs, depth) == Sum(ks)
    decreases |rs|
  {
    hide Within, WalkCost;
    if rs != [] { SumWalks(h, rs[1..], ks[1..], depth); }
  }

  lemma {:induction false} CommonDepth(h: Heap, rs: seq<Ref>, ks: seq<nat>) returns (depth: nat)
    requires Closed(h) && (forall r :: r in rs ==> r in h) && PartCosts(h, rs, ks)
    ensures WalksTo(h, rs, ks, depth)
    decreases |rs|
  {
    hide Within, WalkCost, PartCost;
    depth := 0;
    if rs != [] {
      assert PartCosts(h, rs[1..], ks[1..]) by {
        forall i | 0 <= i < |rs[1..]| ensures PartCost(h, rs[1..][i], ks[1..][i]) { assert rs[1..][i] == rs[i + 1]; }
      }
      var first := PartHasDepth(h, rs[0], ks[0]);
      var rest := CommonDepth(h, rs[1..], ks[1..]);
      depth := if first < rest then rest else first;
      DeeperIsTheSame(h, rs[0], first, depth);
      forall i | 0 <= i < |rs| ensures Within(h, rs[i], depth) && WalkCost(h, rs[i], depth) == ks[i] {
        if i > 0 {
          assert rs[1..][i - 1] == rs[i];
          DeeperIsTheSame(h, rs[i], rest, depth);
        }
      }
    }
  }

  /** Main result on the charge: a full walk of a dict costs one for it, one for each key, and what its keys and values
   * cost; of another container one for it, one for each item, and what its items cost.
   */
  lemma CostExactly(h: Heap, r: Ref, c: nat)
    requires Closed(h) && r in h && (h[r].Dict? || h[r].Container?)
    ensures var parts := if h[r].Dict? then h[r].keys + h[r].values else h[r].items;
            && (forall p :: p in parts ==> p in h)
            && (HasCost(h, r, c) <==>
                exists ks :: PartCosts(h, parts, ks) && c == 1 + (if h[r].Dict? then |h[r].keys| else |h[r].items|) + Sum(ks))
  {
    hide WalkCost, Within, PartCost;
    var parts := Children(h[r]);
    if HasCost(h, r, c) {
      var depth: nat :| Within(h, r, depth) && c == WalkCost(h, r, depth);
      Unfolds(h, r, depth);
      var ks := seq(|parts|, i requires 0 <= i < |parts| => WalkCost(h, parts[i], depth));
      SumWalks(h, parts, ks, depth);
      forall i | 0 <= i < |parts| ensures PartCost(h, parts[i], ks[i]) { PartWalks(h, parts[i], depth); }
      assert PartCosts(h, parts, ks);
    }
    if ks :| PartCosts(h, parts, ks) && c == 1 + (if h[r].Dict? then |h[r].keys| else |h[r].items|) + Sum(ks) {
      var depth := CommonDepth(h, parts, ks);
      SumWalks(h, parts, ks, depth);
      Folds(h, r, depth);
    }
  }

  lemma Unfolds(h: Heap, r: Ref, depth: nat)
    requires Closed(h) && r in h && Within(h, r, depth)
    ensures WalkCost(h, r, depth) == Own(h[r]) + SumCost(h, Children(h[r]), depth)
    ensures forall p :: p in Children(h[r]) ==> Within(h, p, depth)
  {
    if Children(h[r]) != [] {
      forall p | p in Children(h[r]) ensures Within(h, p, depth) { DeeperIsTheSame(h, p, depth - 1, depth); }
      DeeperSum(h, Children(h[r]), depth - 1, depth);
    }
  }

  lemma Folds(h: Heap, r: Ref, depth: nat)
    requires Closed(h) && r in h && forall p :: p in Children(h[r]) ==> Within(h, p, depth)
    ensures Within(h, r, depth + 1) && WalkCost(h, r, depth + 1) == Own(h[r]) + SumCost(h, Children(h[r]), depth)
  {}

  // ------------------------------------------------------------------ the bounded walk

  /** The stack after its top was visited. */
  function Popped(h: Heap, stack: seq<Ref>): seq<Ref>
    requires stack != [] && stack[|stack| - 1] in h
  {
    stack[..|stack| - 1] + Children(h[stack[|stack| - 1]])
  }

  /** What the loop keeps against every depth the root may be within. */
  ghost predicate Accounts(h: Heap, root: Ref, stack: seq<Ref>, total: nat, depth: nat)
    requires Closed(h) && root in h && forall r :: r in stack ==> r in h
  {
    (forall r :: r in stack ==> Within(h, r, depth)) && total + SumCost(h, stack, depth) == WalkCost(h, root, depth)
  }

  lemma AccountsStart(h: Heap, root: Ref, depth: nat)
    requires Closed(h) && root in h && Within(h, root, depth)
    ensures Accounts(h, root, [root], 0, depth)
  {
    assert SumCost(h, [root], depth) == WalkCost(h, root, depth) + SumCost(h, [], depth);
  }

  lemma AccountsStep(h: Heap, root: Ref, stack: seq<Ref>, total: nat, depth: nat)
    requires Closed(h) && root in h && stack != [] && (forall r :: r in stack ==> r in h)
    requires Accounts(h, root, stack, total, depth)
    ensures forall r :: r in Popped(h, stack) ==> r in h
    ensures Accounts(h, root, Popped(h, stack), total + Own(h[stack[|stack| - 1]]), depth)
  {
    hide WalkCost, Within;
    var top, rest := stack[|stack| - 1], stack[..|stack| - 1];
    assert stack == rest + [top] && top in stack;
    SumSplits(h, rest, [top], depth);
    TopUnfolds(h, top, depth);
    SumSplits(h, rest, Children(h[top]), depth);
  }

  lemma TopUnfolds(h: Heap, top: Ref, depth: nat)
    requires Closed(h) && top in h && Within(h, top, depth)
    ensures SumCost(h, [top], depth) == Own(h[top]) + SumCost(h, Children(h[top]), depth)
    ensures forall c :: c in Children(h[top]) ==> Within(h, c, depth)
  {
    Unfolds(h, top, depth);
    assert SumCost(h, [top], depth) == WalkCost(h, top, depth) + SumCost(h, [], depth);
  }

  /** The stacks of the walk, one pop after another. */
  ghost predicate IsTrace(h: Heap, trace: seq<seq<Ref>>) {
    && trace != []
    && (forall i, r :: 0 <= i < |trace| && r in trace[i] ==> r in h)
    && (forall i :: 0 <= i < |trace| - 1 ==> trace[i] != [] && trace[i + 1] == Popped(h, trace[i]))
  }

  /** A walk that empties its stack shows how deep everything on it was. */
  lemma {:induction false} EmptiedIsFinite(h: Heap, trace: seq<seq<Ref>>, i: nat)
    requires Closed(h) && IsTrace(h, trace) && i < |trace| && trace[|trace| - 1] == []
    ensures forall r :: r in trace[i] ==> r in h && Within(h, r, |trace| - 1 - i)
    decreases |trace| - i
  {
    if i < |trace| - 1 {
      EmptiedIsFinite(h, trace, i + 1);
      var stack, n := trace[i], |trace| - 1 - i;
      var top, rest := stack[|stack| - 1], stack[..|stack| - 1];
      assert stack == rest + [top] && trace[i + 1] == rest + Children(h[top]);
      forall r | r in stack ensures r in h && Within(h, r, n) {
        if r in rest {
          assert r in trace[i + 1];
          DeeperIsTheSame(h, r, n - 1, n);
        } else {
          forall c | c in Children(h[top]) ensures Within(h, c, n - 1) { assert c in trace[i + 1]; }
        }
      }
    }
  }

  lemma TraceGrows(h: Heap, trace: seq<seq<Ref>>)
    requires Closed(h) && IsTrace(h, trace) && trace[|trace| - 1] != []
    ensures IsTrace(h, trace + [Popped(h, trace[|trace| - 1])])
  {
    var last := trace[|trace| - 1];
    var more := trace + [Popped(h, last)];
    assert last[|last| - 1] in last;
    forall r | r in Popped(h, last) ensures r in h {
      if r in last[..|last| - 1] { assert r in last; }
    }
    forall i, r | 0 <= i < |more| && r in more[i] ensures r in h { if i < |trace| { assert more[i] == trace[i]; } }
  }

  /** Nodes a native walk visits, stopping once past `limit`: exact up to the limit, beyond it otherwise, in at most
   * one iteration more than the limit even over shared or cyclic values. */
  method DeepCost(h: Heap, value: Ref, limit: int) returns (total: nat, ghost steps: nat)
    requires Closed(h) && value in h
    ensures total <= limit ==> HasCost(h, value, total)
    ensures total > limit ==> CostsMoreThan(h, value, limit)
    ensures steps <= total && steps <= (if limit < 0 then 0 else limit) + 1
  {
    hide Within, WalkCost, SumCost, Accounts, IsTrace;
    steps := 0;
    match h[value] {
      case Text(length) => return 1 + length, 0;
      case Other(size) => return 1 + size, 0;
      case _ =>
    }
    total := 0;
    var stack := [value];
    ghost var trace := [[value]];
    forall depth: nat | Within(h, value, depth) ensures Accounts(h, value, stack, total, depth) { AccountsStart(h, value, depth); }
    TraceStarts(h, value);
    while stack != []
      invariant forall r :: r in stack ==> r in h
      invariant IsTrace(h, trace) && trace != [] && trace[|trace| - 1] == stack && trace[0] == [value]
      invariant forall depth: nat :: Within(h, value, depth) ==> Accounts(h, value, stack, total, depth)
      invariant steps <= total && (total == 0 || total <= limit)
      decreases limit - total
    {
      var item := stack[|stack| - 1];
      assert item in stack;
      ghost var before, charged := stack, total;
      steps := steps + 1;
      total := total + Own(h[item]);
      stack := Popped(h, stack);
      TraceGrows(h, trace);
      trace := trace + [stack];
      TraceHas(h, trace);
      forall depth: nat | Within(h, value, depth) ensures Accounts(h, value, stack, total, depth) {
        AccountsStep(h, value, before, charged, depth);
      }
      if total > limit {
        PastTheLimit(h, value, stack, total, limit);
        return;
      }
    }
    EmptiedCost(h, value, trace, total, limit);
  }

  lemma TraceStarts(h: Heap, value: Ref)
    requires value in h
    ensures IsTrace(h, [[value]])
  {}

  lemma TraceHas(h: Heap, trace: seq<seq<Ref>>)
    requires IsTrace(h, trace)
    ensures forall r :: r in trace[|trace| - 1] ==> r in h
  {}

  lemma PastTheLimit(h: Heap, value: Ref, stack: seq<Ref>, total: nat, limit: int)
    requires Closed(h) && value in h && Nested(h[value]) && (forall r :: r in stack ==> r in h) && total > limit
    requires forall depth: nat :: Within(h, value, depth) ==> Accounts(h, value, stack, total, depth)
    ensures CostsMoreThan(h, value, limit)
  {
    hide Within, WalkCost, SumCost;
    forall c: nat | HasCost(h, value, c) ensures c > limit {
      var depth: nat :| Within(h, value, depth) && c == WalkCost(h, value, depth);
      assert Accounts(h, value, stack, total, depth);
    }
  }

  lemma EmptiedCost(h: Heap, value: Ref, trace: seq<seq<Ref>>, total: nat, limit: int)
    requires Closed(h) && value in h && Nested(h[value]) && IsTrace(h, trace) && trace[0] == [value] && trace[|trace| - 1] == []
    requires forall depth: nat :: Within(h, value, depth) ==> Accounts(h, value, [], total, depth)
    ensures HasCost(h, value, total) && (total > limit ==> CostsMoreThan(h, value, limit))
  {
    hide Within, WalkCost;
    EmptiedIsFinite(h, trace, 0);
    assert value in trace[0];
    assert Accounts(h, value, [], total, |trace| - 1);
    forall c: nat | HasCost(h, value, c) ensures c == total { CostIsUnique(h, value, c, total); }
  }

  function Min(a: nat, b: nat): nat {
    if a < b then a else b
  }

  /** `c` is the smaller of the two full costs, whichever of them are finite. */
  ghost predicate IsSmaller(h: Heap, left: Ref, right: Ref, c: nat)
    requires Closed(h) && left in h && right in h
  {
    && (HasCost(h, left, c) || HasCost(h, right, c))
    && CostsMoreThan(h, left, c - 1) && CostsMoreThan(h, right, c - 1)
  }

  /** A computed cost stands for the full one as far as the bound it was computed to. */
  lemma KnownBeyond(h: Heap, r: Ref, cost: nat, reach: nat, least: nat)
    requires Closed(h) && r in h && least <= cost
    requires (cost <= reach ==> HasCost(h, r, cost)) && (cost > reach ==> CostsMoreThan(h, r, reach))
    ensures cost <= reach || least <= reach + 1 ==> CostsMoreThan(h, r, least - 1)
  {
    hide HasCost;
    forall c: nat | HasCost(h, r, c) && cost <= reach ensures c == cost { CostIsUnique(h, r, c, cost); }
  }

  /** Both sides are walked to a bound that doubles until one of them ends within it. */
  method SmallerDeepCost(h: Heap, left: Ref, right: Ref, limit: int) returns (r: nat, ghost bound: nat, ghost work: nat)
    requires Closed(h) && left in h && right in h
    ensures r <= limit ==> IsSmaller(h, left, right, r)
    ensures r > limit ==> CostsMoreThan(h, left, limit) && CostsMoreThan(h, right, limit)
    ensures work <= 5 * bound
    ensures bound == 64 || (bound <= 2 * limit && bound < 2 * r)
  {
    hide HasCost, CostsMoreThan;
    var reach: nat := 64;
    work := 0;
    while true
      invariant reach >= 64 && reach % 2 == 0 && work <= 3 * reach - 2
      invariant reach == 64 || (reach <= 2 * limit && CostsMoreThan(h, left, reach / 2) && CostsMoreThan(h, right, reach / 2))
      decreases 2 * limit + 128 - reach
    {
      bound := reach;
      var leftCost, leftSteps := DeepCost(h, left, reach);
      var rightCost, rightSteps := DeepCost(h, right, reach);
      work := work + leftSteps + rightSteps;
      if leftCost <= reach || rightCost <= reach || reach > limit {
        r := Min(leftCost, rightCost);
        SmallerFound(h, left, right, leftCost, rightCost, reach, limit);
        return;
      }
      reach := reach * 2;
    }
  }

  /** Why the walk may stop once one side completed, or the bound passed the limit. */
  lemma SmallerFound(h: Heap, left: Ref, right: Ref, leftCost: nat, rightCost: nat, reach: nat, limit: int)
    requires Closed(h) && left in h && right in h
    requires (leftCost <= reach ==> HasCost(h, left, leftCost)) && (leftCost > reach ==> CostsMoreThan(h, left, reach))
    requires (rightCost <= reach ==> HasCost(h, right, rightCost)) && (rightCost > reach ==> CostsMoreThan(h, right, reach))
    requires leftCost <= reach || rightCost <= reach || reach > limit
    ensures var r := Min(leftCost, rightCost);
            && (r <= limit ==> IsSmaller(h, left, right, r))
            && (r > limit ==> CostsMoreThan(h, left, limit) && CostsMoreThan(h, right, limit))
    ensures forall b: nat :: CostsMoreThan(h, left, b) && CostsMoreThan(h, right, b) && b <= reach ==> Min(leftCost, rightCost) > b
  {
    hide HasCost;
    var r := Min(leftCost, rightCost);
    KnownBeyond(h, left, leftCost, reach, r);
    KnownBeyond(h, right, rightCost, reach, r);
  }
}
