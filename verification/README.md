# Atlantide's planning pipeline and lock protocol, in Dafny

Atlantide compiles a config to a graph of resources, compares it with the rows of a state store, and applies the
difference under a lease. This project models the two halves that carry its guarantees and proves them.

**Planning.** `GraphBuild` (with `TarjanSteps` and `TarjanSearch`) builds the dependency graph and rejects cycles;
`Order` lists it; `Merkle` hashes it over the encoding of `Canonical`, which `Shortest` pins down; `Inline` removes
in-config cross-stack references beforehand, and `InlineMeaning` says that it changes no value. `Aliases`,
`Migration` and `Renaming` carry stored rows over a rename (`MigrationMeaning` row by row and edge by edge).
`Classify`, `Staleness` and `Diffing` turn config and rows into one change per node; `Cbd` and `Ordering` decide
what is created first and what becomes unconditional; `Guards` and `Planner` restrict, guard, audit and settle the
result. `PlanSafety`, `Convergence`, `PureRename`, `Remigration`, `HashMeaning`, `HashExact` and `SecondLook` hold
the statements about whole plans; `DiffMeaning` and `PlanMeaning` say what a diff and a plan contain in terms of
their inputs alone; `Promotion` has the plans that surprise.

**Running.** `Store` is the reference store with its fencing, `StoreRuns` every run of competing owners over it.
`Gate` is the readers-writer gate over every schedule of its threads; `Session` puts a run's event loop, its pool
threads, its lease renewals and other owners together. `LeaseGuards` is the local check, `Schedule` the DAG
scheduler, and `Costs` the bounded cost walk of the config interpreter.

Code that updates state step by step is a method or class proved against a specification; code made of expressions
is functions and lemmas. A method's `hide` clauses only narrow what the solver looks at.

## Assumptions

- SHA-256 is injective: a digest is its payload (`Ir.Hash`), and the mark on a drifted row is a value no digest equals.
- Node ids are unique within a config; rows are keyed by their own id; lowering lists a dependency once.
- Property values are null, bool, int, string, list and object with structural equality. Statements that compare the
  diff with resolution require of a value that its targets cover what resolution reads, which is what they need
  (`Values.TargetsSufficeExactly`); it is so wherever `$ref` occurs only as a strict marker.
- Times are real numbers on the store's clock and a parameter of each call. Providers, transform reducers, recorded
  digests and secret comparisons are parameters.
- A renewal does not fail after it committed, and recording a lease does not fail while the run lasts (`Session`).

## Where the code and its documentation differ

The model follows the code, and says exactly when it meets the promise.

- "An unchanged hash means the resolved inputs are unchanged": under every provider and every transform, where ignored
  fields hold no reference, exactly when no ignored field at or below the node holds a different value
  (`HashExact.UnchangedMeansExactly`). Where they do hold references that condition suffices
  (`HashMeaning.SameHashSameInputs`).
- Edits to ignored fields do move a digest when they move a reference to a node with another digest
  (`Merkle.IgnoredEditsExactly`).
- Recreation reaches every dependent exactly when the second look promotes no UPDATE above a NOOP
  (`SecondLook.RecreationReachesExactly`; `Promotion.NoopBehindPromotedReplace` is a plan that fails it).
- A node under `--replace` is replaced exactly unless its own planned REPLACE is taken back
  (`SecondLook.ForcedIsReplaced`; `Promotion.ForcedNodeMerelyUpdated` is such a diff).
- A moved value is planned exactly unless its field has no record, none of its upstreams is moving, and the row's digest
  is in order or accounted for by something else (`SecondLook.MovedValueIsPlanned`; `Promotion.ImmutableMoveMissed` is
  a diff that misses an immutable one).
- The `prevent_destroy` guard does not see replacements planned by the secret audit
  (`PlanSafety.PlanGuardedExactly`; `PlanSafety.RotationEscapesGuard` is a plan that escapes it).
- A second alias pass can move a row again (`Remigration.SecondPassEmptyExactly`).
- Object keys are sorted by code point, not by the UTF-16 order of section 3.2.3 of RFC 8785
  (`KeyOrder.OrdersPartExactly`).
- A deleted row's hold is said to go with it; the in-memory store keeps the hold
  (`Store.MemoryStateBackend.Delete`).

## Model

| member | source | states |
|---|---|---|
| TarjanSearch.Tarjan.Visit | atlantide/graph/build.py:84-113 | One call of the iterative search leaves its root and everything seen before seen, the work and node stacks empty, the seen nodes closed under edges, and the recorded lists exactly the strongly connected sets of more than one node among them |
| TarjanSearch.Tarjan.PopScc | atlantide/graph/build.py:122-132 | Pops the stack down to the root and records the component, sorted, only when it has more than one node; every other field is as before |
| TarjanSteps.EnterChild | atlantide/graph/build.py:115-120 | Entering an unseen child keeps every part of the search invariant (stack reachability, low-value witnesses, low bounds) |
| TarjanSteps.LeaveInner | atlantide/graph/build.py:105-113 | Leaving a node whose low value is below its index hands the low value to the parent and keeps the invariant |
| TarjanSteps.LeaveRoot | atlantide/graph/build.py:122-132 | Leaving a node whose low value is its own index: what lies above it on the stack is one maximal strongly connected set, and removing it keeps the invariant |
| TarjanSteps.SuffixIsComponent | atlantide/graph/build.py:122-132 | The stack above a root is mutually reachable, and nothing outside it is mutually reachable with it |
| GraphBuild.FindCycles | atlantide/graph/build.py:62-70 | Lists each strongly connected set of more than one node once, sorted, followed by each self-loop |
| GraphBuild.NoCyclesIffAcyclic | atlantide/graph/build.py:62-70 | The list of cycles is empty exactly when no node reaches itself through an edge |
| GraphBuild.Accumulate | atlantide/graph/build.py:32-52 | Every node is listed under each node it has an edge to; or the edge returned is the first to an id the config lacks, every earlier edge in node and edge order being known |
| GraphBuild.Adjacency | atlantide/graph/build.py:32-52 | The two adjacency maps are mirror images over the same sorted nodes, each list sorted and closed, or the first edge to an unknown id is named |
| GraphBuild.BuildGraph | atlantide/graph/build.py:18-29 | Succeeds with the exact edges of the config only when they are acyclic and known; a failure is a real cycle list of a cyclic config, or the first unknown edge |
| Order.TopologicalOrder | atlantide/graph/order.py:10-29 | For any mirrored graph and either direction: predecessors come first, each choice is the least available node, and the result holds every node exactly when the graph is acyclic |
| Order.Unblock | atlantide/graph/order.py:24-28 | Each successor is counted down once, and exactly those reaching zero become ready |
| Order.GreedyIsLeast | atlantide/graph/order.py:13-16 | A greedy topological order is no later, lexicographically, than any other topological order |
| Order.OrderedIsAcyclic | atlantide/graph/order.py:13-16 | A graph with a topological order has no cycle |
| Order.BuiltGraphIsOrdered | atlantide/graph/model.py:31-37 | A built graph has an order in both directions, and it is the least one |
| Schedule.StepKeeps | atlantide/graph/schedule.py:41-46 | Every step of every node task keeps the scheduler invariant |
| Schedule.WorkStartsInOrder | atlantide/graph/schedule.py:41-46 | In every run, a node is worked on only after every predecessor finished with a result, and at most `parallelism` nodes are worked on at once |
| Schedule.SomeTaskMoves | atlantide/graph/schedule.py:41-52 | In an acyclic graph, without failures, some step is enabled until every node has its result |
| Schedule.RunIsBounded | atlantide/graph/schedule.py:48-52 | Each step takes exactly one off a total fixed at the start, so every run without failures ends |
| Schedule.ResultIsFinal | atlantide/graph/schedule.py:44-46 | A node gets one result: no later step changes it |
| Schedule.CompletionMeansAcyclic | atlantide/graph/schedule.py:48-52 | A run that gives every node a result is the run of an acyclic graph, and results arrive in a topological order |
| Merkle.MerkleHashes | atlantide/ir/merkle.py:27-47 | Over any order with dependencies first, every digest is that of the type, the properties that are not ignored, and the dependencies' digests in sorted order |
| Merkle.SameToHashExactly | atlantide/ir/merkle.py:34-46 | Two nodes look alike to the hash, dependencies aside, exactly when their types agree and they have the same fields that are not ignored, with equal values |
| Merkle.TopologicalSuffices | atlantide/ir/merkle.py:27-33 | Any topological order of the config's edges, ordering edges included, is such an order |
| Merkle.PropagationIsExact | atlantide/ir/merkle.py:12-16 | Between any two configs, nodes added or removed and references moved included, a digest is unchanged exactly when no type and no kept property changed at the node or anything it depended on, as long as no ignored field hides a moved reference |
| Merkle.OneEditPropagates | atlantide/ir/merkle.py:10-12 | An edit to one node, of whatever kind, changes the digests of exactly that node and its transitive value dependents if it changes its own digest, and none otherwise |
| Merkle.OneChangePropagates | atlantide/ir/merkle.py:10-12 | Changing the type or a kept property of one node, a reference moved to another or to a new resource included, changes the digests of exactly that node and its transitive value dependents |
| Merkle.EditKeepsDigestExactly | atlantide/ir/merkle.py:36-46 | An edit keeps the edited node's digest exactly when it changes nothing the hash reads and the new dependencies had, before the edit, the digests of the old ones |
| Merkle.IgnoredEditsExactly | atlantide/ir/merkle.py:34-41 | Edits confined to ignored fields change no digest exactly when every node's dependencies after the edit had, before it, the digests of the dependencies they replace |
| Merkle.OrderDoesNotShow | atlantide/ir/merkle.py:27-30 | A config has one hashing, whatever topological order was supplied |
| HashMeaning.SameHashSameInputs | atlantide/ir/merkle.py:14-16 | For lowered configs, an unchanged digest means unchanged resolved inputs and outputs under every provider, provided no ignored field holds a different value at or below the node |
| HashExact.UnchangedMeansExactly | atlantide/ir/merkle.py:14-16 | Where ignored fields hold no reference, an unchanged digest means the same resolved inputs under every provider and every transform exactly when no ignored field at or below the node holds a different value |
| HashExact.LoweredShowsRefs | atlantide/ir/merkle.py:34-41 | In lowered configs whose ignored fields hold no reference, no edit moves a reference behind the hash's back |
| HashExact.EveryConfigRuns | atlantide/ir/merkle.py:14-16 | Every lowered config that can be hashed has outputs for any provider, each node applied with inputs resolved against its dependencies' outputs |
| HashMeaning.IgnoredFieldHidesAMove | atlantide/ir/merkle.py:14-16 | Two lowered configs agree on every digest while one provider runs them to different inputs of the same node, through a field its dependency ignores |
| HashMeaning.IgnoredReferenceMovesTheDigest | atlantide/ir/merkle.py:34-36 | An ignored field that refers still counts through its dependency: moving its reference moves the digest |
| Canonical.RoundTrip | atlantide/ir/canonical.py:39-83 | Reading an encoded value back gives the value and whatever followed it, for all nested values of null, bool, int, string, array and object, by a reader that accepts keys in any order and by one that accepts only ascending keys |
| Canonical.EncodeIsInjective | atlantide/ir/canonical.py:1-10 | Distinct values have distinct encodings |
| Shortest.EncodingIsShortest | atlantide/ir/canonical.py:1-6 | No JSON text that reads as a value is shorter than its encoding, and one whose object keys ascend, in nested objects too, is as short only if it is the encoding |
| Shortest.CanonicalExactly | atlantide/ir/canonical.py:39-83 | A text is the encoding of a value exactly when it reads as the value with the keys of every object, nested ones included, in ascending code-point order as they stand, and no text that reads as the value in any key order is shorter |
| KeyOrder.EncodedAlikeExactly | atlantide/ir/canonical.py:74-83 | Two documents encode alike exactly when they denote the same value, whatever order their keys were inserted in |
| KeyOrder.OrdersPartExactly | atlantide/ir/canonical.py:8-9 | Code-point key order and the UTF-16 order of section 3.2.3 of RFC 8785 disagree on two keys exactly when, where they first differ, one has a supplementary character and the other one from U+E000 to U+FFFF |
| KeyOrder.OrdersPartBeyondIt | atlantide/ir/canonical.py:8-9 | Such a pair of keys |
| KeyOrder.SwappedKeysMeanTheSame | atlantide/ir/canonical.py:74-83 | A dict built with its two keys in either order encodes the same |
| Values.StrictTargetsCoverReads | atlantide/core/markers.py:145-156 | In trees where `$ref` occurs only as a strict marker, the diff's targets include every node resolution reads |
| Values.KeyedExactly | atlantide/core/markers.py:136-156 | Where every `$ref` key holds a string, a value carries such a key exactly when the diff finds a target in it |
| Values.ReferringHasKey | atlantide/core/markers.py:136-156 | Every value with a target, and every value resolution reads an output for, carries a `$ref` key |
| Values.TransformApplies | atlantide/reconcile/resolve.py:38-65 | A transform resolves to its operation applied to its arguments, each resolved, in their order |
| Values.DeterminedExactly | atlantide/reconcile/resolve.py:38-65 | A value that resolves cannot move without one of a set of nodes moving, exactly when resolution reads no node outside the set |
| Values.TargetsSufficeExactly | atlantide/core/markers.py:145-156 | So the nodes the diff attributes a field to are enough exactly when they cover what resolution reads |
| Values.LooseRefHidesReads | atlantide/core/markers.py:145-156 | They need not: a second key beside `$ref` hides a reference from the diff that resolution still reads |
| Values.ResolveFrame | atlantide/reconcile/resolve.py:38-65 | Resolution depends on nothing but the outputs it reads, through references and transforms |
| Values.AbsentReadFails | atlantide/reconcile/resolve.py:38-65 | Every output resolution reads is needed: without one of them it fails, inside lists, objects and transforms too |
| Values.NothingToResolve | atlantide/reconcile/resolve.py:91-108 | A value that needs no resolution resolves to itself, so skipping it loses nothing |
| Values.NeedsResolutionExactly | atlantide/reconcile/resolve.py:105-108 | The values that need resolution are exactly those that do not resolve without outputs and with every transform failing |
| Values.SplitHash | atlantide/core/markers.py:83-86 | Splitting a marker at its first `#` undoes the joining of an id without one and an attribute |
| Classify.UnchangedFieldKeepsItsValue | atlantide/reconcile/classify.py:65-97 | A field the symbolic comparison leaves out resolves to what the row was applied with |
| Classify.ImmutableMoveIsReplace | atlantide/reconcile/classify.py:100-162 | A real move of an immutable value is classified as a REPLACE naming the field, never as an UPDATE |
| Classify.ReclassifiedExactly | atlantide/reconcile/classify.py:169-217 | At apply a conditional REPLACE stands exactly when an immutable value really moved; otherwise it becomes an UPDATE of exactly the fields that moved, or a NOOP when none did |
| Staleness.Reverse | atlantide/reconcile/diff.py:209-212 | The dependents map is exactly the reversed edge relation |
| Staleness.StaleDependents | atlantide/reconcile/diff.py:197-221 | The worklist computes exactly the nodes that depend, through at least one edge, on a node being created or replaced |
| Diffing.ComputeDiff | atlantide/reconcile/diff.py:78-118 | The executable pass (worklist, propagation walk and pinning loop) computes the specified changeset |
| Diffing.DiffListsEveryId | atlantide/reconcile/diff.py:104-105 | One change per id of config and state, in sorted order |
| Diffing.NoopExactly | atlantide/reconcile/diff.py:168-187 | The final NOOPs are exactly the first pass's NOOPs outside the stale closure, unchanged |
| DiffMeaning.LeftAloneExactly | atlantide/reconcile/diff.py:145-166 | In terms of the inputs alone: a final change is a NOOP exactly when the node is on both sides, its row is confirmed and carries the config digest, it is not under `--replace`, no field that is not ignored is known to have moved, and no node it depends on, at any remove, is created or replaced by its own inputs; the NOOP then says of its flag only whether it differs |
| DiffMeaning.CreatedExactly | atlantide/reconcile/diff.py:149-154 | A final change is a CREATE exactly when the node is declared and has no confirmed row, and a DELETE exactly when it is not declared |
| DiffMeaning.ActedOnExactly | atlantide/reconcile/classify.py:65-162 | Any other final change of a node with no reserved field name: its changed fields are exactly those edited, dropped, known to have moved or referring to a node the diff acts on, ignored ones aside, or, when there are none and the digest is off unexplained, those without a record; it is a REPLACE exactly when the resource has an immutable one among them, or when forcing alone calls for it |
| DiffMeaning.FlagsExactly | atlantide/reconcile/classify.py:137-162 | Such a change says of exactly its fields with a known new value that their upstream moved, and a REPLACE is conditional exactly when every immutable field it names carries a reference, has no known new value and refers to nothing the diff destroys first |
| DiffMeaning.MovedInNoopIsUnrecorded | atlantide/reconcile/diff.py:155-161 | When the verdicts cover every field that moved, a field of a final NOOP whose value really moved since it was applied has no record |
| Diffing.MovingExactly | atlantide/reconcile/diff.py:109-113 | The ids counted as moving are exactly those the final changeset acts on |
| Diffing.NoopUpstreams | atlantide/reconcile/diff.py:197-208 | Nothing upstream of a final NOOP is created or replaced by the first pass |
| Diffing.ConditionalExactly | atlantide/reconcile/classify.py:137-143 | In the final diff an unforced REPLACE is conditional exactly when each of its changed immutable fields carries a reference, is not already known to have moved, and refers to nothing the plan destroys first |
| Diffing.CreateFirstExactly | atlantide/reconcile/diff.py:18-19 | In the final diff a REPLACE is create-before-destroy exactly when its node, or something that depends on it, is declared so |
| SecondLook.PromotedExactly | atlantide/reconcile/diff.py:183-187 | An UPDATE becomes a REPLACE on the second look exactly when an immutable field of the resource, not ignored, refers to a moving upstream |
| SecondLook.TakenBackExactly | atlantide/reconcile/diff.py:183-187 | A REPLACE does not survive the second look exactly when it rested on unrecorded fields alone, some other field now refers to a moving upstream, and no immutable one does |
| SecondLook.RecreatedAboveNoopExactly | atlantide/reconcile/diff.py:109-117 | A node that a final NOOP depends on is recreated by the same plan exactly when the first pass updates it and an immutable field of it refers to a moving upstream |
| SecondLook.RecreationReachesExactly | atlantide/reconcile/diff.py:197-208 | No NOOP of a plan lies behind a node it recreates exactly when no such promoted node lies above a first-pass NOOP outside the stale closure |
| SecondLook.ForcedIsReplaced | atlantide/reconcile/classify.py:38-62 | A node under `--replace`, present on both sides, is a REPLACE in the final diff exactly unless the diff had itself planned a REPLACE that the second look takes back; and an unconditional one unless the diff had planned a REPLACE |
| SecondLook.NoopKeepsValuesExactly | atlantide/reconcile/diff.py:168-187 | Whatever the acted-on nodes come to report, a field of a final NOOP resolves as it did exactly when the first pass updates none of the nodes it reads |
| Promotion.ForcedNodeMerelyUpdated | atlantide/reconcile/diff.py:106-117 | A whole diff, over rows the same config left before an edit to another node, in which a node under `--replace` ends as an UPDATE |
| SecondLook.UnrecordedCaughtExactly | atlantide/reconcile/classify.py:122-124 | In a diff an unedited field without a record is a changed field exactly when it refers to a moving upstream, or when the row's digest is off, no refresh marked it, and neither an edit, a record nor a moving upstream accounts for it |
| SecondLook.MovedValueIsPlanned | atlantide/reconcile/diff.py:25-43 | When outputs change only on acted-on nodes, a field of an UPDATE or unforced REPLACE whose value really moved is a changed field exactly when it is not such an uncaught one; and then an immutable one makes the change a REPLACE |
| Promotion.ImmutableMoveMissed | atlantide/reconcile/diff.py:183-187 | A whole diff under the config's own digests that plans an UPDATE without the immutable field whose value really moved |
| Promotion.NoopBehindPromotedReplace | atlantide/reconcile/diff.py:109-117 | A plan under the config's own digests in which a node stays a NOOP downstream of a node the same plan replaces |
| Cbd.CbdForcers | atlantide/graph/cbd.py:21-42 | Every node a declared create-before-destroy node reaches, with exactly the declared nodes that reach it |
| Ordering.ResolveCbd | atlantide/reconcile/ordering.py:40-91 | Succeeds exactly when no colliding change has another declared dependent; then each change is downgraded exactly when it collides; otherwise exactly the conflicting changes are named with those dependents |
| Ordering.PinBehindDestroyFirst | atlantide/reconcile/ordering.py:122-160 | The growing loop ends and computes the least fixpoint, pinning exactly the changes behind it |
| Ordering.FixpointLeast | atlantide/reconcile/ordering.py:144-153 | The set the loop grows is the least one that holds the destroy-first ids and that no round adds to |
| Ordering.NothingLeftBehind | atlantide/reconcile/ordering.py:122-142 | Afterwards no conditional REPLACE holds a changed immutable reference to a node replaced destroy-first |
| Ordering.PinnedExactly | atlantide/reconcile/ordering.py:122-142 | A change is pinned exactly when its own reference points at a destroy-first REPLACE |
| Ordering.BehindIdempotent | atlantide/reconcile/ordering.py:140-142 | A second pass changes nothing |
| Guards.ProtectedExactly | atlantide/engine/planner.py:44-55 | A declared node is protected by its own flag alone, any other row by the flag stored with it |
| Guards.PassedExactly | atlantide/reconcile/guards.py:58-75 | The guard passes exactly when every destructive change of a protected node is a deferred conditional REPLACE |
| PlanMeaning.RefusedExactly | atlantide/reconcile/guards.py:29-75 | In terms of the diff: a plan is refused exactly when a selected DELETE or REPLACE hits a protected node and is not a conditional REPLACE whose changed fields refer to nothing selected that is created or replaced; the refusal names exactly those nodes |
| PlanMeaning.PlannedExactly | atlantide/engine/secret_audit.py:51-92 | A successful plan has one change for each of the diff: an unselected one does nothing; a selected NOOP stays one exactly when none of its secret handles misses, and otherwise names exactly the handles that miss and is a REPLACE exactly when one is immutable, an UPDATE otherwise; every other selected change is that of the diff, ordering flags aside |
| PlanMeaning.CreatedFirstExactly | atlantide/reconcile/ordering.py:94-110 | A REPLACE of a successful plan is create-before-destroy exactly when a declaration asks for it and old and new can coexist: the configured name differs from the one in the row or, for a type without a name field, a changed field is immutable |
| PlanMeaning.CollidingExactly | atlantide/reconcile/ordering.py:40-91 | A plan collides exactly when it is not refused and some replacement asked to come first cannot coexist and is asked for by another declared node; it names exactly those nodes with exactly the other nodes that ask; a successful plan names exactly the nodes that cannot coexist as downgraded |
| PlanMeaning.LeftToApplyExactly | atlantide/reconcile/ordering.py:122-160 | A change of a successful plan is conditional exactly when it is selected, that of the diff is, and no immutable field it names refers to what the plan destroys first |
| Planner.Build | atlantide/engine/planner.py:164-299 | Refuses exactly on blocked ids, fails exactly on unresolvable collisions, and otherwise carries the diffed, restricted, audited, resolved and settled changeset |
| Planner.DiffIsSound | atlantide/reconcile/diff.py:114-118 | In every diff REPLACEs know both sides, those the config forces are create-before-destroy, and only REPLACEs are conditional |
| Planner.AuditedIsSound | atlantide/engine/secret_audit.py:51-92 | Restriction and the secret audit keep all of that |
| PlanSafety.NoDependentLosesItsUpstream | atlantide/graph/cbd.py:3-6 | In a successful plan no node replaced destroy-first lies in the dependency closure of a different node declared create-before-destroy |
| PlanSafety.NoConditionalBehindDestroyFirst | atlantide/engine/planner.py:285-288 | In a successful plan no conditional REPLACE holds a changed immutable reference to a node replaced destroy-first |
| PlanMeaning.AuditLeavesNothingBehind | atlantide/engine/secret_audit.py:51-76 | What the secret audit hands on has no conditional REPLACE that refers to what is destroyed first |
| PlanSafety.DeferredPinnedExactly | atlantide/reconcile/guards.py:32-37 | A change the guard deferred to the apply is made unconditional exactly when it refers to something a rotated secret replaces destroy-first |
| PlanSafety.PlanGuardedExactly | atlantide/engine/planner.py:197-202 | A successful plan deletes no protected node and replaces none unconditionally exactly when no rotated immutable secret belongs to a protected node or to something, replaced destroy-first by the rotation, that a protected conditional REPLACE refers to |
| PlanSafety.GuardHoldsWithoutRotation | atlantide/reconcile/guards.py:3-10 | With no rotated secret every successful plan is so guarded |
| PlanSafety.RotationEscapesGuard | atlantide/engine/secret_audit.py:77-92 | The guard runs before the audit: rotating an immutable secret handle of a protected node, unchanged under its own digest, yields a plan that replaces it |
| Convergence.Commit | atlantide/testing/compiled.py:250-266 | The committed state rewrites each changed node's row and no other |
| Convergence.CommittedRowMatches | atlantide/testing/compiled.py:292-304 | A row an apply wrote differs from its node in no field |
| Convergence.CommitMeans | atlantide/testing/compiled.py:250-304 | Per change: a DELETE drops the row, a NOOP moves at most its flag and only to the configured one, any other leaves a confirmed row with the properties, both kinds of edges and digest of the config |
| Convergence.RestrictedLeavesRows | atlantide/reconcile/changes.py:129-139 | Committing a restricted changeset leaves every row outside the selection as it was |
| Convergence.DiffIsApplicable | atlantide/testing/compiled.py:288-289 | Every change other than a DELETE has a desired node and a digest to write |
| Convergence.DiffConverges | atlantide/testing/compiled.py:250-289 | Over the state a whole diff commits, whatever rows it started from and whatever replacements were forced, planning the same config again gives only plain NOOPs, none state-only |
| Convergence.PlanConverges | atlantide/testing/compiled.py:250-289 | The same over the state committed by a successful plan of the whole config, after the guard, the secret audit and the settling passes, whatever secrets rotated |
| Convergence.PlanIsApplicable | atlantide/testing/compiled.py:288-289 | Such a plan can be committed: one change per id, and every change other than a DELETE or NOOP has a desired node and a digest to write |
| Renaming.RenamingPreservesMeaning | atlantide/core/markers.py:168-184 | A tree with its references renamed resolves, against the renamed outputs, to what it resolved to before, inside transforms too |
| Aliases.AliasRemap | atlantide/reconcile/aliases.py:38-56 | Every entry is some node's first alias that was free in state, and every node without an entry had none |
| Aliases.ExpandsExactly | atlantide/reconcile/aliases.py:27-36 | A full alias names itself; a bare one names the same stack and type under the aliased name |
| Aliases.RemapIsInjective | atlantide/reconcile/aliases.py:38-45 | Each old id, present in state, maps to one new id, absent from state and declared, and no two to the same |
| Migration.ResolveAliases | atlantide/reconcile/aliases.py:70-84 | The state is unchanged when nothing aliases; otherwise every row is rekeyed and rehashed from the state's own graph, drift marks kept, failing only on a cyclic state |
| Migration.RekeyIsABijection | atlantide/reconcile/aliases.py:59-78 | Each row is found, migrated, under its new id, and none is lost or merged |
| MigrationMeaning.MigratedRowsExactly | atlantide/reconcile/aliases.py:59-97 | After a migration each row is found under its own or its new id, every id it lists replaced place by place, its other fields as they were and a drifted digest still so; no row is added |
| MigrationMeaning.MigratedPropertiesMean | atlantide/reconcile/aliases.py:59-68 | A migrated row resolves, against outputs under the new ids, to what it resolved to before |
| MigrationMeaning.MigratedEdgesExactly | atlantide/reconcile/aliases.py:87-97 | The migrated rows have exactly the images of the old edges, by reference or by `depends_on`, wherever the id listed is then that of a row |
| MigrationMeaning.EdgesMoveWithTheirEnds | atlantide/reconcile/aliases.py:87-97 | When every id listed is that of a row, two migrated rows have an edge exactly when they had one before |
| Migration.FromStateIsClosed | atlantide/reconcile/state_ir.py:15-43 | A config read back from state has no edge to an id the state lacks |
| PureRename.RemapIsTheRename | atlantide/reconcile/aliases.py:38-56 | For a consistent rename to fresh, aliased ids the aliases recover exactly the renames |
| PureRename.RehashMatches | atlantide/reconcile/aliases.py:87-97 | The rehash of the migrated state gives every row the digest the renamed config gives its node |
| PureRename.RenameIsInvisible | atlantide/reconcile/aliases.py:87-94 | Over the migrated state of a config's own commit, the config consistently renamed plans nothing but plain NOOPs |
| PureRename.RenameMigrates | atlantide/reconcile/aliases.py:96-97 | The migrated state of an acyclic config's commit is acyclic, so the migration succeeds |
| Remigration.SecondPassEmptyExactly | atlantide/reconcile/aliases.py:106-107 | A second pass finds nothing exactly when no node still absent from state has an alias naming a new id the first pass created, or an alias left in state while its own row was moved away |
| Remigration.SecondPassIsEmpty | atlantide/reconcile/aliases.py:106-107 | When no alias names a declared id a second pass finds nothing |
| Remigration.ChainedRenameMovesAgain | atlantide/reconcile/aliases.py:48-55 | A chained rename moves the same row again on a second pass |
| Store.AcceptedExactly | atlantide/state/fencing.py:69-101 | A fenced write is accepted exactly when every node it touches is held by the writer, no newer and unexpired, or unheld and inside the lease's scope |
| Store.ObjectionExactly | atlantide/state/fencing.py:69-101 | Which refusal a node earns: a foreign hold, then a newer fence of the writer, then expiry; outside the scope only when nobody holds it |
| Store.FirstObjectionMeans | atlantide/state/fencing.py:89-101 | The refusal returned is that of the first refused node in sorted order |
| Store.AcquirableExactly | atlantide/state/fencing.py:104-118 | An acquisition succeeds exactly when no other owner holds, unexpired, any node asked for |
| Store.BlockingMeans | atlantide/state/fencing.py:104-118 | A refused acquisition names the first node in sorted order whose hold by another owner has not expired, its holder and its expiry |
| Store.WrittenMeans | atlantide/state/memory.py:53-84 | A batch removes what it deletes, stores the last version of what it upserts, touches no other row, hold, fence or output, and moves the serial exactly when something was written |
| Store.MemoryStateBackend.Put | atlantide/state/memory.py:49-55 | Writes the one row, or refuses and changes nothing |
| Store.MemoryStateBackend.PutMany | atlantide/state/memory.py:62-73 | Checks the whole batch first: all of it is written, or it is refused and nothing changes |
| Store.MemoryStateBackend.ReplaceMany | atlantide/state/memory.py:75-84 | Deletes then upserts as one unit, or refuses and changes nothing |
| Store.MemoryStateBackend.Delete | atlantide/state/memory.py:86-88 | Drops the row if present and leaves its hold, or refuses and changes nothing |
| Store.MemoryStateBackend.AcquireLock | atlantide/state/memory.py:94-106 | A refused acquisition changes nothing; a successful one mints the next fence and records the lease on every node of the scope |
| Store.MemoryStateBackend.ReleaseLock | atlantide/state/memory.py:108-111 | Drops exactly the owner's holds |
| Store.MemoryStateBackend.ForceUnlock | atlantide/state/memory.py:117-121 | Drops the holds on the given ids whoever owns them, and counts those there were |
| Store.MemoryStateBackend.BindLease | atlantide/state/backend.py:144-164 | Only records the lease later writes are fenced against |
| Store.MemoryStateBackend.SetOutputs | atlantide/state/backend.py:25-35 | Removal before overlay, the overlay wins, and nothing else changes |
| StoreRuns.OnlyTheHolderWrites | atlantide/state/fencing.py:69-101 | In every run of competing owners, from a successful acquisition until that hold is released, unlocked or taken over, every accepted fenced write to a node of its scope is by the same owner, under a fence at least as new, before expiry |
| StoreRuns.HoldLasts | atlantide/state/memory.py:94-121 | A hold lasts, under a fence never older, until a release, a forced unlock or a takeover |
| StoreRuns.HoldsExactly | atlantide/state/memory.py:94-121 | What each event leaves recorded for a node: an accepted acquisition one lease until its time plus the time to live under the next fence, a release everything but the holds of its owner, an unlock everything but what it names, a write and a refusal everything |
| StoreRuns.TouchedExactly | atlantide/state/memory.py:62-88 | What a write is fenced against is exactly the ids it deletes and the ids of the rows it stores, and it changes no other row |
| StoreRuns.LockLastsItsTime | atlantide/state/memory.py:94-106 | In every run in which the owner neither gives up nor renews a hold on a node and nothing unlocks it, an acquisition at a time for a time to live keeps every other owner from the node before their sum, and from no node at or after it |
| StoreRuns.LockLetsItsOwnerWrite | atlantide/state/fencing.py:69-101 | Over such runs a write by the owner under that lease, to nodes of its scope, is accepted before that sum and refused from then on |
| StoreRuns.TakeoverOnlyAfterExpiry | atlantide/state/leases.py:43-45 | A hold is taken over only at or after its expiry |
| StoreRuns.FencesIncrease | atlantide/state/memory.py:102-103 | Along any run minted fences strictly increase |
| StoreRuns.EarlierLeaseIsSuperseded | atlantide/state/fencing.py:97-98 | Once an owner acquires a node again, nothing written under its earlier lease lands on it while the new hold stands |
| StoreRuns.StaleWriteAfterRelease | atlantide/state/fencing.py:84-85 | An unheld node inside a lease's scope stays writable: a write under a lapsed lease lands after a takeover has come and gone |
| LeaseGuards.LeaseGuard.Check | atlantide/state/leases.py:139-158 | Refuses exactly when the lease was lost before or expires within the grace, and remembers the refusal |
| LeaseGuards.PassedCheckOutlastsGrace | atlantide/state/leases.py:111-127 | While the store still records the guarded lease, a passed check means no write within the grace is refused as expired or superseded |
| Gate.ReadWriteGate.TryShared | atlantide/reconcile/writer.py:84-88 | One pass of the shared wait loop, on arrival or woken: admitted, or parked, exactly by the gate's fields, which stay valid |
| Gate.ReadWriteGate.ReleaseShared | atlantide/reconcile/writer.py:90-94 | The last shared holder to leave wakes every waiter; the gate stays valid |
| Gate.ReadWriteGate.EnterExclusively | atlantide/reconcile/writer.py:96-101 | Counts the caller as waiting before its first look at the gate, which stays valid |
| Gate.ReadWriteGate.TryExclusive | atlantide/reconcile/writer.py:100-106 | One pass of the exclusive wait loop, with the wake-up its admission sends; the gate stays valid |
| Gate.ReadWriteGate.AbandonExclusive | atlantide/reconcile/writer.py:102-105 | An interrupted waiter is no longer counted and wakes whoever it held back; the gate stays valid |
| Gate.ReadWriteGate.ReleaseExclusive | atlantide/reconcile/writer.py:108-111 | Frees the gate and wakes every waiter; the gate stays valid |
| Gate.StepKeeps | atlantide/reconcile/writer.py:65-111 | Every section of every thread, interruptions and spurious wake-ups included, keeps the counters true and leaves no waiter parked without a reason |
| Gate.NeverBoth | atlantide/reconcile/writer.py:65-69 | Over every schedule an exclusive holder is alone |
| Gate.SharedAdmittedOnlyAlone | atlantide/reconcile/writer.py:68-69 | No shared caller is admitted while an exclusive one holds or waits |
| Gate.HoldersOnlyDrain | atlantide/reconcile/writer.py:68-69 | While someone waits exclusively the shared holders only shrink |
| Gate.ParkedForAReason | atlantide/reconcile/writer.py:84-101 | No lost wake-up: a parked waiter's wait condition still holds |
| Gate.FreeGateAdmits | atlantide/reconcile/writer.py:65-111 | No deadlock: with nobody holding the gate and someone waiting, some waiter is awake and is admitted when it runs |
| Gate.HeldGateIsLeft | atlantide/reconcile/writer.py:90-111 | While the gate is held some holder can leave it, with no help from any other thread |
| Session.StepKeeps | atlantide/reconcile/writer.py:122-139 | Every step of the loop thread, a pool thread or another owner, the end of the run included, keeps the session invariant over gate, store and bound lease |
| Session.AdmittedWritesAreCurrent | atlantide/engine/locking.py:112-120 | In every interleaving, while a write is admitted the bound lease carries the fence of every hold this run has in the store |
| Session.NeverSuperseded | atlantide/reconcile/writer.py:126-134 | In every interleaving no write of the run is refused as superseded |
| Session.WriteLandsExactly | atlantide/state/fencing.py:69-101 | In every interleaving a write about to run is refused exactly when another owner holds its node, its own hold has expired, or nobody holds it and the bound lease does not cover it; one not refused stores exactly its row, a refused one nothing |
| Session.WriteGoesThrough | atlantide/reconcile/writer.py:174-201 | From any state of a run outside a lock call an idle thread can submit a write, run it and leave the gate with no other step between; its row is then stored exactly when its node is the run's own unexpired, or unheld and in the scope of the bound lease, and nothing else changes but the wake-ups sent |
| Session.RenewalExactly | atlantide/engine/locking.py:286-311 | A renewal mints a lease over the whole scope until its time plus the time to live, one fence on, exactly when no other owner holds part of the scope unexpired; otherwise it changes nothing and the lease is lost |
| Session.RenewalRebinds | atlantide/engine/locking.py:286-311 | With no write in flight and no unexpired foreign hold on the scope, a renewal and its rebind can run to their end, and leave the new lease over the whole scope recorded and bound and nothing else changed |
| Session.EndReleases | atlantide/engine/locking.py:122-132 | With no write in flight the end of a run can go through, and leaves no lease bound, exactly the holds of the run dropped and nothing else changed |
| Session.RenewalWindowIsEmpty | atlantide/engine/locking.py:278-283 | Between a renewal and its rebind no write is in flight and none can be submitted |
| Session.NeverUnfenced | atlantide/engine/locking.py:122-132 | In every interleaving a write about to run finds a lease bound; from the unbind that ends the run on, none is in flight and none can be submitted |
| Session.ReleaseLeavesNothing | atlantide/engine/locking.py:126-132 | Once the release that ends a run has gone through, the store records no hold of the run |
| Session.SubmissionIsAdmitted | atlantide/reconcile/writer.py:179-183 | A loop that is not inside a lock call is never blocked at the gate when it submits a write |
| Session.AcquiringBegins | atlantide/engine/locking.py:213-230 | A fresh acquisition followed by its bind establishes the invariant |
| Session.FailedRebindSupersedes | atlantide/engine/locking.py:115-118 | Were the rebind to fail after a renewal, the next write to a node in scope would be refused as superseded |
| Inline.Inliner.ResolveOutput | atlantide/core/inline.py:76-91 | Each output is resolved once; the keys of a reported cycle each refer to the next, and the last occurs before |
| Inline.ResolveOutputs | atlantide/core/inline.py:47-49 | Succeeds exactly when that graph is acyclic, with the full substitution and no in-config reference left; otherwise names a closed chain of references |
| Inline.InlineStackOutputs | atlantide/core/inline.py:33-73 | Succeeds exactly when the graph is acyclic; then every output and input is its full substitution with no in-config reference left; a registry without any is returned as it is |
| Inline.SolutionIsUnique | atlantide/core/inline.py:76-91 | Acyclic outputs have one full substitution |
| InlineMeaning.InliningPreservesMeaning | atlantide/core/inline.py:33-73 | However values are computed from expressions, an acyclic registry can give its outputs values in exactly one way, every inlined output and input has the value of the expression it replaces, and has it without reading any output of the config |
| Inline.VisitOrderDoesNotShow | atlantide/core/inline.py:47-49 | Whatever order outputs are visited in, the inlined registry is the same |
| Costs.DeepCost | atlantide/lang/interp/costs.py:67-98 | Equals the full per-reference walk cost when that is within the limit, exceeds the limit when it is larger or the walk never ends, and takes at most one iteration more than the limit |
| Costs.CostIsUnique | atlantide/lang/interp/costs.py:70-74 | A value has at most one full walk cost |
| Costs.CostExactly | atlantide/lang/interp/costs.py:67-98 | A full walk of a dict costs one, one more for each key, and what its keys and values cost; of another container one, one more for each item, and what its items cost; a string inside costs one more than its length over 64, rounded down |
| Costs.SmallerDeepCost | atlantide/lang/interp/costs.py:336-349 | The smaller of the two full costs when within the limit, beyond the limit otherwise; all walks together take at most five times the last bound, which is 64 or below twice the result and within twice the limit |

## Left out

- Values.ResolveFrame: which exception resolution raises is not distinguished, and a transform whose `args` is an object (iterated as its keys) counts as raising; other errors are modelled as one failure.
- Canonical.RoundTrip: does not cover floating-point numbers, lone surrogates, pydantic models, or Python's limit on the digits of a converted int.
- Shortest.CanonicalExactly: the texts it ranges over are JSON without white space, the escape `\/`, upper-case hexadecimal digits, or `\u` escapes above U+00FF.
- SecondLook.MovedValueIsPlanned: takes the consumed-value verdicts as input, complete for the fields they examine; how they are computed from digests is not modelled.
- HashExact.UnchangedMeansExactly: where an ignored field refers, only `HashMeaning.SameHashSameInputs` is stated: two such fields can differ and still resolve alike. Transforms are taken with a list or a string of arguments.
- Order.TopologicalOrder: the heap is a set whose least member is popped.
- Session.NeverSuperseded: the per-node ordering of writes with the same key, cancellation of a submitted write, and the inline path of backends that do not offload are not modelled.
- Schedule.WorkStartsInOrder: a failure stops all steps; which siblings are cancelled, and the exception group raised, are not modelled.
- Inline.InlineStackOutputs: sets, nested pydantic models, and the registry's policies, inputs and environment selection, which are copied as they are, are not modelled; nor is a refused re-registration.
- Store.AcceptedExactly: the sqlite, postgres and S3 stores are not part of this model; nor are the texts of refusals.
- Planner.Build: undefined secrets, undefined stack outputs and policies only reject or annotate a plan and are not modelled; nor are the notes and warnings of a plan.
- Costs.DeepCost: what a sized view or generator reports as its length is taken as given.
- Boolean and integer equality across types (`True == 1`) and the order of changed fields, which are sets here.
- Persisting an alias migration, destroy plans, drift refusal, lock scopes of companions, and lock policy validation: they add only single-branch facts.
- The executor, providers, secret sealing, the interpreter, policies, plugin discovery, artifacts and the command line.
