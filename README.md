# slog-meld merge engine, modelled in Dafny

slog-meld is a `log/slog` handler that *melds* attributes instead of appending
them. A later attribute with an existing key replaces the earlier one in place.
A group attribute merges into an existing group at any depth. Keys keep the
order in which they first appeared.

The engine is in `internal/tree`:

- A `Group` is an ordered slice of entries (`value`).
- Each entry has a name and exactly one of a scalar `v` or an owned sub-group `g`.
- `Merge(stack, attrs...)` resolves the nesting path `stack` with `last`.
- It then folds each attribute in with the three-way rule of `merge`:
  - a new key is appended;
  - an existing key with a scalar value is replaced in place;
  - an existing key with a group value is merged recursively. A scalar entry is first promoted to an empty group.
- `Clone` makes a deep copy, and `Render` flattens the tree back into attributes.

The handler in `handler.go` holds an immutable pair of a path (`stack`) and a tree (`root`):

- `WithAttrs` and `WithGroup` clone the tree, merge into the copy, and return a new handler. `WithGroup` also extends the path.
- `Handle` renders the tree, or a merged copy of it when the record carries attributes.

The project has eight modules:

- `Slog` (`slog.dfy`): log values and attributes. Scalars are an opaque type parameter `S`. `Zero` is the library's zero value.
- `TreeModel` (`tree_model.dfy`): the tree as a value, `Field = Leaf(name, val) | Node(name, sub)`. It holds the functional specification of rendering, path resolution and merging.
- `TreeProperties` (`tree_properties.dfy`): what the engine promises, proved about that specification. This covers:
  - the three-way rule;
  - the invariant that names stay distinct at every depth;
  - batches as left-to-right folds;
  - path lemmas;
  - the render round trip.
- `Tree` (`tree.dfy`): the engine as it runs, on the heap.
  - `Entry` and `Group` are classes. Their fields are updated in place, as in Go.
  - Every group carries a ghost footprint `Repr` and a ghost `Contents`, the `TreeModel` tree it stands for.
  - Each method is proved against the `TreeModel` function it implements. `Render` and `Clone` fill their results in loops; `merge` scans for its match in a loop and then appends or assigns to the entry sequence.
  - Copies are proved to share no object with the original (`fresh(n.Repr)`). This is the snapshot independence that handlers rely on.
- `Meld` (`meld.dfy`): the handler as a class with constant fields.
  - `Handler.Valid` holds three facts: the tree is valid, the path resolves, and names are distinct at every depth.
  - Every handler operation preserves `Valid`. As a consequence, in the model, where each handler's path is an immutable sequence, no merge done through a handler can hit the panic in `last`. The Go code shares path arrays between handlers and does not have this guarantee (see "## Findings").
- `MeldExamples` (`meld_examples.dfy`): the table-driven cases of `handler_test.go`, replayed on the model with string scalars.
- `GoSlice` (`go_slice.dfy`): Go's slice of strings as a header over a shared backing array, with `append`.
- `PathAliasing` (`path_aliasing.dfy`): the path `append(h.stack, name)` builds, shown to be rewritten by a sibling `WithGroup`, against the model's immutable path.

`Wrappers` (`wrappers.dfy`) holds the `Option` type.

The match scan in `merge` stores `&i` for each matching `i`. The model reads `match` as the index of the LAST entry with the key. This holds for per-iteration loop variables (Go 1.22 and later). Under the older semantics, every `&i` would address one shared variable and `match` would end at the last index whatever matched.

`last` descends into the FIRST entry with the name. The two scans pick the same entry whenever names are distinct (`TreeProperties.FirstIsLastWhenDistinct`). Names are always distinct in a tree built by merging.

A panic in the source becomes a failure in the model: `None` in `TreeModel`, `false` or `null` in `Tree`. `last` panics in two cases:

- no entry carries the next name;
- the entry it finds is scalar-kind. Go then hands a nil group on, and that panics at the next dereference.

## Model

| member | source | states |
|---|---|---|
| TreeModel.Render | internal/tree/group.go:30-41 | one attribute per entry, in entry order; each key is the entry's name and each value the entry's LogValue |
| TreeModel.LastMatch | internal/tree/group.go:56-61 | the index `match` is left at: an entry with the key and no later entry with it; None exactly when no entry has the key |
| TreeModel.FirstMatch | internal/tree/group.go:92-96 | the entry `last` descends into: an entry with the name and no earlier entry with it; None exactly when no entry has the name |
| TreeModel.MergeAttr | internal/tree/group.go:56-84 | folding an attribute in keeps the names when the key is present, and otherwise appends the key |
| TreeModel.MergeAll | internal/tree/group.go:43-50 | the names after a batch are the old names followed by each new key once |
| TreeModel.Last | internal/tree/group.go:87-99 | an empty stack yields the group itself; a first name no entry carries fails (the panic) |
| TreeModel.LogValue | internal/tree/value.go:11-16 | a scalar entry stands for its own value; a group entry for a group value whose keys are the sub-group's names, in order |
| TreeModel.Put | internal/tree/group.go:87-99 | mutating the group returned by `last`: afterwards the path leads to the new group; at the root the names are unchanged and every entry of another name than the path's first is untouched (the deeper levels are TreeProperties.PutKeepsSiblings and TreeProperties.PutElsewhere) |
| TreeModel.MergeOneResolves | internal/tree/group.go:53-85 | `merge` panics exactly where `last` does; otherwise the path still leads to the group, now with the attribute folded in, and no name along the path changes |
| TreeModel.MergeAt | internal/tree/group.go:43-50 | a batch fails only when it is non-empty and the path does not resolve; after a non-empty batch that succeeds the path still resolves, and no name along the path changes |
| TreeModel.FromAttrs | internal/tree/group.go:63-71 | the tree read back from a batch has the batch's keys as its names, in order |
| TreeProperties.AppendsNewKey | internal/tree/group.go:63-71 | an absent key appends exactly one entry at the end: a leaf for a scalar, a group built from the incoming fields for a group; earlier entries unchanged |
| TreeProperties.ScalarReplacesInPlace | internal/tree/group.go:74-77 | a scalar onto an existing key replaces that entry, whatever its kind, by a leaf at the same index; length and all other entries unchanged |
| TreeProperties.GroupMergesIntoGroup | internal/tree/group.go:79-84 | a group onto a group entry keeps it a group at the same index. Fields the incoming group does not name keep their place and value. Names become the old names followed by the new keys; other entries are unchanged |
| TreeProperties.GroupReplacesScalar | internal/tree/group.go:79-82 | a group onto a scalar entry replaces it, at the same index, by a group holding only the incoming fields |
| TreeProperties.MergeAllKeepsUnnamed | internal/tree/group.go:79-84 | a batch never shortens a group and leaves every entry it does not name unchanged |
| TreeProperties.MergeAttrKeepsOthers | internal/tree/group.go:56-84 | one attribute never shortens a group and leaves every entry of another name unchanged |
| TreeProperties.AddKeysFacts | internal/tree/group.go:63-71 | folding keys in keeps the old names as a prefix, adds exactly the new keys and introduces no duplicate |
| TreeProperties.MergeAttrDistinct | internal/tree/group.go:56-72 | names distinct at every depth stay distinct after merging one attribute |
| TreeProperties.MergeAllDistinct | internal/tree/group.go:43-50 | names distinct at every depth stay distinct after merging a batch |
| TreeProperties.MergeAttrWellKinded | internal/tree/value.go:7 | merging never stores a group value in a leaf |
| TreeProperties.MergeAllWellKinded | internal/tree/value.go:7 | the same for a batch |
| TreeProperties.MergeAllConcat | internal/tree/group.go:47-49 | merging a + b is merging a, then b |
| TreeProperties.LaterScalarOverrides | internal/tree/group.go:47-49 | a scalar after an attribute with the same key overrides it and leaves no trace of it |
| TreeProperties.ScalarMergeIdempotent | internal/tree/group.go:74-77 | merging the same scalar twice equals merging it once |
| TreeProperties.MergeEmptyBatch | internal/tree/group.go:43-50 | an empty batch is a no-op whatever the stack |
| TreeModel.FirstMatchByNames | internal/tree/group.go:92-96 | which entry the scan of last picks depends only on the names |
| TreeModel.FirstMatchAt | internal/tree/group.go:92-96 | the scan returns at the first entry with the name |
| TreeProperties.FirstIsLastWhenDistinct | internal/tree/group.go:56-61 | with distinct names, the entry last descends into is the one merge updates |
| TreeProperties.LastConcat | internal/tree/group.go:87-99 | resolving s1 + s2 is resolving s1, then s2 from there |
| TreeProperties.PutKeepsSiblings | internal/tree/group.go:87-99 | every group on the way to the target keeps its names, and every entry other than the one the path descends into |
| TreeProperties.PutElsewhere | internal/tree/group.go:87-99 | a path that neither leads through the target nor into it resolves as before |
| TreeProperties.PutLast | internal/tree/group.go:87-99 | putting back the group a path leads to gives the tree back |
| TreeProperties.PutPut | internal/tree/group.go:87-99 | replacing the target twice keeps only the second replacement |
| TreeProperties.MergeAtBatch | internal/tree/group.go:43-50 | re-resolving the stack for every attribute equals resolving it once and folding the batch into the target; a non-empty batch fails exactly when the stack does not resolve |
| TreeProperties.MergeAtRoot | internal/tree/group.go:43-50 | with an empty stack a batch always succeeds and is the plain fold |
| TreeProperties.MergeAtConcat | internal/tree/group.go:43-50 | merging a + b under a stack is merging a, then b, failing as soon as either fails |
| TreeProperties.LastDistinct | internal/tree/group.go:87-99 | the group a path leads to in a tree with distinct names has distinct names |
| TreeProperties.PutDistinct | internal/tree/group.go:87-99 | putting a group with distinct names back into the tree keeps every name distinct |
| TreeProperties.LastWellKinded | internal/tree/group.go:87-99 | the group a path leads to in a well-kinded tree is well kinded |
| TreeProperties.PutWellKinded | internal/tree/group.go:87-99 | putting a well-kinded group back keeps the tree well kinded |
| TreeProperties.FromAttrsRender | internal/tree/group.go:30-41 | reading a rendered well-kinded tree back gives the tree |
| TreeProperties.RenderFromAttrs | internal/tree/group.go:30-41 | rendering the tree a batch describes gives the batch back |
| TreeProperties.MergeAllFresh | internal/tree/group.go:63-71 | a batch of new, duplicate-free keys is appended as the batch describes it |
| TreeProperties.MergeAttrFresh | internal/tree/group.go:63-71 | a new key is appended as the attribute describes it, at every depth |
| TreeProperties.RenderMergeIntoEmpty | internal/tree/group.go:67-69 | merging a duplicate-free batch into an empty group and rendering it gives the batch back |
| TreeProperties.RenderSnoc | internal/tree/group.go:30-41 | rendering a group with an entry appended appends that entry's attribute to the rendering |
| Tree.Entry.constructor | internal/tree/group.go:65 | the composite literal `&value{...}`: an entry holding exactly the given name, scalar and sub-group |
| Tree.Entry.LogValue | internal/tree/value.go:11-16 | a group entry's value is the group value of its sub-group's Render; a scalar entry's value is its scalar |
| Tree.Entry.Clone | internal/tree/value.go:18-28 | a fresh entry with the same name. A group entry gets a fresh copy of its sub-group and the zero scalar; a scalar entry shares the scalar and has no sub-group |
| Tree.Group.constructor | handler.go:24 | a new group is valid and empty |
| Tree.Group.Render | internal/tree/group.go:30-41 | fills a fresh array, entry by entry, with exactly TreeModel.Render of the group's contents |
| Tree.Group.LogValue | internal/tree/group.go:13-15 | a group value holding the group's rendering |
| Tree.Group.Clone | internal/tree/group.go:17-28 | a valid copy with the same contents (hence the same Render) all of whose objects are fresh |
| Tree.Group.Append | internal/tree/group.go:65 | appending an entry that shares nothing with the group adds it at the end and keeps the group valid |
| Tree.Group.Replace | internal/tree/group.go:75 | assigning such an entry at an index replaces that element only and keeps the group valid |
| Tree.Group.First | internal/tree/group.go:92-96 | the scan of last returns TreeModel.FirstMatch |
| Tree.Group.MatchIndex | internal/tree/group.go:56-61 | the scan of merge ends at TreeModel.LastMatch |
| Tree.Group.MergeAttr | internal/tree/group.go:56-84 | the new contents are TreeModel.MergeAttr of the old ones; the group stays valid and only gains fresh objects |
| Tree.Group.AddEntry | internal/tree/group.go:63-71 | with no entry of the key, the new contents are TreeModel.MergeAttr of the old ones (one entry appended); the group stays valid and only gains fresh objects |
| Tree.Group.NewSubGroup | internal/tree/group.go:67-68 | a valid group, all of whose objects are fresh, holding the fold of the batch into an empty group |
| Tree.Group.MergeIntoEntry | internal/tree/group.go:79-84 | a group onto a matched entry changes only that entry, to a group holding the fold of the incoming fields into its old sub-group, or into an empty one when it was scalar-kind |
| Tree.Group.MergeChild | internal/tree/group.go:84 | merging into a group entry's sub-group changes only that entry, to the fold of the batch into its old sub-group |
| Tree.Group.MergeUnder | internal/tree/group.go:94 | the recursive step of merge's descent changes only the entry descended into |
| Tree.Group.Merge | internal/tree/group.go:43-50 | succeeds exactly when TreeModel.MergeAt does, and then leaves exactly its result |
| Tree.Last | internal/tree/group.go:87-99 | returns a group exactly when TreeModel.Last succeeds: that group, inside the input's footprint. A nil group stays nil |
| Tree.MergeOne | internal/tree/group.go:53-85 | succeeds exactly when TreeModel.MergeOne does, and then leaves exactly its result |
| Tree.ValidWellKinded | internal/tree/value.go:5-9 | in a valid tree no scalar field holds a group value, at any depth |
| Meld.MergeUnderPath | handler.go:49-57 | merging under a path that resolves, into a tree with distinct names, succeeds. It folds the batch into the path's target, keeps the path resolving and keeps names distinct |
| Meld.GroupNamed | handler.go:59-66 | the group WithGroup(name) opens: the group `last` finds under `[name]`, or an empty group where `last` would panic (no entry `name`, or a scalar one) |
| Meld.OpenGroup | handler.go:61 | merging an empty group `name` leaves an entry `name` that last finds. It holds the old group entry's contents, or nothing where the entry was missing or scalar |
| Meld.WithGroupTarget | handler.go:59-67 | after WithGroup(name), the extended path leads to the group `name` under the old path, with any existing group contents preserved |
| Meld.HandleStep | handler.go:38-43 | merging the next record attribute under the path succeeds, keeps names distinct, and together with the rest of the record folds the whole remainder into the target |
| Meld.Handler.constructor | handler.go:21-25 | the composite literal `&handler{...}`: a handler holding exactly the given path and tree |
| Meld.NewHandler | handler.go:20-26 | an empty path and a fresh, empty, valid tree |
| Meld.Handler.WithAttrs | handler.go:49-57 | a fresh handler with the same path. Its tree is a fresh copy with the batch merged under the path; the receiver is not modified |
| Meld.Handler.WithGroup | handler.go:59-67 | a fresh handler whose path is extended by `name`. Its tree is a fresh copy with an empty group `name` merged under the old path; the new target is that group, keeping existing contents |
| Meld.Handler.Handle | handler.go:32-47 | with no record attributes, the tree's rendering. Otherwise the rendering of the tree with the record's attributes merged under the path; the handler is not modified |
| MeldExamples.NoAttrs | handler_test.go:22-27 | a bare record passes no attribute on |
| MeldExamples.SetOnce | handler_test.go:28-33 | `foo=bar` is passed on |
| MeldExamples.SetTwice | handler_test.go:34-41 | `foo=bar` then `foo=baz` passes on `foo=baz` alone |
| MeldExamples.GroupIntoGroup | handler_test.go:42-50 | group alice merged twice keeps `bar`, updates `foo`, appends `qux`; `bob` follows |
| MeldExamples.ScalarThenGroup | handler_test.go:51-59 | scalar alice replaced, in place, by a group of only the incoming fields |
| MeldExamples.RecordAttrs | handler_test.go:60-67 | a record attribute merges like one added with With |
| MeldExamples.GroupedRecord | handler_test.go:68-76 | after WithGroup("bob") the record attribute lands in group bob, after alice |
| MeldExamples.GroupsThenScalar | handler_test.go:77-85 | group, group, then scalar on alice leaves one scalar alice, first; group bob follows |
| MeldExamples.AddAtRoot | handler_test.go:68-85 | `With(attrs...)` on a logger with an empty path leaves the tree the merge of the batch describes |
| MeldExamples.LogUnderBob | handler_test.go:68-85 | `WithGroup("bob").Info(..., "foo", "lorem_ipsum")` on a tree without bob passes on the tree's attributes followed by group bob holding foo |
| GoSlice.Grown | handler.go:64 | for a full capacity of 0 or a power of two below 256, `append` allocates more room: twice the old capacity (1 from empty), which is again such a capacity while it stays below 256 |
| GoSlice.Append | handler.go:64 | `append` reads as the old slice followed by the element. With spare capacity it writes the element into the cell after the slice's last element in the shared array; otherwise it copies into a fresh array of the grown capacity and leaves the old one unchanged |
| PathAliasing.SiblingPaths | handler.go:59-66 | three WithGroup appends leave [a b c] with capacity 4; after appending d and then e to it, both results read [a b c e] |
| PathAliasing.OpenChain | handler.go:59-66 | on a tree made only by WithGroup calls, the path leads to the last, empty group, and WithGroup(name) extends the chain by one group |
| PathAliasing.ChainMisses | internal/tree/group.go:87-99 | a path that leaves such a chain at its last step does not resolve, so `last` panics |
| PathAliasing.Open | handler.go:59-66 | WithGroup on a handler whose tree is the chain of its path gives a valid handler whose tree is the chain of the extended path |
| PathAliasing.SiblingHandlers | handler.go:59-66 | WithGroup("d") and WithGroup("e") on the handler for a.b.c each get their own extended path and their own chain |
| PathAliasing.StaleSiblingPath | handler.go:59-66 | the path the d-handler reads once its sibling exists, [a b c e], does not resolve in its tree; the immutable path [a b c d] does |

## Left out

- The `sync.RWMutex` in `Group` and its locking (internal/tree/group.go:9, 20-21, 33-34, 44-45): the model is single-threaded.
- The value kinds of `log/slog`, `Kind()` dispatch and the internals of `slog.Value`: a scalar is an opaque `S`, and a value is `Zero`, a scalar or a group.
- `slog.GroupValue` drops empty groups from values it builds, and `Record.AddAttrs` drops empty groups among the attributes it is given; this model keeps them (an empty group renders as an empty group value). `NewHandler(next).WithGroup("bob")` handling a bare record, say, passes `[bob={}]` to `AddAttrs`, and the new record ends up without `bob`.
- `Group.LogValue` as an implementation of the `slog.LogValuer` interface: only its result is modelled.
- `handler.Enabled`, the `context.Context`, building the new record (`slog.NewRecord`, `AddAttrs`) and the call to `next.Handle` (handler.go:28-30, 33, 46). These are foreign calls. `Handle` returns the attributes it passes to `AddAttrs`, before `AddAttrs` drops empty groups among them. The `next` field is not modelled.
- The aliasing of `append(h.stack, name)` (handler.go:64) in the handler itself: `Meld.Handler` keeps its path as an immutable sequence. In Go, two `WithGroup` calls on the same handler write the same cell of one backing array when it has spare capacity. The earlier handler's path then names the later one's group: its next `WithAttrs`, or a `Handle` with record attributes, panics in `last` when no such group exists under the path, and merges into the wrong group when one does. `PathAliasing` exhibits the panic case; only `GoSlice.Append` models the shared array.
- GoSlice.Grown: the runtime's growth rule is modelled only for a full capacity of 0 or a power of two below 256. These are the only full capacities a path grown from nil by `append` passes through before 256. At other capacities (17, say) the runtime rounds the doubled size up to a size class, giving 36 rather than 34.
- GoSlice.Append: requires a full slice to have such a capacity, for the same reason.
- The match scan of `merge` follows per-iteration loop variables (Go 1.22 and later). Pre-1.22 semantics are not modelled.
- Tree.MergeOne: resolves the stack while it merges instead of first taking the group `last` returns. The ghost state of every group on the path has to be updated on the way back; `last` itself is modelled by `Tree.Last`.
- Tree.Group.Clone: appends the copied entries one by one instead of filling a slice preallocated with `make`; the resulting sequence is the same.
- A panic leaves the model in an unspecified state: after a failed `Tree.Group.Merge` or `Tree.MergeOne` only the footprint frame is known. In the source the goroutine unwinds.
- Text and JSON output formatting, `slogtest` and the benchmarks of handler_test.go: the examples compare the attributes passed on, not the formatted line.

## Findings

| source | as written | input that shows it | evidently intended | confidence | as-written member | corrected member |
|---|---|---|---|---|---|---|
| handler.go:64 | `stack: append(h.stack, name)` writes into `h.stack`'s backing array whenever it has spare capacity, so sibling handlers share the cell for their last path name | `h3 := NewHandler(next).WithGroup("a").WithGroup("b").WithGroup("c")` (length 3, capacity 4); `hd := h3.WithGroup("d")`; `h3.WithGroup("e")`; then `hd.WithAttrs(...)` or `hd.Handle` with a record attribute panics in `last`, since hd's path now reads [a b c e] | each handler keeps its own path, as the doc comment of NewHandler (handler.go:16-17) promises that a handler's state never changes once it is made; e.g. `append(h.stack[:len(h.stack):len(h.stack)], name)` | not executed | PathAliasing.StaleSiblingPath | Meld.Handler.WithGroup |
