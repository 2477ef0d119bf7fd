# RojoTree and the sourcemap projection, in Dafny

This project models two parts of Rojo, the tool that mirrors a project on disk into a
Roblox instance tree.

**`RojoTree`** (`src/snapshot/tree.rs`) is the instance arena plus the data Rojo keeps
for each instance. That data is the instance's metadata: its relevant source paths and
an optional user-declared stable id (`RojoRef`). The tree also keeps two reverse indices
in step with the metadata. One maps a path to the instances that list it. The other maps
a stable id to the instances that declare it. The model is the class
`Tree.RojoTree`. It has the following fields:
- `nodes`: the arena;
- `rootRef`: the arena's root (`WeakDom::root_ref`);
- `nextRef`: the arena's ref allocator;
- `metadata`;
- `pathToIds` and `specifiedIdToRefs`.

Each method of the class updates these fields the way the Rust method does.

`Valid()` is the tree invariant:
- the arena is well formed;
- every live ref is below the allocator;
- metadata exists for exactly the live instances;
- both indices agree with the metadata.

The model proves that this invariant is kept by `new`, `insert_instance`, `remove` and
`update_metadata` on a live instance, and by renaming, re-classing and re-propertying an
instance through `get_instance_mut`. The public `set_specified_id` keeps
`Valid()` for a live ref; for a ref without metadata it still adds the ref to the id's
bucket, and the indices are then no longer consistent. The private helpers
`insert_metadata` and `remove_metadata` keep index consistency only:
`insert_metadata` runs right after the arena gains the instance
(`src/snapshot/tree.rs:126-127`, `:51-59`) and `remove_metadata` runs before the
arena drops it (`src/snapshot/tree.rs:141`, `:148`), so in between metadata and live
instances differ. The model
also proves what each operation computes or changes.

**`recurse_create_node`** (`src/sourcemap.rs`) is the read-only projection of the tree
into `SourcemapNode`s. It is modelled as a pair of mutually recursive functions over a
valid tree.

Modules:
- `Wrappers`: `Option`.
- `Seqs`: sequence helpers (`Without` for `retain`, `FilterSome` for `filter_map`).
- `MultiMap`: the multi-valued index, as `map<K, seq<V>>`.
- `Dom`: the `WeakDom` arena as a map from refs to nodes. It defines insertion, destruction, subtrees and depth.
- `Snapshot`: `InstanceSnapshot` and `InstanceMetadata`.
- `Tree`: `RojoTree`, its index invariants, the breadth-first walk and the pivot shim.
- `Sourcemap`: the projection, as written and corrected along its comment, with the comment's filter read as "has a file path under the project directory".

Where the source's own comments and its code disagree, the model follows the code:
- The doc comment on `path_to_ids` (`src/snapshot/tree.rs:28-34`) says only the root instances built from a path are listed and their descendants are not. The code indexes every instance's paths, because `insert_metadata` runs for every inserted instance (`src/snapshot/tree.rs:127`, `:229`).
- The comment at `src/sourcemap.rs:31-32` says an instance is dropped when it has no children and does not pass a filter. The comment does not say what the filter tests, and the code applies none: it checks only the children (`src/sourcemap.rs:33-35`). The corrected projection reads the filter as "has a file path under the project directory", the model's own reading; see "## Findings".

## Model

| member | source | states |
|---|---|---|
| Tree.PivotShim | src/snapshot/tree.rs:106-124 | keeps every snapshot property unchanged; adds exactly the key `NeedsPivotMigration`, and only for the eight pivot classes; an added value is `Bool(false)` and an explicit value is never overridden |
| Tree.PivotShimIdempotent | src/snapshot/tree.rs:106-124 | the shim applied to its own output changes nothing |
| Tree.SingletonIffSole | src/snapshot/tree.rs:209-216 | with a consistent stable-id index, a bucket is exactly `[x]` iff `x` is the one live instance declaring that id |
| Tree.SpecifiedIdIndexOk | src/snapshot/tree.rs:218-225 | after `set_specified_id` both indices stay consistent exactly when the ref was live |
| Tree.VacantIndexOk | src/snapshot/tree.rs:188-190 | metadata stored for a ref that had none, with the indices untouched, leaves them consistent iff it names no path and no stable id |
| Tree.PathIndexShrink | src/snapshot/tree.rs:252-254 | when the metadata of a set of refs is dropped and the path index stays consistent, exactly those refs leave it under every path |
| Tree.IdIndexShrink | src/snapshot/tree.rs:248-250 | the same for the stable-id index |
| Tree.IndexDetermined | src/snapshot/tree.rs:24-41 | two consistent indices for the same metadata list the same refs under every key |
| Tree.RojoTree.constructor | src/snapshot/tree.rs:45-66 | the tree is valid; the root has the snapshot's name, class and properties (no pivot shim) and its metadata; the root has one child per child snapshot, in order, each mirroring its snapshot |
| Tree.RojoTree.GetRootId | src/snapshot/tree.rs:72-74 | the root is live and has no parent |
| Tree.RojoTree.GetMetadata | src/snapshot/tree.rs:205-207 | `Some` exactly for live instances, with their metadata |
| Tree.RojoTree.GetInstance | src/snapshot/tree.rs:76-84 | `Some` exactly for live instances, with the instance and its metadata; needs metadata for every live instance, as the `unwrap` does |
| Tree.RojoTree.GetIdsAtPath | src/snapshot/tree.rs:201-203 | lists, each once, exactly the live instances whose metadata names the path |
| Tree.RojoTree.GetSpecifiedId | src/snapshot/tree.rs:209-216 | `Some(x)` iff `x` is the one and only live instance declaring the id; `None` when none or several do |
| Tree.RojoTree.IndexPaths | src/snapshot/tree.rs:228-230 | after the loop, the path index holds what it held plus the ref under each given path |
| Tree.RojoTree.UnindexPaths | src/snapshot/tree.rs:252-254 | after the loop, the path index holds what it held minus the ref under each given path |
| Tree.RojoTree.SetSpecifiedId | src/snapshot/tree.rs:218-225 | a live ref's stable id is replaced and the ref leaves its old bucket; it always joins the new bucket; the indices stay consistent iff the ref has metadata; a valid tree stays valid when the ref is live |
| Tree.RojoTree.InsertMetadata | src/snapshot/tree.rs:227-241 | the metadata is attached to a ref that had none, and both indices stay consistent |
| Tree.RojoTree.RemoveMetadata | src/snapshot/tree.rs:245-255 | the ref's metadata is dropped; the ref leaves exactly its own paths and its own stable id; consistency is kept |
| Tree.RojoTree.ReindexPaths | src/snapshot/tree.rs:162-170 | when the path lists differ, the ref leaves every old path and joins every new one; otherwise nothing changes |
| Tree.RojoTree.ReindexSpecifiedId | src/snapshot/tree.rs:171-184 | when the stable id changed, the ref joins the new bucket and leaves the old one; otherwise nothing changes |
| Tree.RojoTree.UpdateMetadata | src/snapshot/tree.rs:152-192 | the ref's metadata becomes the argument. A ref without metadata leaves both indices untouched; otherwise each index moves the ref as above. Consistency and validity are kept for a live ref. For a ref without metadata, consistency holds afterwards iff the new metadata names no path and no stable id |
| Tree.RojoTree.AttachNode | src/snapshot/tree.rs:126 | the arena gains a fresh childless node under the parent, appended to its children, and stays well formed; the new ref's subtree is just itself |
| Tree.RojoTree.CreateNode | src/snapshot/tree.rs:120-127 | the new instance has the snapshot's name, class and shimmed properties and its metadata; it is appended to the parent's children; everything else is unchanged; the tree stays valid |
| Tree.RojoTree.InsertInstance | src/snapshot/tree.rs:96-134 | the new subtree mirrors the snapshot: name, class, shimmed properties, metadata and child order. The parent gains the new root as its last child. Everything else is unchanged. The new refs are exactly the new root's subtree, and the tree stays valid |
| Tree.RojoTree.Remove | src/snapshot/tree.rs:136-149 | the arena becomes `destroy` of the instance; the live refs and the metadata lose exactly its subtree; the tree stays valid |
| Tree.RojoTree.Descendants | src/snapshot/tree.rs:266-283 | yields `id` first, then every instance of its subtree exactly once; the order is the first-in first-out queue's: after `id` come the children of the yielded instances, block after block in yield order and each block in child order (`ChildrenOf`); hence breadth first (non-decreasing depth) with each instance after its parent; every yielded instance has metadata |
| Tree.FifoStep | src/snapshot/tree.rs:267-280 | popping the queue's head and appending its children keeps yielded-plus-queued equal to `id` followed by the children of the yielded instances, in order |
| Tree.RojoTree.SetName | src/snapshot/tree.rs:347-349 | a live instance is renamed, and nothing else changes; a ref that is not live changes nothing; the tree stays valid |
| Tree.RojoTree.SetClassName | src/snapshot/tree.rs:355-357 | the same for the class |
| Tree.RojoTree.SetProperties | src/snapshot/tree.rs:363-365 | the same for the properties |
| Tree.RojoTree.InsertThenRemove | src/snapshot/tree.rs:96-149 | inserting a snapshot and removing the returned ref gives back the arena and the metadata; with `IndexDetermined`, both indices list the same refs as before |
| Tree.InsertClaimant | src/snapshot/tree.rs:392 | inserting a childless snapshot that declares an id adds exactly one live ref, and that ref is the only new claimant |
| Tree.InsertTwoClaimants | src/snapshot/tree.rs:392-396 | after the first insertion the lookup gives the new ref; after the second it gives `None` |
| Tree.SwapDupedSpecifiedIds | src/snapshot/tree.rs:385-400 | the three lookups of the test give `Some(original)`, `None` and `Some(duped)` |
| Dom.InsertWellFormed | src/snapshot/tree.rs:126 | inserting a fresh node under a live parent keeps the arena well formed |
| Dom.InsertedBelow | src/snapshot/tree.rs:126 | after the insertion, the refs below the new node are exactly the new ones |
| Dom.DestroyWellFormed | src/snapshot/tree.rs:148 | destroying a non-root instance keeps the arena well formed and removes exactly its subtree |
| Dom.DestroyUndoesInsert | src/snapshot/tree.rs:126-148 | destroying a freshly attached subtree gives back the arena it was attached to |
| MultiMap.Insert | src/snapshot/tree.rs:229 | adds the value to the key's bucket, changes nothing else, and keeps buckets non-empty and duplicate-free |
| MultiMap.Remove | src/snapshot/tree.rs:253 | removes the value from the key's bucket, changes nothing else, and keeps buckets non-empty and duplicate-free |
| MultiMap.SingletonBucket | src/snapshot/tree.rs:212-215 | a bucket is `[x]` iff `x` is its one and only member |
| Seqs.FilterSome | src/sourcemap.rs:25-29 | keeps the `Some` payloads; empty iff every entry is `None` |
| Sourcemap.FilePath | src/sourcemap.rs:42-44 | one path contributes its stripped form iff it is a file that strips against the project directory |
| Sourcemap.FilePaths | src/sourcemap.rs:37-45 | no longer than the relevant paths |
| Sourcemap.FilePathsMembers | src/sourcemap.rs:37-45 | lists exactly the stripped forms of the relevant paths that are files under the project directory |
| Sourcemap.FilePathsAppend | src/sourcemap.rs:37-45 | computed path by path in order: the result for `a + b` is the result for `a` followed by the result for `b` |
| Sourcemap.FilePathsSingle | src/sourcemap.rs:42-44 | a single path gives its own contribution |
| Sourcemap.RecurseCreateNode | src/sourcemap.rs:18-53 | needs a live referent. A `Some` result copies the name and class and carries the instance's file paths. The result is `Some` iff the projected children are non-empty |
| Sourcemap.ProjectedChildren | src/sourcemap.rs:25-29 | no more projected children than children |
| Sourcemap.RecurseCreateNodeNone | src/sourcemap.rs:25-35 | the projection as written is `None` for every live instance of every valid tree |
| Sourcemap.ProjectedChildrenEmpty | src/sourcemap.rs:25-35 | as written, every instance's projected children are empty |
| Sourcemap.FilteredCreateNode | src/sourcemap.rs:31-52 | the comment's rule with its filter read as "has a file path": a `Some` result copies name and class and carries file paths or children |
| Sourcemap.FilteredChildren | src/sourcemap.rs:25-29 | no more kept children than children |
| Sourcemap.FilteredChildrenInOrder | src/sourcemap.rs:25-29 | the kept children are the `Some` projections of the children, in child order |
| Sourcemap.FilteredCreateNodeNone | src/sourcemap.rs:31-35 | under that corrected rule, an instance is dropped iff no instance of its subtree has a file path |
| Sourcemap.FilteredChildrenNone | src/sourcemap.rs:31-35 | the kept children are empty iff no instance below them has a file path |
| Sourcemap.PruneCounterexample | src/sourcemap.rs:33-35 | a one-instance tree whose instance comes from a file: the code gives `None`, the corrected rule gives the node with that file |

## Left out

- `WeakDom` (the `rbx_dom_weak` arena) is not part of this model. It is replaced by `Dom`: a map from refs to nodes with the link invariant `WellFormed`. `insert` hands out the next ref and appends the new node to the parent's children. `destroy` drops the whole subtree and takes the ref out of its parent's children.
- Destroying the root is not modelled. `Remove` requires a non-root ref, the assumed `WeakDom` contract.
- `MultiMap`'s source is not part of this model. Buckets are modelled as sequences: `insert` appends a value that is absent, and `remove` filters the value out and drops an emptied bucket. Contracts speak of bucket membership, and of order only through "exactly `[x]`".
- Refs are unbounded naturals from a counter that never reuses a ref. `InsertThenRemove` does not restore the counter.
- `log::error!` on duplicate stable ids is logging only and is left out.
- `inner()`, `InstanceWithMeta`'s read accessors, `id()` and `parent()` are plain field reads and have no members of their own.
- `get_instance_mut` is modelled by the three mutations it is used for (`SetName`, `SetClassName`, `SetProperties`), not as a borrowed handle.
- `Variant`, `Ustr` and `UstrMap` are replaced by an opaque property value (plus `Bool`) and plain strings.
- `RojoDescendants` is lazy. `Descendants` models it iterated to the end as one loop; a partially consumed iterator is not modelled. Its `expect` panics are its precondition (a live `id`).
- `rayon`'s `par_iter` is modelled as a sequential, order-preserving `filter_map`.
- `Path::is_file` and `Path::strip_prefix` are filesystem and path-library behaviour. They come in as the `FileSystem` parameter. `PruneCounterexample` uses a string-prefix stand-in for `strip_prefix`.
- Paths are compared as plain strings. `PathBuf` equality and hashing go by path components, so `a/b`, `a/b/` and `a//b` are one key in `path_to_ids` and equal in the `relevant_paths !=` test of `update_metadata`; in the model they are distinct keys, so `GetIdsAtPath` finds only refs indexed under the very same string.
- `serde` derives and `skip_serializing_if` on `SourcemapNode` concern serialisation only.
- `src/lib.rs` holds only module declarations.
- Tree.RojoTree.Remove: the index changes are not stated in its own contract. They follow from the `Valid()` it keeps together with `PathIndexShrink` and `IdIndexShrink`.
- Tree.RojoTree.InsertThenRemove: index equality is stated through `IndexDetermined`, as equal membership under every key, not as equal maps. Bucket order may differ.
- Tree.RojoTree.InsertMetadata, Tree.RojoTree.RemoveMetadata: these state index consistency (`IndexOk`), not the whole `Valid()`. Their callers (`new`, `insert_instance`, `remove`) re-establish `Valid()`.
- Tree.SwapDupedSpecifiedIds: the test's default snapshot (`InstanceSnapshot::new()`) is modelled with placeholder name and class strings, since only the metadata matters.
- Sourcemap.RecurseCreateNode: the child-order statement (`Some` children in child order) is proved for the corrected rule (`FilteredChildrenInOrder`). For the code as written it is vacuous, since every result is `None`.

## Findings

| source | as written | input that shows it | evidently intended | confidence | as-written member | corrected member |
|---|---|---|---|---|---|---|
| src/sourcemap.rs:31-35 | an instance is dropped whenever its projected children are empty; the filter named in the comment is never checked, so by induction every instance of every tree is dropped | a tree of one instance whose relevant path `/project/init.lua` is an existing file under `/project/`: the result is `None` | drop an instance only when it has no projected children and does not pass the filter, reading the filter, which the comment leaves undefined, as "has a file path under the project directory"; file-backed instances and their ancestors then survive | not executed | Sourcemap.RecurseCreateNodeNone | Sourcemap.FilteredCreateNodeNone |
