/**
 * The sourcemap projection (`recurse_create_node`): a read-only walk of a `RojoTree`
 * that turns each instance into a `SourcemapNode` carrying its name, class, the files
 * it comes from (relative to the project directory) and its projected children.
 *
 * The filesystem is not modelled: whether a path is an existing file and how a path
 * is made relative to the project directory come in as a `FileSystem` value.
 */
module Sourcemap {
  import opened Wrappers
  import opened Seqs
  import opened Dom
  import opened Snapshot
  import opened Tree

  /** `Path::is_file`, and `Path::strip_prefix` against the project directory (None for `Err`). */
  datatype FileSystem = FileSystem(isFile: Path -> bool, stripPrefix: (Path, Path) -> Option<Path>, projectDir: Path)

  /** `SourcemapNode`: one instance of the sourcemap. */
  datatype SourcemapNode = SourcemapNode(name: string, className: string, filePaths: seq<Path>, children: seq<SourcemapNode>)

  /** What one relevant path contributes: its stripped form when it is an existing file under the project directory. */
  function FilePath(p: Path, fs: FileSystem): (r: seq<Path>)
    ensures |r| <= 1
    ensures r != [] <==> fs.isFile(p) && fs.stripPrefix(p, fs.projectDir).Some?
    ensures r != [] ==> r[0] == fs.stripPrefix(p, fs.projectDir).value
  {
    if fs.isFile(p) && fs.stripPrefix(p, fs.projectDir).Some? then [fs.stripPrefix(p, fs.projectDir).value] else []
  }

  /**
   * The `file_paths` of a node: the relevant paths that are existing files and lie under
   * the project directory, made relative to it, in their original order.
   */
  function FilePaths(paths: seq<Path>, fs: FileSystem): (r: seq<Path>)
    ensures |r| <= |paths|
  {
    if paths == [] then [] else FilePath(paths[0], fs) + FilePaths(paths[1..], fs)
  }

  /** A path is listed exactly when some relevant path is a file under the project directory that strips to it. */
  lemma {:induction false} FilePathsMembers(paths: seq<Path>, fs: FileSystem)
    ensures forall q :: q in FilePaths(paths, fs) <==>
      exists p :: p in paths && fs.isFile(p) && fs.stripPrefix(p, fs.projectDir) == Some(q)
  {
    if paths != [] {
      FilePathsMembers(paths[1..], fs);
      assert forall p :: p in paths <==> p == paths[0] || p in paths[1..];
    }
  }

  /** `file_paths` is computed path by path, in order: the result for a concatenation is the concatenation of the results. */
  lemma {:induction false} FilePathsAppend(a: seq<Path>, b: seq<Path>, fs: FileSystem)
    ensures FilePaths(a + b, fs) == FilePaths(a, fs) + FilePaths(b, fs)
  {
    if a == [] {
      assert a + b == b;
    } else {
      assert (a + b)[1..] == a[1..] + b;
      FilePathsAppend(a[1..], b, fs);
    }
  }

  /** ... and the result for one path is that path's own. */
  lemma FilePathsSingle(p: Path, fs: FileSystem)
    ensures FilePaths([p], fs) == FilePath(p, fs)
  {
    assert [p][1..] == [];
  }

  // ----- The projection as written -----

  /**
   * `recurse_create_node`: the instance `referent` must be live (`expect`). Its children
   * are projected in order, dropping the `None`s; an instance whose projected children
   * are empty is dropped, whatever its file paths.
   */
  function RecurseCreateNode(tree: RojoTree, referent: Ref, fs: FileSystem): (r: Option<SourcemapNode>)
    reads tree
    requires tree.Valid() && referent in tree.nodes
    decreases tree.nextRef - referent, |tree.nodes[referent].children| + 1
    ensures r.Some? ==> r.value.name == tree.nodes[referent].name && r.value.className == tree.nodes[referent].className
    ensures r.Some? ==> r.value.filePaths == FilePaths(tree.metadata[referent].relevantPaths, fs)
    ensures r.Some? <==> ProjectedChildren(tree, referent, 0, fs) != []
  {
    var node := tree.nodes[referent];
    var children := ProjectedChildren(tree, referent, 0, fs);
    if children == [] then None
    else Some(SourcemapNode(node.name, node.className, FilePaths(tree.metadata[referent].relevantPaths, fs), children))
  }

  /** The `filter_map` over the children of `referent` from the `i`-th on. */
  function ProjectedChildren(tree: RojoTree, referent: Ref, i: nat, fs: FileSystem): (r: seq<SourcemapNode>)
    reads tree
    requires tree.Valid() && referent in tree.nodes && i <= |tree.nodes[referent].children|
    decreases tree.nextRef - referent, |tree.nodes[referent].children| - i
    ensures |r| <= |tree.nodes[referent].children| - i
  {
    var cs := tree.nodes[referent].children;
    if i == |cs| then []
    else
      assert ChildrenLinked(tree.nodes, referent);
      assert cs[i] in cs;
      var head := RecurseCreateNode(tree, cs[i], fs);
      (if head.Some? then [head.value] else []) + ProjectedChildren(tree, referent, i + 1, fs)
  }

  /** Whatever the tree and the filesystem, the projection as written drops every instance. */
  lemma {:induction false} RecurseCreateNodeNone(tree: RojoTree, referent: Ref, fs: FileSystem)
    requires tree.Valid() && referent in tree.nodes
    ensures RecurseCreateNode(tree, referent, fs) == None
    decreases tree.nextRef - referent, |tree.nodes[referent].children| + 1
  {
    ProjectedChildrenEmpty(tree, referent, 0, fs);
  }

  /** ... because every child is dropped, so no instance ever has projected children. */
  lemma {:induction false} ProjectedChildrenEmpty(tree: RojoTree, referent: Ref, i: nat, fs: FileSystem)
    requires tree.Valid() && referent in tree.nodes && i <= |tree.nodes[referent].children|
    ensures ProjectedChildren(tree, referent, i, fs) == []
    decreases tree.nextRef - referent, |tree.nodes[referent].children| - i
  {
    var cs := tree.nodes[referent].children;
    if i < |cs| {
      assert ChildrenLinked(tree.nodes, referent);
      assert cs[i] in cs;
      RecurseCreateNodeNone(tree, cs[i], fs);
      ProjectedChildrenEmpty(tree, referent, i + 1, fs);
    }
  }

  // ----- The projection with the comment's filter, read as "has a file path" -----

  /**
   * The comment's pruning rule, "no children and doesn't pass the filter", with the filter
   * (which the comment does not define and the code never applies) read as "has a file path
   * under the project directory": an instance is dropped only when it has no projected
   * children and no file paths. Otherwise as `RecurseCreateNode`.
   */
  function FilteredCreateNode(tree: RojoTree, referent: Ref, fs: FileSystem): (r: Option<SourcemapNode>)
    reads tree
    requires tree.Valid() && referent in tree.nodes
    decreases tree.nextRef - referent, |tree.nodes[referent].children| + 1
    ensures r.Some? ==> r.value.name == tree.nodes[referent].name && r.value.className == tree.nodes[referent].className
    ensures r.Some? ==> r.value.filePaths == FilePaths(tree.metadata[referent].relevantPaths, fs)
    ensures r.Some? ==> r.value.filePaths != [] || r.value.children != []
  {
    var node := tree.nodes[referent];
    var children := FilteredChildren(tree, referent, 0, fs);
    var filePaths := FilePaths(tree.metadata[referent].relevantPaths, fs);
    if children == [] && filePaths == [] then None
    else Some(SourcemapNode(node.name, node.className, filePaths, children))
  }

  /** The `filter_map` of `FilteredCreateNode` over the children of `referent` from the `i`-th on. */
  function FilteredChildren(tree: RojoTree, referent: Ref, i: nat, fs: FileSystem): (r: seq<SourcemapNode>)
    reads tree
    requires tree.Valid() && referent in tree.nodes && i <= |tree.nodes[referent].children|
    decreases tree.nextRef - referent, |tree.nodes[referent].children| - i
    ensures |r| <= |tree.nodes[referent].children| - i
  {
    var cs := tree.nodes[referent].children;
    if i == |cs| then []
    else
      assert ChildrenLinked(tree.nodes, referent);
      assert cs[i] in cs;
      var head := FilteredCreateNode(tree, cs[i], fs);
      (if head.Some? then [head.value] else []) + FilteredChildren(tree, referent, i + 1, fs)
  }

  /** The projections of the children of `referent` from the `i`-th on, `None`s included, in child order. */
  ghost function ChildProjections(tree: RojoTree, referent: Ref, i: nat, fs: FileSystem): (r: seq<Option<SourcemapNode>>)
    reads tree
    requires tree.Valid() && referent in tree.nodes && i <= |tree.nodes[referent].children|
    decreases |tree.nodes[referent].children| - i
    ensures |r| == |tree.nodes[referent].children| - i
  {
    var cs := tree.nodes[referent].children;
    if i == |cs| then []
    else
      assert ChildrenLinked(tree.nodes, referent);
      assert cs[i] in cs;
      [FilteredCreateNode(tree, cs[i], fs)] + ChildProjections(tree, referent, i + 1, fs)
  }

  /** The kept children are the `Some` projections of the children, in child order. */
  lemma {:induction false} FilteredChildrenInOrder(tree: RojoTree, referent: Ref, i: nat, fs: FileSystem)
    requires tree.Valid() && referent in tree.nodes && i <= |tree.nodes[referent].children|
    ensures FilteredChildren(tree, referent, i, fs) == FilterSome(ChildProjections(tree, referent, i, fs))
    decreases |tree.nodes[referent].children| - i
  {
    var cs := tree.nodes[referent].children;
    if i < |cs| {
      assert ChildrenLinked(tree.nodes, referent);
      assert cs[i] in cs;
      FilteredChildrenInOrder(tree, referent, i + 1, fs);
      var head := FilteredCreateNode(tree, cs[i], fs);
      var ps, rest := ChildProjections(tree, referent, i, fs), ChildProjections(tree, referent, i + 1, fs);
      assert ps == [head] + rest;
      assert ps[1..] == rest;
      assert FilterSome(ps) == (if head.Some? then [head.value] else []) + FilterSome(rest);
    }
  }

  /** No instance of the subtree of `x` comes from a file under the project directory. */
  ghost predicate Fileless(tree: RojoTree, x: Ref, fs: FileSystem)
    reads tree
    requires tree.Valid()
  {
    forall y :: y in Subtree(tree.nodes, x) ==> FilePaths(tree.metadata[y].relevantPaths, fs) == []
  }

  /** `FilteredCreateNode` drops an instance exactly when nothing in its subtree comes from such a file. */
  lemma {:induction false} FilteredCreateNodeNone(tree: RojoTree, referent: Ref, fs: FileSystem)
    requires tree.Valid() && referent in tree.nodes
    ensures FilteredCreateNode(tree, referent, fs).None? <==> Fileless(tree, referent, fs)
    decreases tree.nextRef - referent, |tree.nodes[referent].children| + 1
  {
    var nodes := tree.nodes;
    var cs := nodes[referent].children;
    SubtreeUnfold(nodes, tree.rootRef, referent);
    FilteredChildrenNone(tree, referent, 0, fs);
    assert cs[0..] == cs;
  }

  /** The kept children from the `i`-th on are empty exactly when nothing below those children comes from a file. */
  lemma {:induction false} FilteredChildrenNone(tree: RojoTree, referent: Ref, i: nat, fs: FileSystem)
    requires tree.Valid() && referent in tree.nodes && i <= |tree.nodes[referent].children|
    ensures FilteredChildren(tree, referent, i, fs) == [] <==>
      forall y :: y in Forest(tree.nodes, tree.nodes[referent].children[i..]) && y in tree.metadata ==>
        FilePaths(tree.metadata[y].relevantPaths, fs) == []
    decreases tree.nextRef - referent, |tree.nodes[referent].children| - i
  {
    var cs := tree.nodes[referent].children;
    if i < |cs| {
      assert ChildrenLinked(tree.nodes, referent);
      assert cs[i] in cs;
      assert cs[i..][1..] == cs[i + 1..];
      FilteredCreateNodeNone(tree, cs[i], fs);
      FilteredChildrenNone(tree, referent, i + 1, fs);
    }
  }

  /** A filesystem where every path is a file and a path is stripped of `/project/` as a string prefix. */
  const ProjectFs: FileSystem := FileSystem(
    p => true,
    (p: Path, dir: Path) => if |dir| <= |p| && p[..|dir|] == dir then Some(p[|dir|..]) else None,
    "/project/")

  /** There, `/project/init.lua` is listed as `init.lua`. */
  lemma ProjectFsStrips()
    ensures FilePaths(["/project/init.lua"], ProjectFs) == ["init.lua"]
  {
    FilePathsSingle("/project/init.lua", ProjectFs);
    assert "/project/init.lua"[..|"/project/"|] == "/project/";
    assert "/project/init.lua"[|"/project/"|..] == "init.lua";
  }

  /**
   * A project of one script: the root instance comes from `/project/init.lua`, an existing
   * file under `/project/`. The projection as written drops it; the corrected rule of
   * `FilteredCreateNode` keeps it with its file.
   */
  method PruneCounterexample() returns (asWritten: Option<SourcemapNode>, corrected: Option<SourcemapNode>)
    ensures asWritten == None
    ensures corrected == Some(SourcemapNode("Root", "ModuleScript", ["init.lua"], []))
  {
    var snapshot := InstanceSnapshot("Root", "ModuleScript", map[], Metadata(["/project/init.lua"], None), []);
    var tree := new RojoTree(snapshot);
    var root := tree.GetRootId();
    assert tree.nodes[root].children == [] && tree.metadata[root] == snapshot.metadata;
    asWritten := RecurseCreateNode(tree, root, ProjectFs);
    ProjectFsStrips();
    corrected := FilteredCreateNode(tree, root, ProjectFs);
  }
}
