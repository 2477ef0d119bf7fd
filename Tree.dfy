/**
 * `RojoTree`: the instance arena plus Rojo's per-instance metadata and the two
 * reverse indices kept in step with it, from source path to instances and from
 * user-declared stable id to instances.
 */
module Tree {
  import opened Wrappers
  import opened Seqs
  import MultiMap
  import opened Dom
  import opened Snapshot

  // ----- The pivot compatibility shim -----

  /** Classes descending from Model, which need `NeedsPivotMigration` to build pivots correctly. */
  const PivotClasses: set<string> :=
    {"Model", "Actor", "Tool", "HopperBin", "Flag", "WorldModel", "Workspace", "Status"}

  const NeedsPivotMigration: string := "NeedsPivotMigration"

  /**
   * The properties `insert_instance` gives a new instance: the snapshot's own, plus
   * `NeedsPivotMigration = false` for a pivot class whose snapshot does not set it.
   */
  function PivotShim(className: string, properties: Properties): (r: Properties)
    ensures forall k :: k in properties ==> k in r && r[k] == properties[k]
    ensures NeedsPivotMigration in r ==> NeedsPivotMigration in properties || r[NeedsPivotMigration] == Bool(false)
    ensures r.Keys == properties.Keys + (if className in PivotClasses then {NeedsPivotMigration} else {})
  {
    var hack := if className in PivotClasses && NeedsPivotMigration !in properties
      then map[NeedsPivotMigration := Bool(false)]
      else map[];
    hack + properties
  }

  /** Applying the shim to properties it already produced changes nothing. */
  lemma PivotShimIdempotent(className: string, properties: Properties)
    ensures PivotShim(className, PivotShim(className, properties)) == PivotShim(className, properties)
  {
    var once := PivotShim(className, properties);
    var twice := PivotShim(className, once);
    assert twice.Keys == once.Keys;
  }

  // ----- Index consistency, as relations between metadata and an index -----

  /** A ref is listed under a path exactly when it is live and its metadata names the path. */
  ghost predicate PathIndexOk(metadata: map<Ref, Metadata>, index: map<Path, seq<Ref>>)
  {
    && MultiMap.Valid(index)
    && forall p, x :: x in MultiMap.Get(index, p) <==> x in metadata && p in metadata[x].relevantPaths
  }

  /** A ref is listed under a stable id exactly when it is live and its metadata declares that id. */
  ghost predicate IdIndexOk(metadata: map<Ref, Metadata>, index: map<RojoRef, seq<Ref>>)
  {
    && MultiMap.Valid(index)
    && forall s, x :: x in MultiMap.Get(index, s) <==> x in metadata && metadata[x].specifiedId == Some(s)
  }

  /** `x` is live and declares the stable id `s`. */
  ghost predicate Claims(metadata: map<Ref, Metadata>, x: Ref, s: RojoRef)
  {
    x in metadata && metadata[x].specifiedId == Some(s)
  }

  /** `x` is the one and only live ref declaring `s`. */
  ghost predicate SoleClaimant(metadata: map<Ref, Metadata>, x: Ref, s: RojoRef)
  {
    Claims(metadata, x, s) && forall y :: Claims(metadata, y, s) ==> y == x
  }

  /** With a consistent index, a stable id's bucket is `[x]` iff `x` is its sole live claimant. */
  lemma SingletonIffSole(metadata: map<Ref, Metadata>, index: map<RojoRef, seq<Ref>>, s: RojoRef)
    requires IdIndexOk(metadata, index)
    ensures forall x: Ref :: MultiMap.Get(index, s) == [x] <==> SoleClaimant(metadata, x, s)
  {
    var b := MultiMap.Get(index, s);
    forall x: Ref ensures b == [x] <==> SoleClaimant(metadata, x, s) {
      MultiMap.SingletonBucket(index, s, x);
      forall y ensures y in b <==> Claims(metadata, y, s) {
      }
    }
  }

  /** An index stays consistent when one ref's metadata changes and only that ref's entries follow it. */
  lemma PathIndexLocal(metadata: map<Ref, Metadata>, index: map<Path, seq<Ref>>,
                       metadata': map<Ref, Metadata>, index': map<Path, seq<Ref>>, id: Ref)
    requires PathIndexOk(metadata, index) && MultiMap.Valid(index')
    requires forall x :: x != id ==> (x in metadata' <==> x in metadata)
    requires forall x :: x != id && x in metadata ==> metadata'[x].relevantPaths == metadata[x].relevantPaths
    requires forall p, x :: x != id ==> (x in MultiMap.Get(index', p) <==> x in MultiMap.Get(index, p))
    requires forall p :: id in MultiMap.Get(index', p) <==> id in metadata' && p in metadata'[id].relevantPaths
    ensures PathIndexOk(metadata', index')
  {
  }

  /** The same for the stable-id index. */
  lemma IdIndexLocal(metadata: map<Ref, Metadata>, index: map<RojoRef, seq<Ref>>,
                     metadata': map<Ref, Metadata>, index': map<RojoRef, seq<Ref>>, id: Ref)
    requires IdIndexOk(metadata, index) && MultiMap.Valid(index')
    requires forall x :: x != id ==> (x in metadata' <==> x in metadata)
    requires forall x :: x != id && x in metadata ==> metadata'[x].specifiedId == metadata[x].specifiedId
    requires forall s, x :: x != id ==> (x in MultiMap.Get(index', s) <==> x in MultiMap.Get(index, s))
    requires forall s :: id in MultiMap.Get(index', s) <==> Claims(metadata', id, s)
    ensures IdIndexOk(metadata', index')
  {
  }

  /** After `set_specified_id`, the indices stay consistent exactly when `id` was live. */
  lemma SpecifiedIdIndexOk(metadata: map<Ref, Metadata>, paths: map<Path, seq<Ref>>, ids: map<RojoRef, seq<Ref>>,
                           metadata': map<Ref, Metadata>, ids': map<RojoRef, seq<Ref>>, id: Ref, specified: RojoRef)
    requires PathIndexOk(metadata, paths) && IdIndexOk(metadata, ids) && MultiMap.Valid(ids')
    requires metadata' == if id in metadata
      then metadata[id := metadata[id].(specifiedId := Some(specified))]
      else metadata
    requires forall s, x :: x in MultiMap.Get(ids', s) <==>
      || (x == id && s == specified)
      || (x in MultiMap.Get(ids, s) && !(x == id && Claims(metadata, id, s)))
    ensures PathIndexOk(metadata', paths) && IdIndexOk(metadata', ids') <==> id in metadata
  {
    if id in metadata {
      PathIndexLocal(metadata, paths, metadata', paths, id);
      IdIndexLocal(metadata, ids, metadata', ids', id);
    } else {
      assert id in MultiMap.Get(ids', specified) && !Claims(metadata', id, specified);
    }
  }

  /** Metadata stored for a ref that had none, the indices untouched, stays consistent iff it names no path and no stable id. */
  lemma VacantIndexOk(metadata: map<Ref, Metadata>, paths: map<Path, seq<Ref>>, ids: map<RojoRef, seq<Ref>>,
                      id: Ref, m: Metadata)
    requires PathIndexOk(metadata, paths) && IdIndexOk(metadata, ids) && id !in metadata
    ensures PathIndexOk(metadata[id := m], paths) && IdIndexOk(metadata[id := m], ids)
      <==> m.relevantPaths == [] && m.specifiedId == None
  {
    var metadata' := metadata[id := m];
    if m.relevantPaths != [] {
      assert id !in MultiMap.Get(paths, m.relevantPaths[0]) && m.relevantPaths[0] in metadata'[id].relevantPaths;
    } else if m.specifiedId.Some? {
      assert id !in MultiMap.Get(ids, m.specifiedId.value) && Claims(metadata', id, m.specifiedId.value);
    } else {
      PathIndexLocal(metadata, paths, metadata', paths, id);
      IdIndexLocal(metadata, ids, metadata', ids, id);
    }
  }

  /** Dropping the metadata of a set of refs takes exactly those refs out of a consistent path index. */
  lemma PathIndexShrink(metadata: map<Ref, Metadata>, index: map<Path, seq<Ref>>,
                        metadata': map<Ref, Metadata>, index': map<Path, seq<Ref>>, gone: set<Ref>, p: Path, x: Ref)
    requires PathIndexOk(metadata, index) && PathIndexOk(metadata', index') && metadata' == metadata - gone
    ensures x in MultiMap.Get(index', p) <==> x in MultiMap.Get(index, p) && x !in gone
  {
    assert x in MultiMap.Get(index', p) <==> x in metadata' && p in metadata'[x].relevantPaths;
    assert x in MultiMap.Get(index, p) <==> x in metadata && p in metadata[x].relevantPaths;
  }

  /** The same for the stable-id index. */
  lemma IdIndexShrink(metadata: map<Ref, Metadata>, index: map<RojoRef, seq<Ref>>,
                      metadata': map<Ref, Metadata>, index': map<RojoRef, seq<Ref>>, gone: set<Ref>, s: RojoRef, x: Ref)
    requires IdIndexOk(metadata, index) && IdIndexOk(metadata', index') && metadata' == metadata - gone
    ensures x in MultiMap.Get(index', s) <==> x in MultiMap.Get(index, s) && x !in gone
  {
    assert x in MultiMap.Get(index', s) <==> Claims(metadata', x, s);
    assert x in MultiMap.Get(index, s) <==> Claims(metadata, x, s);
  }

  /** The metadata determines which refs two consistent indices list under each key. */
  lemma IndexDetermined(metadata: map<Ref, Metadata>, paths: map<Path, seq<Ref>>, paths': map<Path, seq<Ref>>,
                        ids: map<RojoRef, seq<Ref>>, ids': map<RojoRef, seq<Ref>>, p: Path, s: RojoRef, x: Ref)
    requires PathIndexOk(metadata, paths) && PathIndexOk(metadata, paths')
    requires IdIndexOk(metadata, ids) && IdIndexOk(metadata, ids')
    ensures x in MultiMap.Get(paths, p) <==> x in MultiMap.Get(paths', p)
    ensures x in MultiMap.Get(ids, s) <==> x in MultiMap.Get(ids', s)
  {
    assert x in MultiMap.Get(paths, p) <==> x in metadata && p in metadata[x].relevantPaths;
    assert x in MultiMap.Get(paths', p) <==> x in metadata && p in metadata[x].relevantPaths;
    assert x in MultiMap.Get(ids, s) <==> Claims(metadata, x, s);
    assert x in MultiMap.Get(ids', s) <==> Claims(metadata, x, s);
  }

  // ----- The shape `insert_instance` gives the instances it creates -----

  /** The subtree at `r` was built from snapshot `s`: same names, classes, shimmed properties, metadata and child order. */
  ghost predicate Mirrors(nodes: Nodes, metadata: map<Ref, Metadata>, r: Ref, s: InstanceSnapshot)
    decreases s
  {
    && r in nodes && r in metadata
    && nodes[r].name == s.name
    && nodes[r].className == s.className
    && nodes[r].properties == PivotShim(s.className, s.properties)
    && metadata[r] == s.metadata
    && |nodes[r].children| == |s.children|
    && forall i :: 0 <= i < |s.children| ==> Mirrors(nodes, metadata, nodes[r].children[i], s.children[i])
  }

  /** A mirrored subtree stays mirrored when nothing at or above its root's ref changes. */
  lemma {:induction false} MirrorsKept(nodes: Nodes, metadata: map<Ref, Metadata>, nodes': Nodes, metadata': map<Ref, Metadata>,
                                       root: Ref, r: Ref, s: InstanceSnapshot)
    requires WellFormed(nodes, root) && Mirrors(nodes, metadata, r, s)
    requires forall x :: x in nodes && r <= x ==> x in nodes' && nodes'[x] == nodes[x]
    requires forall x :: x in metadata && r <= x ==> x in metadata' && metadata'[x] == metadata[x]
    ensures Mirrors(nodes', metadata', r, s)
    decreases s
  {
    assert ChildrenLinked(nodes, r);
    forall i | 0 <= i < |s.children|
      ensures Mirrors(nodes', metadata', nodes'[r].children[i], s.children[i])
    {
      var c := nodes[r].children[i];
      assert c in nodes[r].children;
      MirrorsKept(nodes, metadata, nodes', metadata', root, c, s.children[i]);
    }
  }

  /** Appending a mirrored child `c` to `r` keeps the earlier children mirrored. */
  lemma ChildAppendedMirrors(before: Nodes, beforeMeta: map<Ref, Metadata>, after: Nodes, afterMeta: map<Ref, Metadata>,
                             root: Ref, r: Ref, c: Ref, snapshots: seq<InstanceSnapshot>, i: nat)
    requires WellFormed(before, root) && r in before && r in after
    requires i < |snapshots| && |before[r].children| == i
    requires forall j :: 0 <= j < i ==> Mirrors(before, beforeMeta, before[r].children[j], snapshots[j])
    requires Mirrors(after, afterMeta, c, snapshots[i])
    requires after[r].children == before[r].children + [c]
    requires forall x :: x in before && x != r ==> x in after && after[x] == before[x]
    requires forall x :: x in beforeMeta ==> x in afterMeta && afterMeta[x] == beforeMeta[x]
    ensures forall j :: 0 <= j < i + 1 ==> Mirrors(after, afterMeta, after[r].children[j], snapshots[j])
  {
    assert ChildrenLinked(before, r);
    forall j | 0 <= j < i + 1 ensures Mirrors(after, afterMeta, after[r].children[j], snapshots[j]) {
      if j < i {
        var cj := before[r].children[j];
        assert after[r].children[j] == cj && cj in before[r].children;
        MirrorsKept(before, beforeMeta, after, afterMeta, root, cj, snapshots[j]);
      }
    }
  }

  /** When the refs added to an arena are exactly those below a fresh `r`, the new keys are `r`'s subtree. */
  lemma NewKeysBelow(before: Nodes, after: Nodes, r: Ref)
    requires forall x :: x in before ==> x in after && x < r
    requires forall x :: x in after ==> (x !in before <==> Descends(after, r, x))
    ensures after.Keys == before.Keys + Subtree(after, r)
  {
    forall x | x in before ensures x !in Subtree(after, r) {
      NotDescendsBelow(after, r, x);
    }
  }

  // ----- The breadth-first walk of `descendants` -----

  /** Refs of `s` never get shallower, counted in levels below `r`, from left to right. */
  ghost predicate LevelSorted(nodes: Nodes, r: Ref, s: seq<Ref>)
  {
    forall i, j :: 0 <= i < j < |s| ==> Depth(nodes, r, s[i]) <= Depth(nodes, r, s[j])
  }

  /** Every ref of `s` after the first has its parent earlier in `s`. */
  ghost predicate ParentsFirst(nodes: Nodes, s: seq<Ref>)
  {
    forall j :: 0 < j < |s| ==>
      s[j] in nodes && nodes[s[j]].parent.Some? && nodes[s[j]].parent.value in s[..j]
  }

  /** The children of the refs of `s`, block after block in the order of `s`: what a first-in first-out walk queues. */
  ghost function ChildrenOf(nodes: Nodes, s: seq<Ref>): seq<Ref>
  {
    if s == [] then []
    else
      var last := s[|s| - 1];
      ChildrenOf(nodes, s[..|s| - 1]) + (if last in nodes then nodes[last].children else [])
  }

  /** Yielding one more ref queues its children after all those queued so far. */
  lemma ChildrenOfAppend(nodes: Nodes, s: seq<Ref>, x: Ref)
    requires x in nodes
    ensures ChildrenOf(nodes, s + [x]) == ChildrenOf(nodes, s) + nodes[x].children
  {
    assert (s + [x])[..|s|] == s;
  }

  /** Popping the queue's head and queueing its children keeps the queue equal to the children of the yielded refs. */
  lemma FifoStep(nodes: Nodes, id: Ref, order: seq<Ref>, queue: seq<Ref>)
    requires queue != [] && queue[0] in nodes
    requires order + queue == [id] + ChildrenOf(nodes, order)
    ensures var x := queue[0];
      (order + [x]) + (queue[1..] + nodes[x].children) == [id] + ChildrenOf(nodes, order + [x])
  {
    var x := queue[0];
    ChildrenOfAppend(nodes, order, x);
    assert queue == [x] + queue[1..];
    assert (order + [x]) + (queue[1..] + nodes[x].children) == (order + queue) + nodes[x].children;
  }

  /** The parent of `x` is live and in `s`. */
  ghost predicate ParentIn(nodes: Nodes, x: Ref, s: seq<Ref>)
  {
    x in nodes && nodes[x].parent.Some? && nodes[x].parent.value in s
  }

  /**
   * A state of the walk below `id`: `order` has been yielded, `queue` is pending. Together
   * they cover the subtree without overlap, `order` is level-sorted and ends no deeper
   * than the queue's head, and the queue spans at most two adjacent levels.
   */
  ghost predicate Walking(nodes: Nodes, root: Ref, id: Ref, order: seq<Ref>, queue: seq<Ref>)
  {
    && WellFormed(nodes, root) && id in nodes
    && DisjointRoots(nodes, queue)
    && (forall x :: x in Subtree(nodes, id) <==> x in order || x in Forest(nodes, queue))
    && (forall x :: x in order ==> x !in Forest(nodes, queue))
    && NoDup(order)
    && (order == [] ==> queue == [id])
    && (order != [] ==> order[0] == id)
    && LevelSorted(nodes, id, order)
    && LevelSorted(nodes, id, queue)
    && (forall i :: 0 <= i < |queue| ==> Depth(nodes, id, queue[i]) <= Depth(nodes, id, queue[0]) + 1)
    && (order != [] && queue != [] ==> Depth(nodes, id, order[|order| - 1]) <= Depth(nodes, id, queue[0]))
    && ParentsFirst(nodes, order)
    && (order != [] ==> forall i :: 0 <= i < |queue| ==> ParentIn(nodes, queue[i], order))
  }

  /** Each child of an instance below `id` lies one level deeper than it. */
  lemma ChildrenDepth(nodes: Nodes, root: Ref, id: Ref, x: Ref)
    requires WellFormed(nodes, root) && x in Subtree(nodes, id)
    ensures forall c :: c in nodes[x].children ==> Depth(nodes, id, c) == Depth(nodes, id, x) + 1
  {
    assert ChildrenLinked(nodes, x);
    DescendsAbove(nodes, id, x);
  }

  /** The walk starts with nothing yielded and `id` pending. */
  lemma WalkStart(nodes: Nodes, root: Ref, id: Ref)
    requires WellFormed(nodes, root) && id in nodes
    ensures Walking(nodes, root, id, [], [id])
  {
    assert [id][1..] == [];
    assert Forest(nodes, [id]) == Subtree(nodes, id);
  }

  /** One step of the walk: yield the queue's head and queue its children. */
  lemma WalkStep(nodes: Nodes, root: Ref, id: Ref, order: seq<Ref>, queue: seq<Ref>)
    requires Walking(nodes, root, id, order, queue) && queue != []
    ensures queue[0] in nodes
    ensures var next := queue[1..] + nodes[queue[0]].children;
      && Walking(nodes, root, id, order + [queue[0]], next)
      && Forest(nodes, next) < Forest(nodes, queue)
  {
    WalkStepCover(nodes, root, id, order, queue);
    WalkStepLevels(nodes, root, id, order, queue);
    WalkStepParents(nodes, root, id, order, queue);
  }

  /** A step keeps the yielded and pending refs an exact, disjoint cover of the subtree. */
  lemma WalkStepCover(nodes: Nodes, root: Ref, id: Ref, order: seq<Ref>, queue: seq<Ref>)
    requires Walking(nodes, root, id, order, queue) && queue != []
    ensures queue[0] in nodes && queue[0] in Subtree(nodes, id)
    ensures var x, next := queue[0], queue[1..] + nodes[queue[0]].children;
      && DisjointRoots(nodes, next)
      && (forall y :: y in Subtree(nodes, id) <==> y in order + [x] || y in Forest(nodes, next))
      && (forall y :: y in order + [x] ==> y !in Forest(nodes, next))
      && NoDup(order + [x])
      && (order + [x])[0] == id
      && Forest(nodes, next) < Forest(nodes, queue)
  {
    var x, next := queue[0], queue[1..] + nodes[queue[0]].children;
    PopHead(nodes, root, queue);
    assert x in Subtree(nodes, x);
    assert x in Forest(nodes, queue);
    assert x !in order;
    var o := order + [x];
    forall i, j | 0 <= i < j < |o| ensures o[i] != o[j] {
      if j == |order| {
        assert o[i] == order[i] && order[i] in order;
      } else {
        assert o[i] == order[i] && o[j] == order[j];
      }
    }
  }

  /** A step keeps the yielded refs level-sorted and the queue within two adjacent levels. */
  lemma WalkStepLevels(nodes: Nodes, root: Ref, id: Ref, order: seq<Ref>, queue: seq<Ref>)
    requires WellFormed(nodes, root) && queue != [] && queue[0] in Subtree(nodes, id)
    requires LevelSorted(nodes, id, order) && LevelSorted(nodes, id, queue)
    requires forall i :: 0 <= i < |queue| ==> Depth(nodes, id, queue[i]) <= Depth(nodes, id, queue[0]) + 1
    requires order != [] ==> Depth(nodes, id, order[|order| - 1]) <= Depth(nodes, id, queue[0])
    ensures queue[0] in nodes
    ensures var x, next := queue[0], queue[1..] + nodes[queue[0]].children;
      && LevelSorted(nodes, id, order + [x])
      && LevelSorted(nodes, id, next)
      && (forall i :: 0 <= i < |next| ==> Depth(nodes, id, next[i]) <= Depth(nodes, id, next[0]) + 1)
      && (next != [] ==> Depth(nodes, id, x) <= Depth(nodes, id, next[0]))
  {
    var cs := nodes[queue[0]].children;
    ChildrenDepth(nodes, root, id, queue[0]);
    assert forall i :: 0 <= i < |cs| ==> Depth(nodes, id, cs[i]) == Depth(nodes, id, queue[0]) + 1 by {
      forall i | 0 <= i < |cs| ensures Depth(nodes, id, cs[i]) == Depth(nodes, id, queue[0]) + 1 {
        assert cs[i] in cs;
      }
    }
    QueueLevels(nodes, id, queue, cs);
    OrderLevels(nodes, id, order, queue[0]);
  }

  /** Popping the head of a level-sorted queue and appending refs one level below it keeps the queue level-sorted. */
  lemma QueueLevels(nodes: Nodes, id: Ref, queue: seq<Ref>, cs: seq<Ref>)
    requires queue != [] && LevelSorted(nodes, id, queue)
    requires forall i :: 0 <= i < |queue| ==> Depth(nodes, id, queue[i]) <= Depth(nodes, id, queue[0]) + 1
    requires forall i :: 0 <= i < |cs| ==> Depth(nodes, id, cs[i]) == Depth(nodes, id, queue[0]) + 1
    ensures var next := queue[1..] + cs;
      && LevelSorted(nodes, id, next)
      && (forall i :: 0 <= i < |next| ==> Depth(nodes, id, next[i]) <= Depth(nodes, id, next[0]) + 1)
      && (next != [] ==> Depth(nodes, id, queue[0]) <= Depth(nodes, id, next[0]))
  {
    QueueBounds(nodes, id, queue, cs);
    QueueSorted(nodes, id, queue, cs);
  }

  /** The sortedness half of `QueueLevels`. */
  lemma QueueSorted(nodes: Nodes, id: Ref, queue: seq<Ref>, cs: seq<Ref>)
    requires queue != [] && LevelSorted(nodes, id, queue)
    requires forall i :: 0 <= i < |cs| ==> Depth(nodes, id, cs[i]) == Depth(nodes, id, queue[0]) + 1
    requires var d, next := Depth(nodes, id, queue[0]), queue[1..] + cs;
      forall i :: 0 <= i < |next| ==> d <= Depth(nodes, id, next[i]) <= d + 1
    ensures LevelSorted(nodes, id, queue[1..] + cs)
  {
    var rest, next := queue[1..], queue[1..] + cs;
    forall i, j | 0 <= i < j < |next| ensures Depth(nodes, id, next[i]) <= Depth(nodes, id, next[j]) {
      if j < |rest| {
        assert next[i] == queue[i + 1] && next[j] == queue[j + 1];
      } else {
        assert next[j] == cs[j - |rest|];
      }
    }
  }

  /** After popping the head, every queued ref lies on the head's level or the next. */
  lemma QueueBounds(nodes: Nodes, id: Ref, queue: seq<Ref>, cs: seq<Ref>)
    requires queue != [] && LevelSorted(nodes, id, queue)
    requires forall i :: 0 <= i < |queue| ==> Depth(nodes, id, queue[i]) <= Depth(nodes, id, queue[0]) + 1
    requires forall i :: 0 <= i < |cs| ==> Depth(nodes, id, cs[i]) == Depth(nodes, id, queue[0]) + 1
    ensures var d, next := Depth(nodes, id, queue[0]), queue[1..] + cs;
      forall i :: 0 <= i < |next| ==> d <= Depth(nodes, id, next[i]) <= d + 1
  {
    var rest, next := queue[1..], queue[1..] + cs;
    var d := Depth(nodes, id, queue[0]);
    forall i | 0 <= i < |next| ensures d <= Depth(nodes, id, next[i]) <= d + 1 {
      if i < |rest| { assert next[i] == queue[i + 1]; } else { assert next[i] == cs[i - |rest|]; }
    }
  }

  /** Appending a ref no shallower than the last keeps a level-sorted sequence level-sorted. */
  lemma OrderLevels(nodes: Nodes, id: Ref, order: seq<Ref>, x: Ref)
    requires LevelSorted(nodes, id, order)
    requires order != [] ==> Depth(nodes, id, order[|order| - 1]) <= Depth(nodes, id, x)
    ensures LevelSorted(nodes, id, order + [x])
  {
    var o := order + [x];
    forall i, j | 0 <= i < j < |o| ensures Depth(nodes, id, o[i]) <= Depth(nodes, id, o[j]) {
      if j < |order| {
        assert o[i] == order[i] && o[j] == order[j];
      } else {
        assert o[i] == order[i];
        assert i < |order| - 1 ==> Depth(nodes, id, order[i]) <= Depth(nodes, id, order[|order| - 1]);
      }
    }
  }

  /** Appending a ref whose parent (if it is not the first) was yielded keeps parents first. */
  lemma OrderParents(nodes: Nodes, id: Ref, order: seq<Ref>, x: Ref)
    requires ParentsFirst(nodes, order)
    requires order == [] ==> x == id
    requires order != [] ==> ParentIn(nodes, x, order)
    ensures ParentsFirst(nodes, order + [x])
  {
    var o := order + [x];
    forall j | 0 < j < |o| ensures o[j] in nodes && nodes[o[j]].parent.Some? && nodes[o[j]].parent.value in o[..j] {
      if j < |order| {
        assert o[..j] == order[..j];
      } else {
        assert o[..j] == order;
      }
    }
  }

  /** A step keeps every yielded ref after its parent and every queued ref's parent yielded. */
  lemma WalkStepParents(nodes: Nodes, root: Ref, id: Ref, order: seq<Ref>, queue: seq<Ref>)
    requires Walking(nodes, root, id, order, queue) && queue != []
    ensures queue[0] in nodes
    ensures var x, next := queue[0], queue[1..] + nodes[queue[0]].children;
      && ParentsFirst(nodes, order + [x])
      && forall i :: 0 <= i < |next| ==> ParentIn(nodes, next[i], order + [x])
  {
    var x, rest, cs := queue[0], queue[1..], nodes[queue[0]].children;
    var next, o := rest + cs, order + [x];
    WalkStepCover(nodes, root, id, order, queue);
    assert ChildrenLinked(nodes, x);
    OrderParents(nodes, id, order, x);
    forall i | 0 <= i < |next| ensures ParentIn(nodes, next[i], o) {
      if i < |rest| {
        assert next[i] == queue[i + 1] && ParentIn(nodes, queue[i + 1], order);
      } else {
        assert next[i] == cs[i - |rest|] && next[i] in cs;
      }
    }
  }

  // ----- The tree -----

  class RojoTree {
    /** `inner`: the instances, without their metadata. */
    var nodes: Nodes
    var rootRef: Ref
    /** The arena's ref allocator: every live ref is below it and it only grows. */
    var nextRef: Ref
    /** `metadata_map` */
    var metadata: map<Ref, Metadata>
    /** `path_to_ids` */
    var pathToIds: map<Path, seq<Ref>>
    /** `specified_id_to_refs` */
    var specifiedIdToRefs: map<RojoRef, seq<Ref>>

    /** Both indices agree with the metadata. */
    ghost predicate IndexOk()
      reads this`metadata, this`pathToIds, this`specifiedIdToRefs
    {
      PathIndexOk(metadata, pathToIds) && IdIndexOk(metadata, specifiedIdToRefs)
    }

    /** The tree invariant: a well-formed arena, metadata for exactly the live instances, consistent indices. */
    ghost predicate Valid()
      reads this
    {
      && WellFormed(nodes, rootRef)
      && (forall x :: x in nodes ==> x < nextRef)
      && metadata.Keys == nodes.Keys
      && IndexOk()
    }

    /**
     * `RojoTree::new`: a root built from the snapshot's class, name and properties
     * (without the pivot shim), its metadata, then each child snapshot inserted in order.
     */
    constructor (snapshot: InstanceSnapshot)
      ensures Valid()
      ensures nodes[rootRef].name == snapshot.name && nodes[rootRef].className == snapshot.className
      ensures nodes[rootRef].properties == snapshot.properties
      ensures metadata[rootRef] == snapshot.metadata
      ensures |nodes[rootRef].children| == |snapshot.children|
      ensures forall i :: 0 <= i < |snapshot.children| ==>
        Mirrors(nodes, metadata, nodes[rootRef].children[i], snapshot.children[i])
    {
      nodes := map[0 := Node(snapshot.name, snapshot.className, snapshot.properties, [], None)];
      rootRef := 0;
      nextRef := 1;
      metadata := map[];
      pathToIds := map[];
      specifiedIdToRefs := map[];
      new;
      InsertMetadata(0, snapshot.metadata);
      for i := 0 to |snapshot.children|
        invariant Valid() && rootRef == 0
        invariant nodes[0].name == snapshot.name && nodes[0].className == snapshot.className
        invariant nodes[0].properties == snapshot.properties
        invariant metadata[0] == snapshot.metadata
        invariant |nodes[0].children| == i
        invariant forall j :: 0 <= j < i ==> Mirrors(nodes, metadata, nodes[0].children[j], snapshot.children[j])
      {
        ghost var before, beforeMeta := nodes, metadata;
        var c := InsertInstance(0, snapshot.children[i]);
        ChildAppendedMirrors(before, beforeMeta, nodes, metadata, 0, 0, c, snapshot.children, i);
      }
    }

    /** `get_root_id` */
    function GetRootId(): (r: Ref)
      reads this
      requires Valid()
      ensures r in nodes && nodes[r].parent == None
    {
      rootRef
    }

    /** `get_metadata`: present exactly for live instances. */
    function GetMetadata(id: Ref): (r: Option<Metadata>)
      reads this
      requires Valid()
      ensures r.Some? <==> id in nodes
      ensures r.Some? ==> r.value == metadata[id]
    {
      if id in metadata then Some(metadata[id]) else None
    }

    /** `get_instance`: the instance with its metadata, or None when `id` is not live. */
    function GetInstance(id: Ref): (r: Option<(Node, Metadata)>)
      reads this
      requires id in nodes ==> id in metadata
      ensures r.Some? <==> id in nodes
      ensures r.Some? ==> r.value.0 == nodes[id] && r.value.1 == metadata[id]
    {
      if id in nodes then Some((nodes[id], metadata[id])) else None
    }

    /** `get_ids_at_path`: the live instances whose metadata names `path`, each once. */
    function GetIdsAtPath(path: Path): (r: seq<Ref>)
      reads this
      requires Valid()
      ensures forall x :: x in r <==> x in nodes && path in metadata[x].relevantPaths
      ensures NoDup(r)
    {
      MultiMap.Get(pathToIds, path)
    }

    /**
     * `get_specified_id`: the one live instance declaring `specified`, or None when
     * no instance or more than one declares it.
     */
    function GetSpecifiedId(specified: RojoRef): (r: Option<Ref>)
      reads this
      requires Valid()
      ensures forall x: Ref :: r == Some(x) <==> SoleClaimant(metadata, x, specified)
    {
      var bucket := MultiMap.Get(specifiedIdToRefs, specified);
      SingletonIffSole(metadata, specifiedIdToRefs, specified);
      if |bucket| == 1 then
        assert bucket == [bucket[0]];
        Some(bucket[0])
      else
        None
    }

    /** Adds `id` under every path of `paths` in the path index. */
    method IndexPaths(paths: seq<Path>, id: Ref)
      requires MultiMap.Valid(pathToIds)
      modifies this`pathToIds
      ensures MultiMap.Valid(pathToIds)
      ensures forall p, x :: x in MultiMap.Get(pathToIds, p) <==>
        x in MultiMap.Get(old(pathToIds), p) || (x == id && p in paths)
    {
      for i := 0 to |paths|
        invariant MultiMap.Valid(pathToIds)
        invariant forall p, x :: x in MultiMap.Get(pathToIds, p) <==>
          x in MultiMap.Get(old(pathToIds), p) || (x == id && p in paths[..i])
      {
        assert paths[..i + 1] == paths[..i] + [paths[i]];
        pathToIds := MultiMap.Insert(pathToIds, paths[i], id);
      }
      assert paths[..|paths|] == paths;
    }

    /** Takes `id` out from under every path of `paths` in the path index. */
    method UnindexPaths(paths: seq<Path>, id: Ref)
      requires MultiMap.Valid(pathToIds)
      modifies this`pathToIds
      ensures MultiMap.Valid(pathToIds)
      ensures forall p, x :: x in MultiMap.Get(pathToIds, p) <==>
        x in MultiMap.Get(old(pathToIds), p) && !(x == id && p in paths)
    {
      for i := 0 to |paths|
        invariant MultiMap.Valid(pathToIds)
        invariant forall p, x :: x in MultiMap.Get(pathToIds, p) <==>
          x in MultiMap.Get(old(pathToIds), p) && !(x == id && p in paths[..i])
      {
        assert paths[..i + 1] == paths[..i] + [paths[i]];
        pathToIds := MultiMap.Remove(pathToIds, paths[i], id);
      }
      assert paths[..|paths|] == paths;
    }

    /**
     * `set_specified_id`: a live `id` gets `specified` as its stable id and leaves its
     * old one's bucket; in every case `id` is added to `specified`'s bucket. The tree
     * indices stay consistent exactly when `id` has metadata, and a valid tree stays valid
     * when `id` is live.
     */
    method SetSpecifiedId(id: Ref, specified: RojoRef)
      requires MultiMap.Valid(specifiedIdToRefs)
      modifies this`metadata, this`specifiedIdToRefs
      ensures metadata == if id in old(metadata)
        then old(metadata)[id := old(metadata)[id].(specifiedId := Some(specified))]
        else old(metadata)
      ensures MultiMap.Valid(specifiedIdToRefs)
      ensures forall s, x :: x in MultiMap.Get(specifiedIdToRefs, s) <==>
        || (x == id && s == specified)
        || (x in MultiMap.Get(old(specifiedIdToRefs), s) && !(x == id && Claims(old(metadata), id, s)))
      ensures old(IndexOk()) ==> (IndexOk() <==> id in old(metadata))
      ensures old(Valid()) && id in old(nodes) ==> Valid()
    {
      if id in metadata {
        var existing := metadata[id];
        metadata := metadata[id := existing.(specifiedId := Some(specified))];
        assert metadata.Keys == old(metadata).Keys;
        if existing.specifiedId.Some? {
          specifiedIdToRefs := MultiMap.Remove(specifiedIdToRefs, existing.specifiedId.value, id);
        }
      }
      assert forall s, x :: x in MultiMap.Get(specifiedIdToRefs, s) <==>
        x in MultiMap.Get(old(specifiedIdToRefs), s) && !(x == id && Claims(old(metadata), id, s));
      specifiedIdToRefs := MultiMap.Insert(specifiedIdToRefs, specified, id);
      if old(IndexOk()) {
        SpecifiedIdIndexOk(old(metadata), pathToIds, old(specifiedIdToRefs), metadata, specifiedIdToRefs, id, specified);
      }
    }

    /** `insert_metadata`: attaches metadata to a ref that has none and indexes it. */
    method InsertMetadata(id: Ref, m: Metadata)
      requires IndexOk() && id !in metadata
      modifies this`metadata, this`pathToIds, this`specifiedIdToRefs
      ensures metadata == old(metadata)[id := m]
      ensures IndexOk()
    {
      IndexPaths(m.relevantPaths, id);
      if m.specifiedId.Some? {
        SetSpecifiedId(id, m.specifiedId.value);
      }
      metadata := metadata[id := m];
      PathIndexLocal(old(metadata), old(pathToIds), metadata, pathToIds, id);
      IdIndexLocal(old(metadata), old(specifiedIdToRefs), metadata, specifiedIdToRefs, id);
    }

    /** `remove_metadata`: detaches the metadata of `id` and takes `id` out of both indices. */
    method RemoveMetadata(id: Ref)
      requires id in metadata
      requires MultiMap.Valid(pathToIds) && MultiMap.Valid(specifiedIdToRefs)
      modifies this`metadata, this`pathToIds, this`specifiedIdToRefs
      ensures metadata == old(metadata) - {id}
      ensures MultiMap.Valid(pathToIds) && MultiMap.Valid(specifiedIdToRefs)
      ensures forall p, x :: x in MultiMap.Get(pathToIds, p) <==>
        x in MultiMap.Get(old(pathToIds), p) && !(x == id && p in old(metadata)[id].relevantPaths)
      ensures forall s, x :: x in MultiMap.Get(specifiedIdToRefs, s) <==>
        x in MultiMap.Get(old(specifiedIdToRefs), s) && !(x == id && old(metadata)[id].specifiedId == Some(s))
      ensures old(IndexOk()) ==> IndexOk()
    {
      var m := metadata[id];
      metadata := metadata - {id};
      if m.specifiedId.Some? {
        specifiedIdToRefs := MultiMap.Remove(specifiedIdToRefs, m.specifiedId.value, id);
      }
      UnindexPaths(m.relevantPaths, id);
      if old(IndexOk()) {
        PathIndexLocal(old(metadata), old(pathToIds), metadata, pathToIds, id);
        IdIndexLocal(old(metadata), old(specifiedIdToRefs), metadata, specifiedIdToRefs, id);
      }
    }

    /** The path-index half of `update_metadata`: when the path lists differ, `id` moves from every old path to every new one. */
    method ReindexPaths(id: Ref, before: seq<Path>, after: seq<Path>)
      requires MultiMap.Valid(pathToIds)
      modifies this`pathToIds
      ensures MultiMap.Valid(pathToIds)
      ensures forall p, x :: x in MultiMap.Get(pathToIds, p) <==>
        if before == after || x != id
        then x in MultiMap.Get(old(pathToIds), p)
        else p in after || (x in MultiMap.Get(old(pathToIds), p) && p !in before)
    {
      if before != after {
        UnindexPaths(before, id);
        IndexPaths(after, id);
      }
    }

    /** The stable-id half of `update_metadata`: when the id changed, `id` joins the new bucket, then leaves the old one. */
    method ReindexSpecifiedId(id: Ref, before: Option<RojoRef>, after: Option<RojoRef>)
      requires MultiMap.Valid(specifiedIdToRefs)
      modifies this`specifiedIdToRefs
      ensures MultiMap.Valid(specifiedIdToRefs)
      ensures forall s, x :: x in MultiMap.Get(specifiedIdToRefs, s) <==>
        if before == after || x != id
        then x in MultiMap.Get(old(specifiedIdToRefs), s)
        else after == Some(s) || (x in MultiMap.Get(old(specifiedIdToRefs), s) && before != Some(s))
    {
      if before != after {
        if after.Some? {
          specifiedIdToRefs := MultiMap.Insert(specifiedIdToRefs, after.value, id);
        }
        if before.Some? {
          specifiedIdToRefs := MultiMap.Remove(specifiedIdToRefs, before.value, id);
        }
      }
    }

    /**
     * `update_metadata`: replaces the metadata of `id`. A ref with no metadata simply
     * gets it, the indices untouched. Otherwise, when the path lists differ, `id` moves
     * from every old path to every new one; when the stable id changed, `id` joins the
     * new id's bucket before it leaves the old one's.
     */
    method UpdateMetadata(id: Ref, m: Metadata)
      requires MultiMap.Valid(pathToIds) && MultiMap.Valid(specifiedIdToRefs)
      modifies this`metadata, this`pathToIds, this`specifiedIdToRefs
      ensures metadata == old(metadata)[id := m]
      ensures MultiMap.Valid(pathToIds) && MultiMap.Valid(specifiedIdToRefs)
      ensures id !in old(metadata) ==>
        pathToIds == old(pathToIds) && specifiedIdToRefs == old(specifiedIdToRefs)
      ensures id in old(metadata) ==> forall p, x :: x in MultiMap.Get(pathToIds, p) <==>
        if old(metadata)[id].relevantPaths == m.relevantPaths || x != id
        then x in MultiMap.Get(old(pathToIds), p)
        else p in m.relevantPaths || (x in MultiMap.Get(old(pathToIds), p) && p !in old(metadata)[id].relevantPaths)
      ensures id in old(metadata) ==> forall s, x :: x in MultiMap.Get(specifiedIdToRefs, s) <==>
        if old(metadata)[id].specifiedId == m.specifiedId || x != id
        then x in MultiMap.Get(old(specifiedIdToRefs), s)
        else m.specifiedId == Some(s) || (x in MultiMap.Get(old(specifiedIdToRefs), s) && old(metadata)[id].specifiedId != Some(s))
      ensures old(IndexOk()) && id in old(metadata) ==> IndexOk()
      ensures old(Valid()) && id in old(nodes) ==> Valid()
      ensures old(IndexOk()) && id !in old(metadata) ==>
        (IndexOk() <==> m.relevantPaths == [] && m.specifiedId == None)
    {
      if id in metadata {
        var existing := metadata[id];
        ReindexPaths(id, existing.relevantPaths, m.relevantPaths);
        ReindexSpecifiedId(id, existing.specifiedId, m.specifiedId);
        metadata := metadata[id := m];
        assert metadata.Keys == old(metadata).Keys;
        if old(IndexOk()) {
          PathIndexLocal(old(metadata), old(pathToIds), metadata, pathToIds, id);
          IdIndexLocal(old(metadata), old(specifiedIdToRefs), metadata, specifiedIdToRefs, id);
        }
      } else {
        metadata := metadata[id := m];
        if old(IndexOk()) {
          VacantIndexOk(old(metadata), pathToIds, specifiedIdToRefs, id, m);
        }
      }
    }

    /**
     * The first half of `insert_instance`: the new instance itself, childless, with the
     * pivot shim applied, appended to `parent`'s children, its metadata attached and indexed.
     */
    method CreateNode(parent: Ref, snapshot: InstanceSnapshot) returns (r: Ref)
      requires Valid() && parent in nodes
      modifies this
      ensures Valid() && rootRef == old(rootRef) && r == old(nextRef) && r < nextRef
      ensures r in nodes && nodes[r] == Node(snapshot.name, snapshot.className,
        PivotShim(snapshot.className, snapshot.properties), [], Some(parent))
      ensures metadata[r] == snapshot.metadata
      ensures parent in nodes && nodes[parent] == old(nodes)[parent].(children := old(nodes)[parent].children + [r])
      ensures forall x :: x in old(nodes) && x != parent ==> x in nodes && nodes[x] == old(nodes)[x]
      ensures forall x :: x in old(metadata) ==> x in metadata && metadata[x] == old(metadata)[x]
      ensures forall x :: x in old(nodes) ==> x < r
      ensures forall x :: x in nodes ==> (x !in old(nodes) <==> Descends(nodes, r, x))
    {
      var properties := PivotShim(snapshot.className, snapshot.properties);
      r := AttachNode(parent, snapshot.name, snapshot.className, properties);
      InsertMetadata(r, snapshot.metadata);
    }

    /** `WeakDom::insert` on the arena: a fresh childless node under `parent`, from the ref allocator. */
    method AttachNode(parent: Ref, name: string, className: string, properties: Properties) returns (r: Ref)
      requires WellFormed(nodes, rootRef) && parent in nodes && forall x :: x in nodes ==> x < nextRef
      modifies this`nodes, this`nextRef
      ensures r == old(nextRef) && nextRef == r + 1 && r !in old(nodes)
      ensures nodes == Dom.Insert(old(nodes), parent, r, name, className, properties)
      ensures WellFormed(nodes, rootRef) && forall x :: x in nodes ==> x < nextRef
      ensures forall x :: x in nodes ==> (x !in old(nodes) <==> Descends(nodes, r, x))
    {
      r := nextRef;
      InsertWellFormed(nodes, rootRef, parent, r, name, className, properties);
      InsertedBelow(nodes, parent, r, name, className, properties);
      nodes := Dom.Insert(nodes, parent, r, name, className, properties);
      nextRef := nextRef + 1;
    }

    /**
     * `insert_instance`: creates one instance per snapshot node under `parent`, parents
     * before children, each with the pivot shim applied and its metadata indexed, and
     * returns the ref of the new subtree's root. Everything that was there before is
     * unchanged except that `parent` gains the new root as its last child; the new
     * refs are exactly the new root's subtree.
     */
    method InsertInstance(parent: Ref, snapshot: InstanceSnapshot) returns (r: Ref)
      requires Valid() && parent in nodes
      modifies this
      decreases snapshot
      ensures Valid() && rootRef == old(rootRef) && old(nextRef) <= nextRef
      ensures r == old(nextRef)
      ensures Mirrors(nodes, metadata, r, snapshot) && nodes[r].parent == Some(parent)
      ensures parent in nodes && nodes[parent] == old(nodes)[parent].(children := old(nodes)[parent].children + [r])
      ensures forall x :: x in old(nodes) && x != parent ==> x in nodes && nodes[x] == old(nodes)[x]
      ensures forall x :: x in old(metadata) ==> x in metadata && metadata[x] == old(metadata)[x]
      ensures forall x :: x in nodes ==> (x !in old(nodes) <==> Descends(nodes, r, x))
    {
      r := CreateNode(parent, snapshot);
      for i := 0 to |snapshot.children|
        invariant Valid() && rootRef == old(rootRef) && r < nextRef
        invariant r in nodes && nodes[r].parent == Some(parent)
        invariant nodes[r].name == snapshot.name && nodes[r].className == snapshot.className
        invariant nodes[r].properties == PivotShim(snapshot.className, snapshot.properties)
        invariant metadata[r] == snapshot.metadata
        invariant |nodes[r].children| == i
        invariant forall j :: 0 <= j < i ==> Mirrors(nodes, metadata, nodes[r].children[j], snapshot.children[j])
        invariant forall x :: x in old(nodes) ==> x < r
        invariant parent in nodes && nodes[parent] == old(nodes)[parent].(children := old(nodes)[parent].children + [r])
        invariant forall x :: x in old(nodes) && x != parent ==> x in nodes && nodes[x] == old(nodes)[x]
        invariant forall x :: x in old(metadata) ==> x in metadata && metadata[x] == old(metadata)[x]
        invariant forall x :: x in nodes ==> (x !in old(nodes) <==> Descends(nodes, r, x))
      {
        ghost var before, beforeMeta := nodes, metadata;
        var c := InsertInstance(r, snapshot.children[i]);
        InsertedChildStep(before, beforeMeta, r, c, i, snapshot);
        forall x | x in old(nodes) ensures !Descends(nodes, r, x) {
          NotDescendsBelow(nodes, r, x);
        }
      }
    }

    /** The loop step of `InsertInstance`: what inserting child `i` keeps and adds. */
    lemma InsertedChildStep(before: Nodes, beforeMeta: map<Ref, Metadata>, r: Ref, c: Ref, i: nat, snapshot: InstanceSnapshot)
      requires WellFormed(before, rootRef) && r in before && r < c
      requires forall x :: x in before ==> x < c
      requires i < |snapshot.children| && |before[r].children| == i
      requires forall j :: 0 <= j < i ==> Mirrors(before, beforeMeta, before[r].children[j], snapshot.children[j])
      requires WellFormed(nodes, rootRef) && Mirrors(nodes, metadata, c, snapshot.children[i]) && nodes[c].parent == Some(r)
      requires r in nodes && nodes[r] == before[r].(children := before[r].children + [c])
      requires forall x :: x in before && x != r ==> x in nodes && nodes[x] == before[x]
      requires forall x :: x in beforeMeta ==> x in metadata && metadata[x] == beforeMeta[x]
      requires forall x :: x in nodes ==> (x !in before <==> Descends(nodes, c, x))
      ensures |nodes[r].children| == i + 1
      ensures forall j :: 0 <= j < i + 1 ==> Mirrors(nodes, metadata, nodes[r].children[j], snapshot.children[j])
      ensures forall x :: x in nodes && x !in before ==> Descends(nodes, r, x)
      ensures forall x :: x in before && Descends(before, r, x) ==> Descends(nodes, r, x)
    {
      ChildAppendedMirrors(before, beforeMeta, nodes, metadata, rootRef, r, c, snapshot.children, i);
      assert Descends(nodes, r, c);
      forall x | x in nodes && x !in before ensures Descends(nodes, r, x) {
        DescendsTrans(nodes, r, c, x);
      }
      forall x | x in before && Descends(before, r, x) ensures Descends(nodes, r, x) {
        DescendsKept(before, nodes, r, x);
      }
    }

    /**
     * `remove`: drops the metadata of every instance in the subtree of `id`, walking
     * it with a first-in first-out worklist, then destroys the subtree in the arena.
     * The tree stays valid, so (by `PathIndexShrink` and `IdIndexShrink`) exactly the
     * subtree's refs leave both indices.
     */
    method Remove(id: Ref)
      requires Valid() && id in nodes && id != rootRef
      modifies this`nodes, this`metadata, this`pathToIds, this`specifiedIdToRefs
      ensures Valid()
      ensures HasParent(old(nodes), id) && nodes == Destroy(old(nodes), id)
      ensures nodes.Keys == old(nodes).Keys - Subtree(old(nodes), id)
      ensures metadata == old(metadata) - Subtree(old(nodes), id)
    {
      var toMove := [id];
      assert Forest(nodes, toMove) == Subtree(nodes, id) by {
        assert toMove[1..] == [];
      }
      while toMove != []
        invariant nodes == old(nodes) && WellFormed(nodes, rootRef)
        invariant DisjointRoots(nodes, toMove)
        invariant Forest(nodes, toMove) <= Subtree(nodes, id)
        invariant metadata == old(metadata) - (Subtree(nodes, id) - Forest(nodes, toMove))
        invariant IndexOk()
        decreases Forest(nodes, toMove)
      {
        var x := toMove[0];
        PopHead(nodes, rootRef, toMove);
        assert x in Subtree(nodes, x);
        RemoveMetadata(x);
        toMove := toMove[1..];
        if x in nodes {
          toMove := toMove + nodes[x].children;
        }
      }
      DestroyWellFormed(nodes, rootRef, id);
      nodes := Destroy(nodes, id);
    }

    /**
     * `descendants`, iterated to the end: `id` first, then every instance below it,
     * each exactly once, level by level (breadth first), each after its parent, each
     * with metadata. The exact order is that of the first-in first-out queue: after
     * `id` come the children of the yielded refs, block after block in yield order.
     * It panics on a ref that is not live; that is its precondition.
     */
    method Descendants(id: Ref) returns (order: seq<Ref>)
      requires Valid() && id in nodes
      ensures order != [] && order[0] == id
      ensures forall x :: x in order <==> x in Subtree(nodes, id)
      ensures NoDup(order)
      ensures LevelSorted(nodes, id, order)
      ensures ParentsFirst(nodes, order)
      ensures order == [id] + ChildrenOf(nodes, order)
      ensures forall x :: x in order ==> x in metadata
    {
      var queue := [id];
      order := [];
      WalkStart(nodes, rootRef, id);
      while queue != []
        invariant Walking(nodes, rootRef, id, order, queue)
        invariant order + queue == [id] + ChildrenOf(nodes, order)
        decreases Forest(nodes, queue)
      {
        WalkStep(nodes, rootRef, id, order, queue);
        var x := queue[0];
        FifoStep(nodes, id, order, queue);
        order := order + [x];
        queue := queue[1..] + nodes[x].children;
      }
    }

    /**
     * `get_instance_mut(id)` then `*name_mut() = name`: renames a live instance. A ref
     * that is not live yields no handle and nothing changes.
     */
    method SetName(id: Ref, name: string) returns (found: bool)
      requires Valid()
      modifies this`nodes
      ensures found <==> id in old(nodes)
      ensures nodes == if found then old(nodes)[id := old(nodes)[id].(name := name)] else old(nodes)
      ensures Valid()
    {
      found := id in nodes;
      if found {
        var n := nodes[id].(name := name);
        RelabelWellFormed(nodes, rootRef, id, n);
        nodes := nodes[id := n];
      }
    }

    /** `get_instance_mut(id)` then `set_class_name(className)`: changes a live instance's class. */
    method SetClassName(id: Ref, className: string) returns (found: bool)
      requires Valid()
      modifies this`nodes
      ensures found <==> id in old(nodes)
      ensures nodes == if found then old(nodes)[id := old(nodes)[id].(className := className)] else old(nodes)
      ensures Valid()
    {
      found := id in nodes;
      if found {
        var n := nodes[id].(className := className);
        RelabelWellFormed(nodes, rootRef, id, n);
        nodes := nodes[id := n];
      }
    }

    /** `get_instance_mut(id)` then `*properties_mut() = properties`: replaces a live instance's properties. */
    method SetProperties(id: Ref, properties: Properties) returns (found: bool)
      requires Valid()
      modifies this`nodes
      ensures found <==> id in old(nodes)
      ensures nodes == if found then old(nodes)[id := old(nodes)[id].(properties := properties)] else old(nodes)
      ensures Valid()
    {
      found := id in nodes;
      if found {
        var n := nodes[id].(properties := properties);
        RelabelWellFormed(nodes, rootRef, id, n);
        nodes := nodes[id := n];
      }
    }

    /**
     * Inserting a snapshot under a live parent and then removing the ref `insert_instance`
     * returned leaves the arena and the metadata as they were, and the tree valid; so
     * (by `IndexDetermined`) both indices hold the same refs under every key as before.
     */
    method InsertThenRemove(parent: Ref, snapshot: InstanceSnapshot)
      requires Valid() && parent in nodes
      modifies this
      ensures Valid() && rootRef == old(rootRef)
      ensures nodes == old(nodes) && metadata == old(metadata)
    {
      var r := InsertInstance(parent, snapshot);
      ghost var inserted := nodes;
      assert Destroy(inserted, r) == old(nodes) by {
        assert r !in old(nodes)[parent].children by {
          assert ChildrenLinked(old(nodes), parent);
        }
        DestroyUndoesInsert(old(nodes), inserted, parent, r);
      }
      assert Subtree(inserted, r) == inserted.Keys - old(nodes).Keys;
      Remove(r);
      assert metadata == old(metadata) by {
        assert metadata.Keys == old(metadata).Keys;
      }
    }
  }

  /** After inserting a snapshot with no children at fresh ref `r`, the live refs are the old ones and `r`. */
  lemma LeafInserted(before: Nodes, after: Nodes, root: Ref, r: Ref)
    requires WellFormed(after, root) && r in after && after[r].children == []
    requires forall x :: x in before ==> x in after && x < r
    requires forall x :: x in after ==> (x !in before <==> Descends(after, r, x))
    ensures after.Keys == before.Keys + {r}
  {
    NewKeysBelow(before, after, r);
    LeafSubtree(after, root, r);
  }

  /** Adding metadata for one ref changes who claims `s` by that ref alone. */
  lemma ClaimsAdded(metadata: map<Ref, Metadata>, metadata': map<Ref, Metadata>, r: Ref, s: RojoRef)
    requires metadata'.Keys == metadata.Keys + {r} && r !in metadata
    requires forall x :: x in metadata ==> metadata'[x] == metadata[x]
    ensures forall x :: Claims(metadata', x, s) <==> Claims(metadata, x, s) || (x == r && Claims(metadata', r, s))
  {
  }

  /** Dropping the metadata of a set of refs leaves exactly the other claimants. */
  lemma ClaimsDropped(metadata: map<Ref, Metadata>, gone: set<Ref>, s: RojoRef)
    ensures forall x :: Claims(metadata - gone, x, s) <==> Claims(metadata, x, s) && x !in gone
  {
  }

  /** Test helper: inserts under `parent` a childless snapshot that declares `specified`. */
  method InsertClaimant(tree: RojoTree, parent: Ref, specified: RojoRef) returns (r: Ref)
    requires tree.Valid() && parent in tree.nodes
    modifies tree
    ensures tree.Valid() && tree.rootRef == old(tree.rootRef) && parent in tree.nodes
    ensures r in tree.nodes && r !in old(tree.nodes) && r != tree.rootRef
    ensures forall x :: x in old(tree.nodes) && x != parent ==> x in tree.nodes && tree.nodes[x] == old(tree.nodes)[x]
    ensures tree.nodes[r].children == [] && tree.nodes.Keys == old(tree.nodes).Keys + {r}
    ensures forall x :: Claims(tree.metadata, x, specified) <==> Claims(old(tree.metadata), x, specified) || x == r
  {
    ghost var n0, m0 := tree.nodes, tree.metadata;
    var snapshot := InstanceSnapshot("DEFAULT", "DEFAULT", map[], Metadata([], Some(specified)), []);
    r := tree.InsertInstance(parent, snapshot);
    LeafInserted(n0, tree.nodes, tree.rootRef, r);
    ClaimsAdded(m0, tree.metadata, r, specified);
  }

  /**
   * Test helper: with no claimant of `specified` yet, inserts two childless claimants under
   * the root, looking the stable id up after each insertion.
   */
  method InsertTwoClaimants(tree: RojoTree, specified: RojoRef)
    returns (original: Ref, duped: Ref, first: Option<Ref>, second: Option<Ref>)
    requires tree.Valid() && forall x :: !Claims(tree.metadata, x, specified)
    modifies tree
    ensures tree.Valid() && original != duped
    ensures original in tree.nodes && original != tree.rootRef && tree.nodes[original].children == []
    ensures forall x :: Claims(tree.metadata, x, specified) <==> x == original || x == duped
    ensures first == Some(original) && second == None
  {
    var root := tree.GetRootId();
    original := InsertClaimant(tree, root, specified);
    assert SoleClaimant(tree.metadata, original, specified);
    first := tree.GetSpecifiedId(specified);

    ghost var n1 := tree.nodes;
    duped := InsertClaimant(tree, root, specified);
    assert original in n1 && duped !in n1;
    assert Claims(tree.metadata, original, specified) && Claims(tree.metadata, duped, specified);
    second := tree.GetSpecifiedId(specified);
    assert second.Some? ==> SoleClaimant(tree.metadata, second.value, specified);
  }

  /**
   * The scenario of the test `swap_duped_specified_ids`: two instances declaring the same
   * stable id make it ambiguous; removing the first makes the second its sole owner.
   */
  method SwapDupedSpecifiedIds(customRef: RojoRef) returns (original: Ref, duped: Ref, lookups: seq<Option<Ref>>)
    ensures original != duped
    ensures lookups == [Some(original), None, Some(duped)]
  {
    var tree := new RojoTree(InstanceSnapshot("DEFAULT", "DEFAULT", map[], Metadata([], None), []));
    assert forall x :: !Claims(tree.metadata, x, customRef) by {
      ghost var n0, root := tree.nodes, tree.rootRef;
      LeafSubtree(n0, root, root);
      forall x | x in n0 ensures x == root {
        AllBelowRoot(n0, root, x);
        assert x in Subtree(n0, root);
      }
    }

    var first, second;
    original, duped, first, second := InsertTwoClaimants(tree, customRef);

    ghost var n2, m2 := tree.nodes, tree.metadata;
    tree.Remove(original);
    assert tree.metadata == m2 - {original} by {
      LeafSubtree(n2, tree.rootRef, original);
    }
    assert SoleClaimant(tree.metadata, duped, customRef) by {
      ClaimsDropped(m2, {original}, customRef);
    }
    var third := tree.GetSpecifiedId(customRef);

    lookups := [first, second, third];
  }
}
