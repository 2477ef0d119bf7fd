/**
 * The instance arena the tree is built on (`rbx_dom_weak::WeakDom`). Its source is
 * not part of this model; it is modelled by the contract the tree relies on:
 * a map from refs to nodes, each node knowing its ordered children and its parent.
 * Refs are handed out by a counter and never reused, so a child's ref is always
 * larger than its parent's; every recursion over the tree below rests on that.
 */
module Dom {
  import opened Wrappers
  import opened Seqs

  /** An instance handle (`Ref`); equality is identity. */
  type Ref = nat

  /** A property value. Values are opaque to the tree except for the boolean the pivot shim writes. */
  datatype Variant = Bool(value: bool) | Opaque(token: nat)

  type Properties = map<string, Variant>

  /** An instance: name, class, properties, ordered children and parent (absent for the root). */
  datatype Node = Node(name: string, className: string, properties: Properties, children: seq<Ref>, parent: Option<Ref>)

  type Nodes = map<Ref, Node>

  /** A non-root node's parent is live, smaller, and lists it among its children. */
  ghost predicate HasParent(nodes: Nodes, x: Ref)
    requires x in nodes
  {
    var p := nodes[x].parent;
    p.Some? && p.value in nodes && p.value < x && x in nodes[p.value].children
  }

  /** A node's children are distinct, live, larger, and name it as their parent. */
  ghost predicate ChildrenLinked(nodes: Nodes, x: Ref)
    requires x in nodes
  {
    && NoDup(nodes[x].children)
    && forall c :: c in nodes[x].children ==> c in nodes && x < c && nodes[c].parent == Some(x)
  }

  /** The arena's structural invariant: parent and child links agree, the root has no parent. */
  ghost predicate WellFormed(nodes: Nodes, root: Ref)
  {
    && root in nodes && nodes[root].parent == None
    && (forall x {:trigger HasParent(nodes, x)} :: x in nodes && x != root ==> HasParent(nodes, x))
    && (forall x {:trigger ChildrenLinked(nodes, x)} :: x in nodes ==> ChildrenLinked(nodes, x))
  }

  /** `x` is `r` or lies below it: following parent links from `x` reaches `r`. */
  predicate Descends(nodes: Nodes, r: Ref, x: Ref)
    decreases x
  {
    || x == r
    || (x in nodes && nodes[x].parent.Some? && nodes[x].parent.value < x
        && Descends(nodes, r, nodes[x].parent.value))
  }

  /** The live nodes of the subtree rooted at `r`, `r` included. */
  function Subtree(nodes: Nodes, r: Ref): set<Ref>
  {
    set x | x in nodes && Descends(nodes, r, x)
  }

  /** The union of the subtrees rooted at each ref of `qs` (a worklist's pending nodes). */
  ghost function Forest(nodes: Nodes, qs: seq<Ref>): set<Ref>
    decreases |qs|
  {
    if qs == [] then {} else Subtree(nodes, qs[0]) + Forest(nodes, qs[1..])
  }

  /** The subtrees rooted at the refs of `qs` are live and pairwise disjoint. */
  ghost predicate DisjointRoots(nodes: Nodes, qs: seq<Ref>)
  {
    && (forall i :: 0 <= i < |qs| ==> qs[i] in nodes)
    && (forall i, j :: 0 <= i < j < |qs| ==> Apart(nodes, qs[i], qs[j]))
  }

  /** The subtrees rooted at `a` and `b` share no node. */
  ghost predicate Apart(nodes: Nodes, a: Ref, b: Ref)
  {
    Subtree(nodes, a) !! Subtree(nodes, b)
  }

  /** Number of parent links from `x` up to `r` (0 when `x` is not below `r`). */
  function Depth(nodes: Nodes, r: Ref, x: Ref): nat
    decreases x
  {
    if x == r then 0
    else if x in nodes && nodes[x].parent.Some? && nodes[x].parent.value < x then
      1 + Depth(nodes, r, nodes[x].parent.value)
    else 0
  }

  /** `WeakDom::insert`: a new childless node `r` under `parent`, appended to its children. */
  function Insert(nodes: Nodes, parent: Ref, r: Ref, name: string, className: string, properties: Properties): Nodes
    requires parent in nodes
  {
    nodes[r := Node(name, className, properties, [], Some(parent))]
         [parent := nodes[parent].(children := nodes[parent].children + [r])]
  }

  /** `WeakDom::destroy`: the subtree of `id` is gone and `id` is taken out of its parent's children. */
  function Destroy(nodes: Nodes, id: Ref): Nodes
    requires id in nodes && nodes[id].parent.Some? && nodes[id].parent.value in nodes
  {
    var p := nodes[id].parent.value;
    var kept := map x | x in nodes && x !in Subtree(nodes, id) :: nodes[x];
    kept[p := nodes[p].(children := Without(nodes[p].children, id))]
  }

  /** Destroying a freshly attached subtree gives back the arena it was attached to. */
  lemma DestroyUndoesInsert(before: Nodes, after: Nodes, parent: Ref, r: Ref)
    requires parent in before && r !in before && r in after
    requires after[r].parent == Some(parent) && r !in before[parent].children
    requires parent in after && after[parent] == before[parent].(children := before[parent].children + [r])
    requires forall x :: x in before && x != parent ==> x in after && after[x] == before[x]
    requires forall x :: x in after ==> (x !in before <==> Descends(after, r, x))
    ensures Destroy(after, r) == before
  {
    var d := Destroy(after, r);
    assert !Descends(after, r, parent);
    forall x ensures x in d <==> x in before {
      DestroyAt(after, r, x);
    }
    forall x | x in before ensures d[x] == before[x] {
      DestroyAt(after, r, x);
      if x == parent {
        WithoutAppended(before[parent].children, r);
      }
    }
  }

  /** One entry of `Destroy`: what is outside the subtree stays, the parent losing `id` from its children. */
  lemma DestroyAt(nodes: Nodes, id: Ref, x: Ref)
    requires id in nodes && nodes[id].parent.Some? && nodes[id].parent.value in nodes
    requires !Descends(nodes, id, nodes[id].parent.value)
    ensures x in Destroy(nodes, id) <==> x in nodes && !Descends(nodes, id, x)
    ensures x in Destroy(nodes, id) ==>
      Destroy(nodes, id)[x] == (if x == nodes[id].parent.value then nodes[x].(children := Without(nodes[x].children, id)) else nodes[x])
  {
  }

  // ----- Facts about descent -----

  /** Everything below `r` has a ref at least `r`. */
  lemma {:induction false} DescendsAbove(nodes: Nodes, r: Ref, x: Ref)
    requires Descends(nodes, r, x)
    ensures r <= x
    decreases x
  {
    if x != r {
      DescendsAbove(nodes, r, nodes[x].parent.value);
    }
  }

  /** Nothing with a smaller ref than `r` lies below `r`. */
  lemma {:induction false} NotDescendsBelow(nodes: Nodes, r: Ref, x: Ref)
    requires x < r
    ensures !Descends(nodes, r, x)
    decreases x
  {
    if x in nodes && nodes[x].parent.Some? && nodes[x].parent.value < x {
      NotDescendsBelow(nodes, r, nodes[x].parent.value);
    }
  }

  /** Descent is transitive. */
  lemma {:induction false} DescendsTrans(nodes: Nodes, a: Ref, b: Ref, c: Ref)
    requires Descends(nodes, a, b) && Descends(nodes, b, c)
    ensures Descends(nodes, a, c)
    decreases c
  {
    if c != b {
      DescendsTrans(nodes, a, b, nodes[c].parent.value);
    }
  }

  /** A node strictly below `r` lies below one of `r`'s children. */
  lemma {:induction false} BelowSomeChild(nodes: Nodes, root: Ref, r: Ref, x: Ref) returns (c: Ref)
    requires WellFormed(nodes, root) && r in nodes
    requires Descends(nodes, r, x) && x != r
    ensures c in nodes[r].children && Descends(nodes, c, x)
    decreases x
  {
    var p := nodes[x].parent.value;
    if p == r {
      assert x != root;
      assert HasParent(nodes, x);
      c := x;
    } else {
      c := BelowSomeChild(nodes, root, r, p);
    }
  }

  /** Distinct children of one node have disjoint subtrees. */
  lemma {:induction false} SiblingsApart(nodes: Nodes, root: Ref, x: Ref, c1: Ref, c2: Ref, y: Ref)
    requires WellFormed(nodes, root) && x in nodes
    requires c1 in nodes[x].children && c2 in nodes[x].children && c1 != c2
    ensures !(Descends(nodes, c1, y) && Descends(nodes, c2, y))
    decreases y
  {
    assert ChildrenLinked(nodes, x);
    if y == c1 {
      NotDescendsBelow(nodes, c2, x);
    } else if y == c2 {
      NotDescendsBelow(nodes, c1, x);
    } else if y in nodes && nodes[y].parent.Some? && nodes[y].parent.value < y {
      SiblingsApart(nodes, root, x, c1, c2, nodes[y].parent.value);
    }
  }

  // ----- Facts about subtrees and forests -----

  lemma {:induction false} ForestMember(nodes: Nodes, qs: seq<Ref>, x: Ref)
    ensures x in Forest(nodes, qs) <==> exists i :: 0 <= i < |qs| && x in Subtree(nodes, qs[i])
    decreases |qs|
  {
    if qs != [] {
      ForestMember(nodes, qs[1..], x);
      if exists i :: 0 <= i < |qs| && x in Subtree(nodes, qs[i]) {
        var i :| 0 <= i < |qs| && x in Subtree(nodes, qs[i]);
        if i > 0 {
          assert qs[1..][i - 1] == qs[i];
        }
      }
      if exists i :: 0 <= i < |qs[1..]| && x in Subtree(nodes, qs[1..][i]) {
        var i :| 0 <= i < |qs[1..]| && x in Subtree(nodes, qs[1..][i]);
        assert qs[i + 1] == qs[1..][i];
      }
    }
  }

  lemma {:induction false} ForestAppend(nodes: Nodes, a: seq<Ref>, b: seq<Ref>)
    ensures Forest(nodes, a + b) == Forest(nodes, a) + Forest(nodes, b)
    decreases |a|
  {
    if a != [] {
      assert (a + b)[1..] == a[1..] + b;
      ForestAppend(nodes, a[1..], b);
    } else {
      assert a + b == b;
    }
  }

  /** A subtree is its root plus the forest of the root's children, the root not among them. */
  lemma SubtreeUnfold(nodes: Nodes, root: Ref, r: Ref)
    requires WellFormed(nodes, root) && r in nodes
    ensures Subtree(nodes, r) == {r} + Forest(nodes, nodes[r].children)
    ensures r !in Forest(nodes, nodes[r].children)
  {
    var cs := nodes[r].children;
    assert ChildrenLinked(nodes, r);
    forall x | x in Subtree(nodes, r) && x != r
      ensures x in Forest(nodes, cs)
    {
      var c := BelowSomeChild(nodes, root, r, x);
      var i :| 0 <= i < |cs| && cs[i] == c;
      ForestMember(nodes, cs, x);
    }
    forall x | x in Forest(nodes, cs)
      ensures x in Subtree(nodes, r) && x != r
    {
      ForestMember(nodes, cs, x);
      var i :| 0 <= i < |cs| && x in Subtree(nodes, cs[i]);
      assert Descends(nodes, r, cs[i]);
      DescendsTrans(nodes, r, cs[i], x);
      DescendsAbove(nodes, cs[i], x);
    }
  }

  /** Every child's subtree lies within its parent's. */
  lemma ChildSubtreeWithin(nodes: Nodes, root: Ref, x: Ref, c: Ref)
    requires WellFormed(nodes, root) && x in nodes && c in nodes[x].children
    ensures Subtree(nodes, c) <= Subtree(nodes, x)
  {
    assert ChildrenLinked(nodes, x);
    assert Descends(nodes, x, c);
    forall y | y in Subtree(nodes, c) ensures y in Subtree(nodes, x) {
      DescendsTrans(nodes, x, c, y);
    }
  }

  /** Distinct children of one node have disjoint subtrees. */
  lemma SiblingSubtreesDisjoint(nodes: Nodes, root: Ref, x: Ref, c1: Ref, c2: Ref)
    requires WellFormed(nodes, root) && x in nodes
    requires c1 in nodes[x].children && c2 in nodes[x].children && c1 != c2
    ensures Apart(nodes, c1, c2)
  {
    forall y ensures !(y in Subtree(nodes, c1) && y in Subtree(nodes, c2)) {
      SiblingsApart(nodes, root, x, c1, c2, y);
    }
  }

  /**
   * One step of a breadth-first worklist: taking the head `x` off a queue of disjoint
   * subtree roots and appending `x`'s children leaves the same nodes pending, minus `x`.
   */
  lemma PopHead(nodes: Nodes, root: Ref, qs: seq<Ref>)
    requires WellFormed(nodes, root) && qs != [] && DisjointRoots(nodes, qs)
    ensures var next := qs[1..] + nodes[qs[0]].children;
      && Forest(nodes, qs) == {qs[0]} + Forest(nodes, next)
      && qs[0] !in Forest(nodes, next)
      && DisjointRoots(nodes, next)
  {
    var x, rest, cs := qs[0], qs[1..], nodes[qs[0]].children;
    SubtreeUnfold(nodes, root, x);
    ForestAppend(nodes, rest, cs);
    assert x in Subtree(nodes, x);
    ForestMember(nodes, rest, x);
    forall i | 0 <= i < |rest| ensures x !in Subtree(nodes, rest[i]) {
      assert Apart(nodes, qs[0], qs[i + 1]);
    }
    PopHeadDisjoint(nodes, root, qs);
  }

  /** The queue after one step of the worklist still holds live roots of disjoint subtrees. */
  lemma PopHeadDisjoint(nodes: Nodes, root: Ref, qs: seq<Ref>)
    requires WellFormed(nodes, root) && qs != [] && DisjointRoots(nodes, qs)
    ensures DisjointRoots(nodes, qs[1..] + nodes[qs[0]].children)
  {
    var x, rest, cs := qs[0], qs[1..], nodes[qs[0]].children;
    var next := rest + cs;
    assert ChildrenLinked(nodes, x);
    forall i | 0 <= i < |next| ensures next[i] in nodes {
      if i >= |rest| { assert next[i] == cs[i - |rest|]; }
    }
    forall i, j | 0 <= i < j < |next| ensures Apart(nodes, next[i], next[j]) {
      if j < |rest| {
        assert Apart(nodes, qs[i + 1], qs[j + 1]);
      } else if i < |rest| {
        assert next[j] == cs[j - |rest|];
        ApartFromChild(nodes, root, qs[i + 1], x, next[j]);
      } else {
        assert next[i] == cs[i - |rest|] && next[j] == cs[j - |rest|];
        SiblingSubtreesDisjoint(nodes, root, x, next[i], next[j]);
      }
    }
  }

  /** A subtree apart from `x`'s is apart from the subtree of each child of `x`. */
  lemma ApartFromChild(nodes: Nodes, root: Ref, a: Ref, x: Ref, c: Ref)
    requires WellFormed(nodes, root) && x in nodes && c in nodes[x].children
    requires Apart(nodes, x, a)
    ensures Apart(nodes, a, c)
  {
    ChildSubtreeWithin(nodes, root, x, c);
  }

  // ----- Facts about insert and destroy -----

  /** Descent only follows parent links, so it survives any change that keeps them. */
  lemma {:induction false} DescendsKept(nodes: Nodes, nodes': Nodes, r: Ref, x: Ref)
    requires forall y :: y in nodes ==> y in nodes' && nodes'[y].parent == nodes[y].parent
    requires Descends(nodes, r, x)
    ensures Descends(nodes', r, x)
    decreases x
  {
    if x != r {
      DescendsKept(nodes, nodes', r, nodes[x].parent.value);
    }
  }

  /** Inserting a fresh ref under a live parent keeps the arena well formed. */
  lemma InsertWellFormed(nodes: Nodes, root: Ref, parent: Ref, r: Ref, name: string, className: string, properties: Properties)
    requires WellFormed(nodes, root) && parent in nodes
    requires forall x :: x in nodes ==> x < r
    ensures WellFormed(Insert(nodes, parent, r, name, className, properties), root)
  {
    var nodes' := Insert(nodes, parent, r, name, className, properties);
    assert root in nodes && nodes'[root].parent == None;
    forall x | x in nodes' && x != root ensures HasParent(nodes', x) {
      InsertKeepsParent(nodes, root, parent, r, name, className, properties, x);
    }
    forall x | x in nodes' ensures ChildrenLinked(nodes', x) {
      if x != r {
        InsertKeepsChildrenLinked(nodes, root, parent, r, name, className, properties, x);
      }
    }
  }

  /** The only ref of an inserted node's subtree is its own: exactly the new ref lies below it. */
  lemma InsertedBelow(nodes: Nodes, parent: Ref, r: Ref, name: string, className: string, properties: Properties)
    requires parent in nodes && forall x :: x in nodes ==> x < r
    ensures var nodes' := Insert(nodes, parent, r, name, className, properties);
      forall x :: x in nodes' ==> (x !in nodes <==> Descends(nodes', r, x))
  {
    var nodes' := Insert(nodes, parent, r, name, className, properties);
    forall x | x in nodes' ensures x !in nodes <==> Descends(nodes', r, x) {
      if x != r {
        NotDescendsBelow(nodes', r, x);
      }
    }
  }

  lemma InsertKeepsParent(nodes: Nodes, root: Ref, parent: Ref, r: Ref, name: string, className: string, properties: Properties, x: Ref)
    requires WellFormed(nodes, root) && parent in nodes
    requires forall y :: y in nodes ==> y < r
    requires x in Insert(nodes, parent, r, name, className, properties) && x != root
    ensures HasParent(Insert(nodes, parent, r, name, className, properties), x)
  {
    if x != r {
      assert HasParent(nodes, x);
    }
  }

  lemma InsertKeepsChildrenLinked(nodes: Nodes, root: Ref, parent: Ref, r: Ref, name: string, className: string, properties: Properties, x: Ref)
    requires WellFormed(nodes, root) && parent in nodes && x in nodes
    requires forall y :: y in nodes ==> y < r
    ensures ChildrenLinked(Insert(nodes, parent, r, name, className, properties), x)
  {
    var nodes' := Insert(nodes, parent, r, name, className, properties);
    assert ChildrenLinked(nodes, x);
    if x == parent {
      var cs := nodes'[parent].children;
      assert cs == nodes[parent].children + [r];
      forall i, j | 0 <= i < j < |cs| ensures cs[i] != cs[j] {
        if j == |cs| - 1 {
          assert cs[i] in nodes[parent].children;
        }
      }
    }
  }

  /** Destroying a non-root subtree leaves exactly the other nodes, still well formed. */
  lemma DestroyWellFormed(nodes: Nodes, root: Ref, id: Ref)
    requires WellFormed(nodes, root) && id in nodes && id != root
    ensures HasParent(nodes, id)
    ensures var nodes' := Destroy(nodes, id);
      && nodes'.Keys == nodes.Keys - Subtree(nodes, id)
      && WellFormed(nodes', root)
  {
    assert HasParent(nodes, id);
    var p := nodes[id].parent.value;
    var nodes' := Destroy(nodes, id);
    NotDescendsBelow(nodes, id, p);
    assert !Descends(nodes, id, root);
    assert nodes'.Keys == nodes.Keys - Subtree(nodes, id);
    forall x | x in nodes' && x != root ensures HasParent(nodes', x) {
      DestroyKeepsParent(nodes, root, id, x);
    }
    forall x | x in nodes' ensures ChildrenLinked(nodes', x) {
      DestroyKeepsChildrenLinked(nodes, root, id, x);
    }
  }

  lemma DestroyKeepsParent(nodes: Nodes, root: Ref, id: Ref, x: Ref)
    requires WellFormed(nodes, root) && id in nodes && id != root && HasParent(nodes, id)
    requires x in nodes && x != root && !Descends(nodes, id, x)
    ensures x in Destroy(nodes, id) && HasParent(Destroy(nodes, id), x)
  {
    assert HasParent(nodes, x);
    var q := nodes[x].parent.value;
    assert !Descends(nodes, id, q);
  }

  lemma DestroyKeepsChildrenLinked(nodes: Nodes, root: Ref, id: Ref, x: Ref)
    requires WellFormed(nodes, root) && id in nodes && id != root && HasParent(nodes, id)
    requires x in nodes && !Descends(nodes, id, x)
    ensures x in Destroy(nodes, id) && ChildrenLinked(Destroy(nodes, id), x)
  {
    var p := nodes[id].parent.value;
    var nodes' := Destroy(nodes, id);
    assert ChildrenLinked(nodes, x);
    forall c | c in nodes'[x].children ensures c in nodes' && nodes'[c].parent == Some(x) {
      assert c in nodes[x].children;
      assert nodes[c].parent == Some(x);
      assert !Descends(nodes, id, c);
    }
  }

  /** In a well-formed arena every live node lies below the root. */
  lemma {:induction false} AllBelowRoot(nodes: Nodes, root: Ref, x: Ref)
    requires WellFormed(nodes, root) && x in nodes
    ensures Descends(nodes, root, x)
    decreases x
  {
    if x != root {
      assert HasParent(nodes, x);
      AllBelowRoot(nodes, root, nodes[x].parent.value);
    }
  }

  /** A childless node's subtree is the node alone. */
  lemma LeafSubtree(nodes: Nodes, root: Ref, r: Ref)
    requires WellFormed(nodes, root) && r in nodes && nodes[r].children == []
    ensures Subtree(nodes, r) == {r}
  {
    SubtreeUnfold(nodes, root, r);
  }

  /** Changing a node's name, class or properties, and not its links, keeps the arena well formed. */
  lemma RelabelWellFormed(nodes: Nodes, root: Ref, id: Ref, n: Node)
    requires WellFormed(nodes, root) && id in nodes
    requires n.children == nodes[id].children && n.parent == nodes[id].parent
    ensures WellFormed(nodes[id := n], root)
  {
    var nodes' := nodes[id := n];
    forall x | x in nodes' && x != root ensures HasParent(nodes', x) {
      assert HasParent(nodes, x);
    }
    forall x | x in nodes' ensures ChildrenLinked(nodes', x) {
      assert ChildrenLinked(nodes, x);
    }
  }
}
