/** The arena tree `SimpleTree<N>`: a vector of nodes in insertion order, a parallel
    vector of child-id lists and a root id. The class keeps the three as fields and
    updates them in place; `TreeValue` is the value they hold, and the functions over
    it say what each operation computes, so that well-formedness and the correspondence
    of node ids across a merge are lemmas about values. */
module SimpleTrees {

  datatype TreeValue<N> = TreeValue(root: nat, nodes: seq<N>, children: seq<seq<nat>>)

  /** Every node has exactly one child list. */
  predicate Parallel<N>(t: TreeValue<N>) {
    |t.nodes| == |t.children|
  }

  /** Every child id names a node, and so does the root when there are nodes; an empty
      tree has root 0. */
  predicate WellFormed<N>(t: TreeValue<N>) {
    && Parallel(t)
    && (if |t.nodes| == 0 then t.root == 0 else t.root < |t.nodes|)
    && forall i, j :: 0 <= i < |t.children| && 0 <= j < |t.children[i]| ==> t.children[i][j] < |t.nodes|
  }

  /** The root of `s` is nobody's child, as it is in a tree built bottom-up. */
  predicate RootIsNoChild<N>(s: TreeValue<N>) {
    forall i :: 0 <= i < |s.children| ==> s.root !in s.children[i]
  }

  // ---------------------------------------------------------------------------
  // What each operation computes.

  /** `add_node`: the node goes last, with no children. */
  function WithNode<N>(t: TreeValue<N>, n: N): (r: TreeValue<N>)
    ensures |r.nodes| == |t.nodes| + 1 && r.nodes[|t.nodes|] == n
    ensures r.nodes[..|t.nodes|] == t.nodes && r.root == t.root
    ensures Parallel(t) ==> Parallel(r) && r.children[|t.nodes|] == [] && r.children[..|t.nodes|] == t.children
  {
    TreeValue(t.root, t.nodes + [n], t.children + [[]])
  }

  /** `add_child`: `c` goes last in the child list of `p`; if `c` was the root, `p`
      becomes the root, which is how a tree is built from the leaves up. */
  function WithChild<N>(t: TreeValue<N>, p: nat, c: nat): (r: TreeValue<N>)
    requires p < |t.children|
    ensures r.nodes == t.nodes && |r.children| == |t.children|
    ensures r.children[p] == t.children[p] + [c]
    ensures forall i :: 0 <= i < |t.children| && i != p ==> r.children[i] == t.children[i]
    ensures r.root == (if c == t.root then p else t.root)
  {
    TreeValue(if c == t.root then p else t.root, t.nodes, t.children[p := t.children[p] + [c]])
  }

  /** The ids of a child list moved up by `offset`. */
  function Shifted(ids: seq<nat>, offset: nat): (r: seq<nat>)
    ensures |r| == |ids| && forall j :: 0 <= j < |ids| ==> r[j] == ids[j] + offset
  {
    seq(|ids|, j requires 0 <= j < |ids| => ids[j] + offset)
  }

  /** Where `merge_subtree_no_root` puts node `id` of a subtree whose root `root` is
      dropped: ids below the root move up by `offset`, ids above it by `offset - 1`. */
  function Renumber(id: nat, root: nat, offset: nat): nat
  {
    if id > root then id + offset - 1 else id + offset
  }

  function Renumbered(ids: seq<nat>, root: nat, offset: nat): (r: seq<nat>)
    ensures |r| == |ids| && forall j :: 0 <= j < |ids| ==> r[j] == Renumber(ids[j], root, offset)
  {
    seq(|ids|, j requires 0 <= j < |ids| => Renumber(ids[j], root, offset))
  }

  /** `merge_subtree(p, s)`: the nodes of `s` are appended, its child lists are appended
      with every id moved up by the old length, and the moved root of `s` goes last in
      the child list of `p`. */
  function Merged<N>(t: TreeValue<N>, p: nat, s: TreeValue<N>): TreeValue<N>
    requires Parallel(t) && Parallel(s) && p < |t.children| + |s.children|
  {
    var offset := |t.nodes|;
    var lists := t.children + seq(|s.children|, k requires 0 <= k < |s.children| => Shifted(s.children[k], offset));
    TreeValue(t.root, t.nodes + s.nodes, lists[p := lists[p] + [s.root + offset]])
  }

  /** `merge_subtree_no_root(p, s)`: as Merged, but the root of `s` is left out and its
      children, renumbered, are appended to the child list of `p` instead. */
  function MergedNoRoot<N>(t: TreeValue<N>, p: nat, s: TreeValue<N>): TreeValue<N>
    requires Parallel(t) && Parallel(s) && s.root < |s.nodes| && p < |t.children|
  {
    var offset, r := |t.nodes|, s.root;
    var lists := seq(|s.children|, k requires 0 <= k < |s.children| => Renumbered(s.children[k], r, offset));
    TreeValue(t.root, t.nodes + s.nodes[..r] + s.nodes[r + 1..],
              t.children[p := t.children[p] + lists[r]] + lists[..r] + lists[r + 1..])
  }

  // ---------------------------------------------------------------------------
  // Properties.

  /** Adding a node keeps a well-formed tree well-formed. */
  lemma WithNodeWellFormed<N>(t: TreeValue<N>, n: N)
    requires WellFormed(t)
    ensures WellFormed(WithNode(t, n))
  {
    var r := WithNode(t, n);
    forall i, j | 0 <= i < |r.children| && 0 <= j < |r.children[i]| ensures r.children[i][j] < |r.nodes| {
      assert r.children[i] == (t.children + [[]])[i];
    }
  }

  /** Adding an edge between two existing nodes keeps a well-formed tree well-formed. */
  lemma WithChildWellFormed<N>(t: TreeValue<N>, p: nat, c: nat)
    requires WellFormed(t) && p < |t.nodes| && c < |t.nodes|
    ensures WellFormed(WithChild(t, p, c))
  {
    var r := WithChild(t, p, c);
    forall i, j | 0 <= i < |r.children| && 0 <= j < |r.children[i]| ensures r.children[i][j] < |r.nodes| {
      if i == p && j == |t.children[p]| {
        assert r.children[i][j] == c;
      } else {
        assert r.children[i][j] == t.children[i][j];
      }
    }
  }

  /** After `merge_subtree(p, s)`: the length is the sum; the old nodes, their child
      lists (but p's) and the root are unchanged; node |t| + k is node k of s and its
      child list starts with the child list of s's node k, every id moved by |t|; and
      p's child list gains the moved root of s at its end. */
  lemma MergedCorrespondence<N>(t: TreeValue<N>, p: nat, s: TreeValue<N>)
    requires Parallel(t) && Parallel(s) && p < |t.children| + |s.children|
    ensures var m, offset := Merged(t, p, s), |t.nodes|;
      && Parallel(m) && |m.nodes| == |t.nodes| + |s.nodes| && m.root == t.root
      && m.nodes[..offset] == t.nodes
      && (forall i :: 0 <= i < offset && i != p ==> m.children[i] == t.children[i])
      && (forall k :: 0 <= k < |s.nodes| ==> m.nodes[offset + k] == s.nodes[k])
      && (forall k, j :: 0 <= k < |s.nodes| && 0 <= j < |s.children[k]| ==>
            j < |m.children[offset + k]| && m.children[offset + k][j] == s.children[k][j] + offset)
      && (forall k :: 0 <= k < |s.nodes| && offset + k != p ==>
            |m.children[offset + k]| == |s.children[k]|)
      && m.children[p] == (if p < offset then t.children[p] else Shifted(s.children[p - offset], offset))
                          + [s.root + offset]
  {
    var m, offset := Merged(t, p, s), |t.nodes|;
    forall k | 0 <= k < |s.nodes| ensures m.nodes[offset + k] == s.nodes[k] {
      assert m.nodes[offset + k] == (t.nodes + s.nodes)[offset + k];
    }
    assert m.nodes[..offset] == (t.nodes + s.nodes)[..offset];
  }

  /** Merging a non-empty well-formed subtree under an existing node keeps the tree
      well-formed. */
  lemma MergedWellFormed<N>(t: TreeValue<N>, p: nat, s: TreeValue<N>)
    requires WellFormed(t) && WellFormed(s) && |s.nodes| > 0 && p < |t.nodes|
    ensures WellFormed(Merged(t, p, s))
  {
    var m, offset := Merged(t, p, s), |t.nodes|;
    MergedCorrespondence(t, p, s);
    forall i, j | 0 <= i < |m.children| && 0 <= j < |m.children[i]| ensures m.children[i][j] < |m.nodes| {
      if i == p && j == |m.children[i]| - 1 {
        assert m.children[i][j] == s.root + offset;
      } else if i < offset {
        assert m.children[i][j] == t.children[i][j];
      } else {
        assert m.children[i][j] == s.children[i - offset][j] + offset;
      }
    }
  }

  /** Renumbering leaves no gap and no clash: the ids of s other than its root go one to
      one onto |t| .. |t| + |s| - 2. */
  lemma RenumberBijective(root: nat, offset: nat, size: nat, a: nat, b: nat)
    requires root < size && a < size && b < size && a != root && b != root
    ensures offset <= Renumber(a, root, offset) < offset + size - 1
    ensures a != b ==> Renumber(a, root, offset) != Renumber(b, root, offset)
  {
  }

  /** After `merge_subtree_no_root(p, s)`: the length grows by |s| - 1; the old nodes,
      their child lists (but p's) and the root are unchanged; every node k of s other
      than its root sits at Renumber(k) with its child list renumbered the same way; and
      p's child list is extended, in order, with the renumbered children of s's root. */
  lemma MergedNoRootCorrespondence<N>(t: TreeValue<N>, p: nat, s: TreeValue<N>)
    requires Parallel(t) && Parallel(s) && s.root < |s.nodes| && p < |t.children|
    ensures var m, offset := MergedNoRoot(t, p, s), |t.nodes|;
      && Parallel(m) && |m.nodes| == |t.nodes| + |s.nodes| - 1 && m.root == t.root
      && m.nodes[..offset] == t.nodes
      && (forall i :: 0 <= i < offset && i != p ==> m.children[i] == t.children[i])
      && (forall k :: 0 <= k < |s.nodes| && k != s.root ==>
            var at := Renumber(k, s.root, offset);
            && m.nodes[at] == s.nodes[k]
            && m.children[at] == Renumbered(s.children[k], s.root, offset))
      && m.children[p] == t.children[p] + Renumbered(s.children[s.root], s.root, offset)
  {
    var m, offset, r := MergedNoRoot(t, p, s), |t.nodes|, s.root;
    var lists := seq(|s.children|, k requires 0 <= k < |s.children| => Renumbered(s.children[k], r, offset));
    var cs := t.children[p := t.children[p] + lists[r]];
    assert m.nodes == t.nodes + s.nodes[..r] + s.nodes[r + 1..];
    assert m.children == cs + lists[..r] + lists[r + 1..];
    forall k | 0 <= k < |s.nodes| && k != r
      ensures m.nodes[Renumber(k, r, offset)] == s.nodes[k]
      ensures m.children[Renumber(k, r, offset)] == Renumbered(s.children[k], r, offset)
    {
      if k < r {
        assert m.nodes[offset + k] == s.nodes[..r][k];
        assert m.children[offset + k] == lists[..r][k];
      } else {
        assert m.nodes[offset + k - 1] == s.nodes[r + 1..][k - r - 1];
        assert m.children[offset + k - 1] == lists[r + 1..][k - r - 1];
      }
    }
    assert m.nodes[..offset] == t.nodes;
  }

  /** Merging without the root a non-empty well-formed subtree whose root is nobody's
      child, under an existing node, keeps the tree well-formed. */
  lemma MergedNoRootWellFormed<N>(t: TreeValue<N>, p: nat, s: TreeValue<N>)
    requires WellFormed(t) && WellFormed(s) && RootIsNoChild(s) && s.root < |s.nodes| && p < |t.nodes|
    ensures WellFormed(MergedNoRoot(t, p, s))
  {
    var m, offset, r := MergedNoRoot(t, p, s), |t.nodes|, s.root;
    MergedNoRootCorrespondence(t, p, s);
    forall i, j | 0 <= i < |m.children| && 0 <= j < |m.children[i]| ensures m.children[i][j] < |m.nodes| {
      if i == p && j >= |t.children[p]| {
        var c := s.children[r][j - |t.children[p]|];
        assert c != r;
        RenumberBijective(r, offset, |s.nodes|, c, c);
      } else if i < offset {
        assert m.children[i][j] == t.children[i][j];
      } else {
        var k := if i - offset < r then i - offset else i - offset + 1;
        assert Renumber(k, r, offset) == i;
        var c := s.children[k][j];
        assert c != r;
        RenumberBijective(r, offset, |s.nodes|, c, c);
      }
    }
  }

  /** Without the premise that the root of s is nobody's child the merge can dangle: a
      subtree whose root, its last node, is also a child of node 0 leaves an id equal to
      the new length. */
  lemma MergedNoRootDangling()
    ensures var m := MergedNoRoot(TreeValue(0, [0], [[]]), 0, TreeValue(1, [0, 1], [[1], [0]]));
      m.children[1] == [2] && |m.nodes| == 2 && !WellFormed(m)
  {
    var t, s := TreeValue(0, [0], [[]]), TreeValue(1, [0, 1], [[1], [0]]);
    var lists := seq(|s.children|, k requires 0 <= k < |s.children| => Renumbered(s.children[k], 1, 1));
    assert lists[0] == [2] && lists[1] == [1];
    var m := MergedNoRoot(t, 0, s);
    assert lists[..1] == [[2]] && lists[2..] == [];
    assert t.children[0] + lists[1] == [1];
    assert t.children[0 := [1]] == [[1]];
    assert m.children == [[1]] + [[2]] + [];
    assert m.nodes == [0] + [0] + [];
    assert m.children[1][0] == 2;
  }

  // ---------------------------------------------------------------------------
  // The id-rewriting loops of the two merges.

  /** The loop of `merge_subtree` over one child list: every id moves up by `offset`. */
  method ShiftIds(ids: seq<nat>, offset: nat) returns (out: seq<nat>)
    ensures out == Shifted(ids, offset)
  {
    out := ids;
    for j := 0 to |out|
      invariant |out| == |ids|
      invariant forall m :: 0 <= m < j ==> out[m] == ids[m] + offset
      invariant forall m :: j <= m < |out| ==> out[m] == ids[m]
    {
      out := out[j := out[j] + offset];
    }
  }

  /** The loop of `merge_subtree` over all child lists of the subtree. */
  method ShiftLists(lists: seq<seq<nat>>, offset: nat) returns (out: seq<seq<nat>>)
    ensures |out| == |lists| && forall k :: 0 <= k < |lists| ==> out[k] == Shifted(lists[k], offset)
  {
    out := lists;
    for i := 0 to |out|
      invariant |out| == |lists|
      invariant forall k :: 0 <= k < i ==> out[k] == Shifted(lists[k], offset)
      invariant forall k :: i <= k < |out| ==> out[k] == lists[k]
    {
      var ids := ShiftIds(out[i], offset);
      out := out[i := ids];
    }
  }

  /** The loop of `merge_subtree_no_root` over one child list: ids above the dropped root
      move up by `offset - 1`, the others by `offset`. */
  method RenumberIds(ids: seq<nat>, root: nat, offset: nat) returns (out: seq<nat>)
    ensures out == Renumbered(ids, root, offset)
  {
    out := ids;
    for j := 0 to |out|
      invariant |out| == |ids|
      invariant forall m :: 0 <= m < j ==> out[m] == Renumber(ids[m], root, offset)
      invariant forall m :: j <= m < |out| ==> out[m] == ids[m]
    {
      if out[j] > root {
        out := out[j := out[j] + offset - 1];
      } else {
        out := out[j := out[j] + offset];
      }
    }
  }

  /** The loop of `merge_subtree_no_root` over all child lists of the subtree. */
  method RenumberLists(lists: seq<seq<nat>>, root: nat, offset: nat) returns (out: seq<seq<nat>>)
    ensures |out| == |lists| && forall k :: 0 <= k < |lists| ==> out[k] == Renumbered(lists[k], root, offset)
  {
    out := lists;
    for i := 0 to |out|
      invariant |out| == |lists|
      invariant forall k :: 0 <= k < i ==> out[k] == Renumbered(lists[k], root, offset)
      invariant forall k :: i <= k < |out| ==> out[k] == lists[k]
    {
      var ids := RenumberIds(out[i], root, offset);
      out := out[i := ids];
    }
  }

  // ---------------------------------------------------------------------------
  // The tree, updated in place.

  class SimpleTree<N> {
    var root: nat
    var nodes: seq<N>
    var node2children: seq<seq<nat>>

    predicate Valid()
      reads this
    {
      |nodes| == |node2children|
    }

    function Value(): TreeValue<N>
      reads this
    {
      TreeValue(root, nodes, node2children)
    }

    /** `SimpleTree::empty`: no nodes, root 0. */
    constructor Empty()
      ensures Valid() && Value() == TreeValue(0, [], [])
    {
      root, nodes, node2children := 0, [], [];
    }

    /** `SimpleTree::new`: the single node `node`, which is the root. */
    constructor New(node: N)
      ensures Valid() && WellFormed(Value()) && Value() == TreeValue(0, [node], [[]])
    {
      root, nodes, node2children := 0, [node], [[]];
    }

    function IsEmpty(): (b: bool)
      reads this
      ensures b <==> |nodes| == 0
    {
      |nodes| == 0
    }

    function Len(): (n: nat)
      reads this
      ensures n == |Value().nodes|
    {
      |nodes|
    }

    /** `get_root_id`. */
    function GetRootId(): nat
      reads this
    {
      root
    }

    /** `get_root`: the root node; indexing out of range panics. */
    function GetRoot(): (n: N)
      reads this
      requires root < |nodes|
      ensures n == Value().nodes[Value().root]
    {
      nodes[root]
    }

    /** `get_node`: node `uid`; indexing out of range panics. */
    function GetNode(uid: nat): (n: N)
      reads this
      requires uid < |nodes|
      ensures n == Value().nodes[uid]
    {
      nodes[uid]
    }

    /** `get_child_ids`: the child list of `uid`; indexing out of range panics. */
    function GetChildIds(uid: nat): (ids: seq<nat>)
      reads this
      requires uid < |node2children|
      ensures ids == Value().children[uid]
    {
      node2children[uid]
    }

    /** A write through `get_node_mut(uid)`. */
    method SetNode(uid: nat, node: N)
      requires uid < |nodes|
      modifies this
      ensures Value() == old(Value()).(nodes := old(nodes)[uid := node])
    {
      nodes := nodes[uid := node];
    }

    /** A write through `get_root_mut`. */
    method SetRoot(node: N)
      requires root < |nodes|
      modifies this
      ensures Value() == old(Value()).(nodes := old(nodes)[old(root) := node])
    {
      nodes := nodes[root := node];
    }

    /** `add_node`: returns the id of the new node, the previous length. */
    method AddNode(node: N) returns (uid: nat)
      requires Valid()
      modifies this
      ensures Valid() && uid == old(|nodes|)
      ensures Value() == WithNode(old(Value()), node)
    {
      uid := |nodes|;
      nodes := nodes + [node];
      node2children := node2children + [[]];
    }

    /** `add_child`: record `childId` as the last child of `parentId`. */
    method AddChild(parentId: nat, childId: nat)
      requires Valid() && parentId < |node2children|
      modifies this
      ensures Valid() && Value() == WithChild(old(Value()), parentId, childId)
    {
      if childId == root {
        root := parentId;
      }
      node2children := node2children[parentId := node2children[parentId] + [childId]];
    }

    /** `merge_subtree`: the subtree is consumed; its child lists are rewritten in a copy. */
    method MergeSubtree(parentId: nat, subtree: SimpleTree<N>)
      requires subtree != this && Valid() && subtree.Valid() && parentId < |node2children| + |subtree.node2children|
      modifies this
      ensures Valid() && Value() == Merged(old(Value()), parentId, subtree.Value())
    {
      var idOffset := |nodes|;
      nodes := nodes + subtree.nodes;
      var lists := ShiftLists(subtree.node2children, idOffset);
      node2children := node2children + lists;
      node2children := node2children[parentId := node2children[parentId] + [subtree.root + idOffset]];
    }

    /** `merge_subtree_no_root`: the subtree must be non-empty (its root's child list is
      read) and `parentId` must be a node of this tree (its list is extended before the
      subtree's lists are appended). */
    method MergeSubtreeNoRoot(parentId: nat, subtree: SimpleTree<N>)
      requires subtree != this && Valid() && subtree.Valid() && subtree.root < |subtree.nodes| && parentId < |node2children|
      modifies this
      ensures Valid() && Value() == MergedNoRoot(old(Value()), parentId, subtree.Value())
    {
      var idOffset := |nodes|;
      var subtreeRoot := subtree.root;
      ghost var before := nodes;
      if subtreeRoot > 0 {
        nodes := nodes + subtree.nodes[..subtreeRoot];
      }
      nodes := nodes + subtree.nodes[subtreeRoot + 1..];
      assert nodes == before + subtree.nodes[..subtreeRoot] + subtree.nodes[subtreeRoot + 1..];
      var source := subtree.node2children;
      var lists := RenumberLists(source, subtreeRoot, idOffset);
      assert lists == seq(|source|, k requires 0 <= k < |source| => Renumbered(source[k], subtreeRoot, idOffset));
      node2children := node2children[parentId := node2children[parentId] + lists[subtreeRoot]];
      ghost var extended := node2children;
      if subtreeRoot > 0 {
        node2children := node2children + lists[..subtreeRoot];
      }
      node2children := node2children + lists[subtreeRoot + 1..];
      assert node2children == extended + lists[..subtreeRoot] + lists[subtreeRoot + 1..];
    }
  }
}
