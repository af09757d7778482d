/**
 * The shapes the pipeline passes around: a section tree node, the flat
 * parent-pointer model a list widget uses, and an exported chunk; plus the
 * reference views of a forest (its size and its pre-order) that the
 * operations are specified against.
 */
module Tree {
  import opened Tokens

  datatype Option<T> = None | Some(value: T)

  /**
   * A section of the document. `children` is never absent here (an absent
   * list and an empty one behave alike in every operation modelled);
   * `parent` is the optional back-reference the builder fills in.
   */
  datatype TreeNode = TreeNode(
    id: string,
    title: string,
    level: int,
    content: string,
    children: seq<TreeNode>,
    parent: Option<string>)

  /** What a node says about itself, without its children and back-reference. */
  datatype Label = Label(id: string, title: string, level: int, content: string)

  /** The optional `data` payload of a flat model. */
  datatype NodeData = NodeData(level: int, content: string, originalIndex: int)

  /** One entry of the flat list: `parent` is another entry's id, or "0" for a root. */
  datatype NodeModel = NodeModel(
    id: string,
    parent: string,
    text: string,
    droppable: bool,
    data: Option<NodeData>)

  /** One exported chunk. */
  datatype DocumentChunk = DocumentChunk(
    id: string,
    title: string,
    content: string,
    level: int,
    tokenCount: int,
    parentId: Option<string>)

  function LabelOf(n: TreeNode): Label {
    Label(n.id, n.title, n.level, n.content)
  }

  /** Number of nodes in a forest, counting every depth. */
  function Size(f: seq<TreeNode>): nat {
    if f == [] then 0 else 1 + Size(f[0].children) + Size(f[1..])
  }

  /** `f` with every back-reference dropped: what a forest is apart from its `parent` fields. */
  function Unlinked(f: seq<TreeNode>): (r: seq<TreeNode>)
    ensures |r| == |f|
  {
    if f == [] then []
    else [f[0].(children := Unlinked(f[0].children), parent := None)] + Unlinked(f[1..])
  }

  /** The labels of a forest in depth-first pre-order. */
  function Labels(f: seq<TreeNode>): (r: seq<Label>)
    ensures |r| == Size(f)
  {
    if f == [] then [] else [LabelOf(f[0])] + Labels(f[0].children) + Labels(f[1..])
  }

  /** The ids of a forest in pre-order. */
  function Ids(f: seq<TreeNode>): (r: seq<string>)
    ensures |r| == Size(f)
  {
    if f == [] then [] else [f[0].id] + Ids(f[0].children) + Ids(f[1..])
  }

  /** Sum of the content token estimates over every node. */
  function ContentTokens(f: seq<TreeNode>): nat {
    if f == [] then 0
    else EstimateTokens(f[0].content) + ContentTokens(f[0].children) + ContentTokens(f[1..])
  }

  /** `id` names some node of the forest, at any depth. */
  predicate HasId(f: seq<TreeNode>, id: string) {
    id in Ids(f)
  }

  /** No two nodes of the forest share an id. */
  predicate UniqueIds(f: seq<TreeNode>) {
    forall i, j :: 0 <= i < j < |Ids(f)| ==> Ids(f)[i] != Ids(f)[j]
  }

  lemma {:induction false} SizeAppend(a: seq<TreeNode>, b: seq<TreeNode>)
    ensures Size(a + b) == Size(a) + Size(b)
  {
    if a != [] {
      assert (a + b)[0] == a[0];
      assert (a + b)[1..] == a[1..] + b;
      SizeAppend(a[1..], b);
    } else {
      assert a + b == b;
    }
  }

  lemma Regroup<T>(x: seq<T>, c: seq<T>, t: seq<T>, b: seq<T>)
    ensures x + c + (t + b) == (x + c + t) + b
  {
  }

  lemma {:induction false} LabelsAppend(a: seq<TreeNode>, b: seq<TreeNode>)
    ensures Labels(a + b) == Labels(a) + Labels(b)
  {
    if a != [] {
      var t := a[1..];
      assert (a + b)[0] == a[0];
      assert (a + b)[1..] == t + b;
      LabelsAppend(t, b);
      Regroup([LabelOf(a[0])], Labels(a[0].children), Labels(t), Labels(b));
    } else {
      assert a + b == b;
    }
  }

  lemma {:induction false} IdsAppend(a: seq<TreeNode>, b: seq<TreeNode>)
    ensures Ids(a + b) == Ids(a) + Ids(b)
  {
    if a != [] {
      var t := a[1..];
      assert (a + b)[0] == a[0];
      assert (a + b)[1..] == t + b;
      IdsAppend(t, b);
      Regroup([a[0].id], Ids(a[0].children), Ids(t), Ids(b));
    } else {
      assert a + b == b;
    }
  }

  lemma {:induction false} ContentTokensAppend(a: seq<TreeNode>, b: seq<TreeNode>)
    ensures ContentTokens(a + b) == ContentTokens(a) + ContentTokens(b)
  {
    if a != [] {
      assert (a + b)[0] == a[0];
      assert (a + b)[1..] == a[1..] + b;
      ContentTokensAppend(a[1..], b);
    } else {
      assert a + b == b;
    }
  }

  /** Appending one node `n`: its subtree follows the rest. */
  lemma SizeSnoc(a: seq<TreeNode>, n: TreeNode)
    ensures Size(a + [n]) == Size(a) + 1 + Size(n.children)
  {
    SizeAppend(a, [n]);
    assert [n][1..] == [];
  }

  lemma LabelsSnoc(a: seq<TreeNode>, n: TreeNode)
    ensures Labels(a + [n]) == Labels(a) + [LabelOf(n)] + Labels(n.children)
  {
    LabelsAppend(a, [n]);
    assert [n][1..] == [];
  }

  /** The ids are the ids of the labels. */
  lemma {:induction false} IdsAreLabelIds(f: seq<TreeNode>)
    ensures forall k :: 0 <= k < Size(f) ==> Ids(f)[k] == Labels(f)[k].id
  {
    if f != [] {
      IdsAreLabelIds(f[0].children);
      IdsAreLabelIds(f[1..]);
    }
  }

  /** The nodes of a forest in pre-order. */
  function Nodes(f: seq<TreeNode>): (r: seq<TreeNode>)
    ensures |r| == Size(f)
  {
    if f == [] then [] else [f[0]] + Nodes(f[0].children) + Nodes(f[1..])
  }

  /** The first node, its subtree, then the rest. */
  lemma NodesSplit(f: seq<TreeNode>)
    requires f != []
    ensures Nodes(f) == [f[0]] + (Nodes(f[0].children) + Nodes(f[1..]))
  {
  }

  lemma {:induction false} NodesAppend(a: seq<TreeNode>, b: seq<TreeNode>)
    ensures Nodes(a + b) == Nodes(a) + Nodes(b)
  {
    if a != [] {
      var t := a[1..];
      assert (a + b)[0] == a[0];
      assert (a + b)[1..] == t + b;
      NodesAppend(t, b);
      Regroup([a[0]], Nodes(a[0].children), Nodes(t), Nodes(b));
    } else {
      assert a + b == b;
    }
  }

  lemma {:induction false} NodesAreLabelsAndIds(f: seq<TreeNode>)
    ensures forall k :: 0 <= k < Size(f) ==>
      Ids(f)[k] == Nodes(f)[k].id && Labels(f)[k] == LabelOf(Nodes(f)[k])
  {
    if f != [] {
      NodesAreLabelsAndIds(f[0].children);
      NodesAreLabelsAndIds(f[1..]);
    }
  }

  /**
   * `findNodeInTree` (client/src/components/TreeEditor.tsx): the first node
   * with the id in depth-first pre-order.
   */
  function FindNode(f: seq<TreeNode>, id: string): (r: Option<TreeNode>)
    ensures r.Some? ==> r.value.id == id
  {
    if f == [] then None
    else if f[0].id == id then Some(f[0])
    else
      var inChildren := FindNode(f[0].children, id);
      if inChildren.Some? then inChildren else FindNode(f[1..], id)
  }

  /** A node is found exactly when the id occurs. */
  lemma {:induction false} FindNodeFound(f: seq<TreeNode>, id: string)
    ensures FindNode(f, id).Some? <==> id in Ids(f)
  {
    if f != [] {
      FindNodeFound(f[0].children, id);
      FindNodeFound(f[1..], id);
      assert Ids(f) == [f[0].id] + Ids(f[0].children) + Ids(f[1..]);
    }
  }

  /** Node `k` in pre-order is what the search finds, and no earlier node has the id. */
  predicate FoundAt(f: seq<TreeNode>, id: string, k: int) {
    FindNode(f, id).Some? && 0 <= k < Size(f) && Nodes(f)[k] == FindNode(f, id).value &&
    forall j :: 0 <= j < k ==> Ids(f)[j] != id
  }

  /** The node found is the first node with that id in pre-order. */
  lemma {:induction false} FindNodeFirst(f: seq<TreeNode>, id: string)
    requires FindNode(f, id).Some?
    ensures exists k :: FoundAt(f, id, k)
  {
    if f[0].id == id {
      assert FoundAt(f, id, 0);
    } else if FindNode(f[0].children, id).Some? {
      FindNodeFirst(f[0].children, id);
      var k :| FoundAt(f[0].children, id, k);
      FoundInChildren(f, id, k);
    } else {
      FindNodeFirst(f[1..], id);
      var k :| FoundAt(f[1..], id, k);
      assert id !in Ids(f[0].children) by { FindNodeFound(f[0].children, id); }
      FoundInRest(f, id, k);
    }
  }

  lemma FoundInChildren(f: seq<TreeNode>, id: string, k: int)
    requires f != [] && f[0].id != id && FoundAt(f[0].children, id, k)
    ensures FoundAt(f, id, k + 1)
  {
    var ids := Ids(f);
    var ns := Nodes(f);
    assert ids == [f[0].id] + Ids(f[0].children) + Ids(f[1..]);
    assert ns == [f[0]] + Nodes(f[0].children) + Nodes(f[1..]);
    assert ns[k + 1] == Nodes(f[0].children)[k];
    forall j | 0 <= j < k + 1 ensures ids[j] != id {
      if j > 0 { assert ids[j] == Ids(f[0].children)[j - 1]; }
    }
  }

  lemma FoundInRest(f: seq<TreeNode>, id: string, k: int)
    requires f != [] && f[0].id != id && FindNode(f[0].children, id).None? && id !in Ids(f[0].children)
    requires FoundAt(f[1..], id, k)
    ensures FoundAt(f, id, 1 + Size(f[0].children) + k)
  {
    assert Ids(f) == [f[0].id] + Ids(f[0].children) + Ids(f[1..]);
    assert Nodes(f) == [f[0]] + Nodes(f[0].children) + Nodes(f[1..]);
    AbsentBefore(Ids(f), f[0].id, Ids(f[0].children), Ids(f[1..]), id, k);
    ElementPast(Nodes(f), f[0], Nodes(f[0].children), Nodes(f[1..]), k);
  }

  /** A value missing from the head, the middle part and the first `n` of the last part is missing from the matching prefix. */
  lemma AbsentBefore<T>(all: seq<T>, x: T, a: seq<T>, b: seq<T>, v: T, n: int)
    requires all == [x] + a + b && x != v && v !in a && 0 <= n <= |b|
    requires forall j :: 0 <= j < n ==> b[j] != v
    ensures forall j :: 0 <= j < 1 + |a| + n ==> all[j] != v
  {
    forall j | 0 <= j < 1 + |a| + n ensures all[j] != v {
      if 0 < j <= |a| { assert all[j] == a[j - 1]; }
      if j > |a| { assert all[j] == b[j - 1 - |a|]; }
    }
  }

  /** Position `n` of the last part of a three-part sequence. */
  lemma ElementPast<T>(all: seq<T>, x: T, a: seq<T>, b: seq<T>, n: int)
    requires all == [x] + a + b && 0 <= n < |b|
    ensures all[1 + |a| + n] == b[n]
  {
  }

  lemma ElementInside<T>(all: seq<T>, x: T, a: seq<T>, b: seq<T>, n: int)
    requires all == [x] + a + b && 0 <= n < |a|
    ensures all[1 + n] == a[n]
  {
  }

  /** The ids of `[f[0]]`, its subtree and the rest are pairwise disjoint and each unique. */
  lemma UniqueIdsSplit(f: seq<TreeNode>)
    requires f != [] && UniqueIds(f)
    ensures UniqueIds(f[0].children) && UniqueIds(f[1..])
    ensures f[0].id !in Ids(f[0].children) && f[0].id !in Ids(f[1..])
    ensures forall q :: q in Ids(f[0].children) ==> q !in Ids(f[1..])
  {
    var a := Ids(f[0].children);
    var b := Ids(f[1..]);
    assert Ids(f) == [f[0].id] + a + b;
    DistinctMiddle(Ids(f), f[0].id, a, b);
    DistinctLast(Ids(f), f[0].id, a, b);
    DistinctHead(Ids(f), f[0].id, a, b);
    DistinctApart(Ids(f), f[0].id, a, b);
  }

  predicate Distinct<T(==)>(s: seq<T>) {
    forall i, j :: 0 <= i < j < |s| ==> s[i] != s[j]
  }

  lemma DistinctMiddle<T>(all: seq<T>, x: T, a: seq<T>, b: seq<T>)
    requires all == [x] + a + b && Distinct(all)
    ensures Distinct(a)
  {
    forall i, j | 0 <= i < j < |a| ensures a[i] != a[j] {
      assert a[i] == all[1 + i] && a[j] == all[1 + j];
    }
  }

  lemma DistinctLast<T>(all: seq<T>, x: T, a: seq<T>, b: seq<T>)
    requires all == [x] + a + b && Distinct(all)
    ensures Distinct(b)
  {
    forall i, j | 0 <= i < j < |b| ensures b[i] != b[j] {
      assert b[i] == all[1 + |a| + i] && b[j] == all[1 + |a| + j];
    }
  }

  lemma DistinctHead<T>(all: seq<T>, x: T, a: seq<T>, b: seq<T>)
    requires all == [x] + a + b && Distinct(all)
    ensures x !in a && x !in b
  {
    assert all[0] == x;
    forall i | 0 <= i < |a| ensures a[i] != x { assert a[i] == all[1 + i]; }
    forall i | 0 <= i < |b| ensures b[i] != x { assert b[i] == all[1 + |a| + i]; }
  }

  lemma DistinctApart<T>(all: seq<T>, x: T, a: seq<T>, b: seq<T>)
    requires all == [x] + a + b && Distinct(all)
    ensures forall q :: q in a ==> q !in b
  {
    forall i, j | 0 <= i < |a| && 0 <= j < |b| ensures a[i] != b[j] {
      assert a[i] == all[1 + i] && b[j] == all[1 + |a| + j];
    }
  }

  /** In a forest with unique ids, every node is what a search for its id finds. */
  lemma FindEveryNode(f: seq<TreeNode>)
    requires UniqueIds(f)
    ensures forall k :: 0 <= k < Size(f) ==> FindNode(f, Nodes(f)[k].id) == Some(Nodes(f)[k])
  {
    forall k | 0 <= k < Size(f) ensures FindNode(f, Nodes(f)[k].id) == Some(Nodes(f)[k]) {
      FindNodeAt(f, k);
    }
  }

  lemma {:induction false} FindNodeAt(f: seq<TreeNode>, k: int)
    requires UniqueIds(f) && 0 <= k < Size(f)
    ensures FindNode(f, Nodes(f)[k].id) == Some(Nodes(f)[k])
    decreases f, 1
  {
    if 0 < k <= Size(f[0].children) {
      FindNodeInChildren(f, k);
    } else if k > Size(f[0].children) {
      FindNodeInRest(f, k);
    }
  }

  lemma {:induction false} FindNodeInChildren(f: seq<TreeNode>, k: int)
    requires UniqueIds(f) && f != [] && 0 < k <= Size(f[0].children)
    ensures FindNode(f, Nodes(f)[k].id) == Some(Nodes(f)[k])
    decreases f, 0
  {
    var ch := f[0].children;
    NodeInChildren(f, k);
    NodeIdAt(ch, k - 1);
    IdInChildrenOnly(f, Nodes(f)[k].id);
    FindNodeDescend(f, Nodes(f)[k].id);
    FindNodeAt(ch, k - 1);
  }

  lemma {:induction false} FindNodeInRest(f: seq<TreeNode>, k: int)
    requires UniqueIds(f) && f != [] && Size(f[0].children) < k < Size(f)
    ensures FindNode(f, Nodes(f)[k].id) == Some(Nodes(f)[k])
    decreases f, 0
  {
    var rest, j := f[1..], k - 1 - Size(f[0].children);
    var x := Nodes(f)[k];
    NodeInRest(f, k);
    assert x == Nodes(rest)[j];
    NodeIdAt(rest, j);
    IdInRestOnly(f, x.id);
    FindNodeSkip(f, x.id);
    FindNodeAt(rest, j);
  }

  /** With unique ids, an id under the first root is not the first root's, and the subtree's ids are unique. */
  lemma IdInChildrenOnly(f: seq<TreeNode>, id: string)
    requires f != [] && UniqueIds(f) && id in Ids(f[0].children)
    ensures f[0].id != id && UniqueIds(f[0].children)
  {
    UniqueIdsSplit(f);
  }

  /** With unique ids, an id among the remaining roots' subtrees occurs neither at nor under the first root. */
  lemma IdInRestOnly(f: seq<TreeNode>, id: string)
    requires f != [] && UniqueIds(f) && id in Ids(f[1..])
    ensures f[0].id != id && id !in Ids(f[0].children) && UniqueIds(f[1..])
  {
    UniqueIdsSplit(f);
  }

  /** An id occurring under the first root, and not the first root's own, is searched for there. */
  lemma FindNodeDescend(f: seq<TreeNode>, id: string)
    requires f != [] && f[0].id != id && id in Ids(f[0].children)
    ensures FindNode(f, id) == FindNode(f[0].children, id)
  {
    FindNodeFound(f[0].children, id);
  }

  /** An id occurring neither at nor under the first root is searched for among the remaining roots. */
  lemma FindNodeSkip(f: seq<TreeNode>, id: string)
    requires f != [] && f[0].id != id && id !in Ids(f[0].children)
    ensures FindNode(f, id) == FindNode(f[1..], id)
  {
    FindNodeFound(f[0].children, id);
  }

  /** The id of node `k` is id `k`, so it occurs among the ids. */
  lemma NodeIdAt(f: seq<TreeNode>, k: int)
    requires 0 <= k < Size(f)
    ensures Nodes(f)[k].id == Ids(f)[k] && Nodes(f)[k].id in Ids(f)
  {
    NodesAreLabelsAndIds(f);
  }

  /** The node at position `k` of a forest, inside the first root's subtree. */
  lemma NodeInChildren(f: seq<TreeNode>, k: int)
    requires f != [] && 0 < k <= Size(f[0].children)
    ensures Nodes(f)[k] == Nodes(f[0].children)[k - 1]
  {
    ElementInside(Nodes(f), f[0], Nodes(f[0].children), Nodes(f[1..]), k - 1);
  }

  /** The node at position `k` of a forest, past the first root's subtree. */
  lemma NodeInRest(f: seq<TreeNode>, k: int)
    requires f != [] && Size(f[0].children) < k < Size(f)
    ensures Nodes(f)[k] == Nodes(f[1..])[k - 1 - Size(f[0].children)]
  {
    ElementPast(Nodes(f), f[0], Nodes(f[0].children), Nodes(f[1..]), k - 1 - Size(f[0].children));
  }

  /**
   * The back-references of `f`: its roots carry `p`, and each child carries
   * its parent's id when `linkParents` holds and nothing otherwise.
   */
  predicate ParentLinks(f: seq<TreeNode>, p: Option<string>, linkParents: bool) {
    forall i :: 0 <= i < |f| ==>
      f[i].parent == p &&
      ParentLinks(f[i].children, if linkParents then Some(f[i].id) else None, linkParents)
  }

  lemma ParentLinksSnoc(f: seq<TreeNode>, n: TreeNode, p: Option<string>, linkParents: bool)
    requires ParentLinks(f, p, linkParents) && n.parent == p
    requires ParentLinks(n.children, if linkParents then Some(n.id) else None, linkParents)
    ensures ParentLinks(f + [n], p, linkParents)
  {
    var g := f + [n];
    forall i | 0 <= i < |g|
      ensures g[i].parent == p &&
        ParentLinks(g[i].children, if linkParents then Some(g[i].id) else None, linkParents)
    {
      if i < |f| { assert g[i] == f[i]; }
    }
  }

  /** The ids of the roots, in order. */
  function RootIds(f: seq<TreeNode>): (r: seq<string>)
    ensures |r| == |f|
  {
    if f == [] then [] else [f[0].id] + RootIds(f[1..])
  }
}
