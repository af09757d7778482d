/**
 * The recursive tree rewrites shared by the nested editors
 * (deployments/firebase-cloud/client/src/components/DraggableTreeEditor.tsx,
 * deployments/firebase-cloud/client/src/components/SimpleTreeEditor.tsx) and
 * the content editor of client/src/App.tsx: delete a subtree, change one
 * field of the matching nodes, add a child, add a root, the two counters and
 * the expanded-set toggle.
 */
module TreeEdits {
  import opened Tokens
  import opened Tree

  // ---------------------------------------------------------------- delete

  /**
   * `deleteNodeRecursive`: drops every node with the id together with its
   * subtree, and rewrites the children of the nodes it keeps.
   */
  function Delete(f: seq<TreeNode>, id: string): (r: seq<TreeNode>)
    ensures |r| <= |f|
  {
    if f == [] then []
    else if f[0].id == id then Delete(f[1..], id)
    else [f[0].(children := Delete(f[0].children, id))] + Delete(f[1..], id)
  }

  /** The subtrees `Delete` removes: the nodes with the id that have no ancestor with the id, in pre-order. */
  function Removed(f: seq<TreeNode>, id: string): (r: seq<TreeNode>)
    ensures forall n :: n in r ==> n.id == id
  {
    if f == [] then []
    else if f[0].id == id then [f[0]] + Removed(f[1..], id)
    else Removed(f[0].children, id) + Removed(f[1..], id)
  }

  /** `a` is `b` with some entries left out, the others in their order. */
  predicate Subsequence<T(==)>(a: seq<T>, b: seq<T>)
    decreases |b|
  {
    if b == [] then a == []
    else (a != [] && a[0] == b[0] && Subsequence(a[1..], b[1..])) || Subsequence(a, b[1..])
  }

  lemma {:induction false} SubsequenceRefl<T>(a: seq<T>)
    ensures Subsequence(a, a)
    decreases |a|
  {
    if a != [] {
      SubsequenceRefl(a[1..]);
    }
  }

  lemma {:induction false} SubsequenceAppend<T>(a1: seq<T>, b1: seq<T>, a2: seq<T>, b2: seq<T>)
    requires Subsequence(a1, b1) && Subsequence(a2, b2)
    ensures Subsequence(a1 + a2, b1 + b2)
    decreases |b1|
  {
    if b1 == [] {
      assert a1 + a2 == a2 && b1 + b2 == b2;
    } else {
      assert (b1 + b2)[0] == b1[0] && (b1 + b2)[1..] == b1[1..] + b2;
      if a1 != [] && a1[0] == b1[0] && Subsequence(a1[1..], b1[1..]) {
        SubsequenceAppend(a1[1..], b1[1..], a2, b2);
        assert (a1 + a2)[0] == a1[0] && (a1 + a2)[1..] == a1[1..] + a2;
      } else {
        SubsequenceAppend(a1, b1[1..], a2, b2);
      }
    }
  }

  lemma {:induction false} SubsequenceSkip<T>(a: seq<T>, p: seq<T>, b: seq<T>)
    requires Subsequence(a, b)
    ensures Subsequence(a, p + b)
    decreases |p|
  {
    if p != [] {
      SubsequenceSkip(a, p[1..], b);
      assert (p + b)[1..] == p[1..] + b;
    } else {
      assert p + b == b;
    }
  }

  /** The first root and the rest of a forest, as labels. */
  lemma LabelsSplit(f: seq<TreeNode>)
    requires f != []
    ensures Labels(f) == [LabelOf(f[0])] + Labels(f[0].children) + Labels(f[1..])
  {
  }

  /** No node with the id is left, at any depth. */
  lemma {:induction false} DeleteRemovesId(f: seq<TreeNode>, id: string)
    ensures id !in Ids(Delete(f, id))
  {
    if f != [] {
      DeleteRemovesId(f[1..], id);
      if f[0].id != id {
        DeleteRemovesId(f[0].children, id);
        var n := f[0].(children := Delete(f[0].children, id));
        assert Delete(f, id) == [n] + Delete(f[1..], id);
        IdsAppend([n], Delete(f[1..], id));
        assert Ids([n]) == [n.id] + Ids(n.children) + Ids([]);
      }
    }
  }

  /** The nodes kept are in their old order, and each keeps its id, title, level and content. */
  lemma {:induction false} DeleteKeepsOrder(f: seq<TreeNode>, id: string)
    ensures Subsequence(Labels(Delete(f, id)), Labels(f))
  {
    if f != [] {
      DeleteKeepsOrder(f[1..], id);
      LabelsSplit(f);
      if f[0].id == id {
        SubsequenceSkip(Labels(Delete(f[1..], id)), [LabelOf(f[0])] + Labels(f[0].children), Labels(f[1..]));
      } else {
        DeleteKeepsOrder(f[0].children, id);
        var n := f[0].(children := Delete(f[0].children, id));
        assert Delete(f, id) == [n] + Delete(f[1..], id);
        LabelsSplit(Delete(f, id));
        SubsequenceRefl([LabelOf(f[0])]);
        SubsequenceAppend([LabelOf(f[0])], [LabelOf(f[0])], Labels(n.children), Labels(f[0].children));
        SubsequenceAppend([LabelOf(f[0])] + Labels(n.children), [LabelOf(f[0])] + Labels(f[0].children),
          Labels(Delete(f[1..], id)), Labels(f[1..]));
      }
    }
  }

  /** The node count falls by exactly the size of the removed subtrees. */
  lemma {:induction false} DeleteSize(f: seq<TreeNode>, id: string)
    ensures Size(Delete(f, id)) + Size(Removed(f, id)) == Size(f)
  {
    if f != [] {
      DeleteSize(f[1..], id);
      if f[0].id == id {
        SizeAppend([f[0]], Removed(f[1..], id));
        assert Size([f[0]]) == 1 + Size(f[0].children) + Size([]);
      } else {
        DeleteSize(f[0].children, id);
        SizeAppend(Removed(f[0].children, id), Removed(f[1..], id));
      }
    }
  }

  /** Deleting an id that does not occur gives back the same forest. */
  lemma {:induction false} DeleteAbsent(f: seq<TreeNode>, id: string)
    requires id !in Ids(f)
    ensures Delete(f, id) == f && Removed(f, id) == []
  {
    if f != [] {
      assert Ids(f) == [f[0].id] + Ids(f[0].children) + Ids(f[1..]);
      DeleteAbsent(f[0].children, id);
      DeleteAbsent(f[1..], id);
      assert f == [f[0]] + f[1..];
    }
  }

  /** With unique ids, the one subtree removed is the node the id names. */
  lemma {:induction false} DeleteUnique(f: seq<TreeNode>, id: string)
    requires UniqueIds(f)
    ensures Removed(f, id) == if FindNode(f, id).Some? then [FindNode(f, id).value] else []
  {
    FindNodeFound(f, id);
    if id !in Ids(f) {
      DeleteAbsent(f, id);
    } else if f[0].id == id {
      UniqueIdsSplit(f);
      DeleteAbsent(f[1..], id);
    } else if id in Ids(f[0].children) {
      IdInChildrenOnly(f, id);
      UniqueIdsSplit(f);
      DeleteUnique(f[0].children, id);
      DeleteAbsent(f[1..], id);
      FindNodeDescend(f, id);
    } else {
      assert Ids(f) == [f[0].id] + Ids(f[0].children) + Ids(f[1..]);
      IdInRestOnly(f, id);
      DeleteAbsent(f[0].children, id);
      DeleteUnique(f[1..], id);
      FindNodeSkip(f, id);
    }
  }

  // ------------------------------------------------------ field edits

  /** The field a `map` over the forest sets on the matching nodes. */
  datatype Edit = Retitle(title: string) | Recontent(content: string)

  function Edited(n: TreeNode, e: Edit): TreeNode {
    match e
    case Retitle(t) => n.(title := t)
    case Recontent(c) => n.(content := c)
  }

  function EditedLabel(l: Label, e: Edit): Label {
    match e
    case Retitle(t) => l.(title := t)
    case Recontent(c) => l.(content := c)
  }

  /**
   * `editNodeRecursive` (a title) and `updateNodeContent` (a content): a
   * matching node gets the new field and is not searched further; any other
   * node keeps its fields and has its children rewritten.
   */
  function EditMatching(f: seq<TreeNode>, id: string, e: Edit): (r: seq<TreeNode>)
    ensures |r| == |f|
  {
    if f == [] then []
    else
      var n := if f[0].id == id then Edited(f[0], e) else f[0].(children := EditMatching(f[0].children, id, e));
      [n] + EditMatching(f[1..], id, e)
  }

  /** Entry `i` of the result: the edited node, or the node with its children rewritten. */
  lemma {:induction false} EditAt(f: seq<TreeNode>, id: string, e: Edit, i: int)
    requires 0 <= i < |f|
    ensures EditMatching(f, id, e)[i] ==
      if f[i].id == id then Edited(f[i], e) else f[i].(children := EditMatching(f[i].children, id, e))
  {
    if i > 0 {
      EditAt(f[1..], id, e, i - 1);
    }
  }

  /** The ids, and so the node count, stay as they were. */
  lemma {:induction false} EditKeepsIds(f: seq<TreeNode>, id: string, e: Edit)
    ensures Ids(EditMatching(f, id, e)) == Ids(f) && Size(EditMatching(f, id, e)) == Size(f)
  {
    if f != [] {
      EditKeepsIds(f[0].children, id, e);
      EditKeepsIds(f[1..], id, e);
      var r := EditMatching(f, id, e);
      assert r[1..] == EditMatching(f[1..], id, e);
      if f[0].id == id {
        assert r[0].children == f[0].children;
      }
    }
  }

  /** Editing an id that does not occur gives back the same forest. */
  lemma {:induction false} EditAbsent(f: seq<TreeNode>, id: string, e: Edit)
    requires id !in Ids(f)
    ensures EditMatching(f, id, e) == f
  {
    if f != [] {
      assert Ids(f) == [f[0].id] + Ids(f[0].children) + Ids(f[1..]);
      EditAbsent(f[0].children, id, e);
      EditAbsent(f[1..], id, e);
      assert f == [f[0]] + f[1..];
    }
  }

  /** Reference reading on the pre-order: every label with the id gets the edit. */
  function EditLabels(ls: seq<Label>, id: string, e: Edit): (r: seq<Label>)
    ensures |r| == |ls|
  {
    if ls == [] then []
    else [if ls[0].id == id then EditedLabel(ls[0], e) else ls[0]] + EditLabels(ls[1..], id, e)
  }

  lemma {:induction false} EditLabelsAppend(a: seq<Label>, b: seq<Label>, id: string, e: Edit)
    ensures EditLabels(a + b, id, e) == EditLabels(a, id, e) + EditLabels(b, id, e)
  {
    if a != [] {
      assert (a + b)[0] == a[0] && (a + b)[1..] == a[1..] + b;
      EditLabelsAppend(a[1..], b, id, e);
    } else {
      assert a + b == b;
    }
  }

  lemma {:induction false} EditLabelsAbsent(f: seq<TreeNode>, id: string, e: Edit)
    requires id !in Ids(f)
    ensures EditLabels(Labels(f), id, e) == Labels(f)
  {
    if f != [] {
      assert Ids(f) == [f[0].id] + Ids(f[0].children) + Ids(f[1..]);
      EditLabelsAbsent(f[0].children, id, e);
      EditLabelsAbsent(f[1..], id, e);
      LabelsSplit(f);
      EditLabelsAppend([LabelOf(f[0])] + Labels(f[0].children), Labels(f[1..]), id, e);
      EditLabelsAppend([LabelOf(f[0])], Labels(f[0].children), id, e);
    }
  }

  /**
   * With unique ids, the pre-order of the edited forest is the old pre-order
   * with the edit applied to the one node that has the id.
   */
  lemma {:induction false} EditUnique(f: seq<TreeNode>, id: string, e: Edit)
    requires UniqueIds(f)
    ensures Labels(EditMatching(f, id, e)) == EditLabels(Labels(f), id, e)
  {
    if f != [] {
      UniqueIdsSplit(f);
      var r := EditMatching(f, id, e);
      assert r == [r[0]] + EditMatching(f[1..], id, e);
      LabelsSplit(f);
      LabelsSplit(r);
      EditLabelsAppend([LabelOf(f[0])] + Labels(f[0].children), Labels(f[1..]), id, e);
      EditLabelsAppend([LabelOf(f[0])], Labels(f[0].children), id, e);
      if f[0].id == id {
        EditAbsent(f[1..], id, e);
        EditLabelsAbsent(f[0].children, id, e);
        EditLabelsAbsent(f[1..], id, e);
        assert r[0] == Edited(f[0], e);
      } else {
        EditUnique(f[0].children, id, e);
        EditUnique(f[1..], id, e);
      }
    }
  }

  // ------------------------------------------------------ add child / root

  /** The node `addChildRecursive` appends: "New Section", one level deeper, empty. */
  function NewChild(stamp: string, level: int): TreeNode {
    TreeNode("section-" + stamp, "New Section", level, "", [], None)
  }

  /**
   * `addChildRecursive`: each matching node gets a new last child and is not
   * searched further; any other node has its children rewritten.
   */
  function AddChild(f: seq<TreeNode>, parentId: string, stamp: string): (r: seq<TreeNode>)
    ensures |r| == |f|
  {
    if f == [] then []
    else
      var n := if f[0].id == parentId
        then f[0].(children := f[0].children + [NewChild(stamp, f[0].level + 1)])
        else f[0].(children := AddChild(f[0].children, parentId, stamp));
      [n] + AddChild(f[1..], parentId, stamp)
  }

  /** Entry `i` of the result: a match with its new last child, or the node with its children rewritten. */
  lemma {:induction false} AddChildAt(f: seq<TreeNode>, parentId: string, stamp: string, i: int)
    requires 0 <= i < |f|
    ensures AddChild(f, parentId, stamp)[i] ==
      if f[i].id == parentId then f[i].(children := f[i].children + [NewChild(stamp, f[i].level + 1)])
      else f[i].(children := AddChild(f[i].children, parentId, stamp))
  {
    if i > 0 {
      AddChildAt(f[1..], parentId, stamp, i - 1);
    }
  }

  /** Adding under an id that does not occur gives back the same forest. */
  lemma {:induction false} AddChildAbsent(f: seq<TreeNode>, parentId: string, stamp: string)
    requires parentId !in Ids(f)
    ensures AddChild(f, parentId, stamp) == f
  {
    if f != [] {
      assert Ids(f) == [f[0].id] + Ids(f[0].children) + Ids(f[1..]);
      AddChildAbsent(f[0].children, parentId, stamp);
      AddChildAbsent(f[1..], parentId, stamp);
      assert f == [f[0]] + f[1..];
    }
  }

  /** With unique ids, an id that occurs gains exactly one node. */
  lemma {:induction false} AddChildUnique(f: seq<TreeNode>, parentId: string, stamp: string)
    requires UniqueIds(f) && parentId in Ids(f)
    ensures Size(AddChild(f, parentId, stamp)) == Size(f) + 1
  {
    var r := AddChild(f, parentId, stamp);
    assert Ids(f) == [f[0].id] + Ids(f[0].children) + Ids(f[1..]);
    assert r == [r[0]] + AddChild(f[1..], parentId, stamp);
    assert Size(r) == 1 + Size(r[0].children) + Size(r[1..]);
    UniqueIdsSplit(f);
    if f[0].id == parentId {
      AddChildAbsent(f[1..], parentId, stamp);
      SizeSnoc(f[0].children, NewChild(stamp, f[0].level + 1));
    } else if parentId in Ids(f[0].children) {
      AddChildUnique(f[0].children, parentId, stamp);
      AddChildAbsent(f[1..], parentId, stamp);
    } else {
      AddChildAbsent(f[0].children, parentId, stamp);
      AddChildUnique(f[1..], parentId, stamp);
    }
  }

  /** The add-root button: a level-1 "New Section" after the existing roots. */
  function AddRoot(f: seq<TreeNode>, stamp: string): (r: seq<TreeNode>)
    ensures |r| == |f| + 1 && r[..|f|] == f
    ensures r[|f|].title == "New Section" && r[|f|].level == 1 && r[|f|].content == [] && r[|f|].children == []
    ensures Size(r) == Size(f) + 1
  {
    SizeSnoc(f, TreeNode("section-" + stamp, "New Section", 1, "", [], None));
    f + [TreeNode("section-" + stamp, "New Section", 1, "", [], None)]
  }

  // ------------------------------------------------------------ counters

  /** `countNodes`: a `reduce` over the roots adding one plus the count under each. */
  function CountNodes(f: seq<TreeNode>): nat
    decreases f, 1
  {
    SumNodes(f, 0)
  }

  function SumNodes(f: seq<TreeNode>, sum: nat): nat
    decreases f, 0
  {
    if f == [] then sum else SumNodes(f[1..], sum + (1 + CountNodes(f[0].children)))
  }

  /** The count is the number of nodes. */
  lemma {:induction false} SumNodesIsSize(f: seq<TreeNode>, sum: nat)
    ensures SumNodes(f, sum) == sum + Size(f)
  {
    if f != [] {
      SumNodesIsSize(f[0].children, 0);
      SumNodesIsSize(f[1..], sum + (1 + CountNodes(f[0].children)));
    }
  }

  lemma CountNodesIsSize(f: seq<TreeNode>)
    ensures CountNodes(f) == Size(f)
  {
    SumNodesIsSize(f, 0);
  }

  /** `countTokens`: a `reduce` over the roots adding each content's estimate plus the tokens under it. */
  function CountTokens(f: seq<TreeNode>): nat
    decreases f, 1
  {
    SumTokens(f, 0)
  }

  function SumTokens(f: seq<TreeNode>, sum: nat): nat
    decreases f, 0
  {
    if f == [] then sum
    else SumTokens(f[1..], sum + (EstimateTokens(f[0].content) + CountTokens(f[0].children)))
  }

  /** The token total is the sum of the per-node estimates over every node. */
  lemma {:induction false} SumTokensIsContentTokens(f: seq<TreeNode>, sum: nat)
    ensures SumTokens(f, sum) == sum + ContentTokens(f)
  {
    if f != [] {
      SumTokensIsContentTokens(f[0].children, 0);
      SumTokensIsContentTokens(f[1..], sum + (EstimateTokens(f[0].content) + CountTokens(f[0].children)));
    }
  }

  lemma CountTokensIsContentTokens(f: seq<TreeNode>)
    ensures CountTokens(f) == ContentTokens(f)
  {
    SumTokensIsContentTokens(f, 0);
  }

  // ------------------------------------------------------- expanded set

  /** `handleToggleExpanded`: a copy of the set with the id's membership flipped. */
  function Toggle(s: set<string>, id: string): (r: set<string>)
    ensures id in r <==> id !in s
    ensures forall x :: x != id ==> (x in r <==> x in s)
  {
    if id in s then s - {id} else s + {id}
  }

  /** Toggling the same id twice restores the set. */
  lemma ToggleTwice(s: set<string>, id: string)
    ensures Toggle(Toggle(s, id), id) == s
  {
  }

  /** The ids of the roots that have children: the expanded set a new editor starts with. */
  function ExpandableRoots(f: seq<TreeNode>): set<string> {
    set i | 0 <= i < |f| && f[i].children != [] :: f[i].id
  }

  /** The `forEach` that seeds the expanded set. */
  method InitialExpanded(f: seq<TreeNode>) returns (s: set<string>)
    ensures forall id :: id in s <==> exists i :: 0 <= i < |f| && f[i].children != [] && f[i].id == id
    ensures s == ExpandableRoots(f)
  {
    s := {};
    for i := 0 to |f|
      invariant forall id :: id in s <==> exists j :: 0 <= j < i && f[j].children != [] && f[j].id == id
    {
      if f[i].children != [] {
        s := s + {f[i].id};
      }
    }
  }
}
