/**
 * The flat-list tree editor (client/src/components/TreeEditor.tsx): it
 * keeps the forest as the parent-pointer list `treeData`, deletes a model
 * together with every model whose chain of parent links reaches it, renames
 * by id, and converts back to a forest for its callers.
 */
module FlatEditor {
  import opened Tokens
  import opened Tree
  import opened NodeModels
  import opened TreeEdits

  // ------------------------------------------------------- parent chains

  /** `treeData.find(n => n.id === id)`: the first model with the id. */
  function FindModel(ms: seq<NodeModel>, id: string): (r: Option<NodeModel>)
    ensures r.Some? ==> r.value in ms && r.value.id == id
    ensures r.None? <==> forall k :: 0 <= k < |ms| ==> ms[k].id != id
  {
    if ms == [] then None
    else if ms[0].id == id then Some(ms[0])
    else FindModel(ms[1..], id)
  }

  /** The loop test of `isDescendantOf`: a parent id that is present, non-empty and not the root marker `"0"`. */
  predicate Climbing(p: Option<string>) {
    p.Some? && p.value != "" && p.value != "0"
  }

  /** One step up: the parent of the model with id `p`, or nothing when no model has that id. */
  function Up(ms: seq<NodeModel>, p: string): Option<string> {
    var found := FindModel(ms, p);
    if found.Some? then Some(found.value.parent) else None
  }

  /** The walk up from `p` stops within `fuel` steps. */
  predicate Ends(ms: seq<NodeModel>, p: Option<string>, fuel: nat)
    decreases fuel
  {
    !Climbing(p) || (fuel > 0 && Ends(ms, Up(ms, p.value), fuel - 1))
  }

  /** The parent ids the walk up from `p` visits, at most `fuel` of them. */
  function Chain(ms: seq<NodeModel>, p: Option<string>, fuel: nat): (r: seq<string>)
    ensures |r| <= fuel
    decreases fuel
  {
    if !Climbing(p) || fuel == 0 then [] else [p.value] + Chain(ms, Up(ms, p.value), fuel - 1)
  }

  /** Once the walk ends, more fuel neither stops it ending nor changes what it visits. */
  lemma {:induction false} ChainFuel(ms: seq<NodeModel>, p: Option<string>, fuel: nat, more: nat)
    requires Ends(ms, p, fuel) && fuel <= more
    ensures Ends(ms, p, more) && Chain(ms, p, more) == Chain(ms, p, fuel)
    decreases fuel
  {
    if Climbing(p) {
      ChainFuel(ms, Up(ms, p.value), fuel - 1, more - 1);
    }
  }

  /** A model listed first under its id whose parent is itself makes the walk run forever. */
  lemma {:induction false} SelfParentNeverEnds(ms: seq<NodeModel>, x: string, fuel: nat)
    requires Climbing(Some(x)) && FindModel(ms, x).Some? && FindModel(ms, x).value.parent == x
    ensures !Ends(ms, Some(x), fuel)
    decreases fuel
  {
    if fuel > 0 {
      SelfParentNeverEnds(ms, x, fuel - 1);
    }
  }

  /**
   * `isDescendantOf`: walks the parent links from `node.parent` until an
   * empty id, `"0"` or an id with no model. The ghost `fuel` bounds the
   * walk; without such a bound (a cycle of parent links) the loop does not
   * terminate.
   */
  method IsDescendantOf(node: NodeModel, ancestorId: string, treeData: seq<NodeModel>, ghost fuel: nat)
    returns (r: bool)
    requires Ends(treeData, Some(node.parent), fuel)
    ensures r <==> ancestorId in Chain(treeData, Some(node.parent), fuel)
  {
    var currentParent: Option<string> := Some(node.parent);
    ghost var left := fuel;
    while Climbing(currentParent)
      invariant Ends(treeData, currentParent, left)
      invariant (ancestorId in Chain(treeData, Some(node.parent), fuel)) <==>
        (ancestorId in Chain(treeData, currentParent, left))
      decreases left
    {
      if currentParent.value == ancestorId {
        return true;
      }
      var parentNode := FindModel(treeData, currentParent.value);
      currentParent := if parentNode.Some? then Some(parentNode.value.parent) else None;
      left := left - 1;
    }
    return false;
  }

  // ------------------------------------------------------- flat delete

  /** The filter test of `handleNodeDelete` for one model of `all`. */
  predicate Kept(all: seq<NodeModel>, id: string, fuel: nat, m: NodeModel) {
    m.id != id && id !in Chain(all, Some(m.parent), fuel)
  }

  /** The models of `ms` that pass the filter, in order; the chains are walked in `all`. */
  function KeptModels(all: seq<NodeModel>, ms: seq<NodeModel>, id: string, fuel: nat): (r: seq<NodeModel>)
    ensures |r| <= |ms|
  {
    if ms == [] then []
    else
      var last := ms[|ms| - 1];
      KeptModels(all, ms[..|ms| - 1], id, fuel) + (if Kept(all, id, fuel, last) then [last] else [])
  }

  /** Every walk from a model's parent ends within `fuel` steps. */
  predicate AllEnd(ms: seq<NodeModel>, fuel: nat) {
    forall k :: 0 <= k < |ms| ==> Ends(ms, Some(ms[k].parent), fuel)
  }

  /** The filter of `handleNodeDelete`, with the descendant test short-circuited as in `&&`. */
  method FlatDelete(treeData: seq<NodeModel>, nodeId: string, ghost fuel: nat) returns (newTreeData: seq<NodeModel>)
    requires AllEnd(treeData, fuel)
    ensures newTreeData == KeptModels(treeData, treeData, nodeId, fuel)
  {
    newTreeData := [];
    for i := 0 to |treeData|
      invariant newTreeData == KeptModels(treeData, treeData[..i], nodeId, fuel)
    {
      var node := treeData[i];
      var keep := false;
      if node.id != nodeId {
        var descendant := IsDescendantOf(node, nodeId, treeData, fuel);
        keep := !descendant;
      }
      assert treeData[..i + 1][..i] == treeData[..i];
      if keep {
        newTreeData := newTreeData + [node];
      }
    }
    assert treeData[..|treeData|] == treeData;
  }

  /** A model survives exactly when it is in the list, has another id and its chain avoids the id. */
  lemma {:induction false} KeptMembers(all: seq<NodeModel>, ms: seq<NodeModel>, id: string, fuel: nat, m: NodeModel)
    ensures m in KeptModels(all, ms, id, fuel) <==> m in ms && Kept(all, id, fuel, m)
  {
    if ms != [] {
      var init := ms[..|ms| - 1];
      KeptMembers(all, init, id, fuel, m);
      assert ms == init + [ms[|ms| - 1]];
    }
  }

  /** The survivors keep their relative order. */
  lemma {:induction false} KeptInOrder(all: seq<NodeModel>, ms: seq<NodeModel>, id: string, fuel: nat)
    ensures Subsequence(KeptModels(all, ms, id, fuel), ms)
  {
    if ms == [] {
      SubsequenceRefl(ms);
    } else {
      var init, last := ms[..|ms| - 1], ms[|ms| - 1];
      KeptInOrder(all, init, id, fuel);
      var piece := if Kept(all, id, fuel, last) then [last] else [];
      if piece == [] {
        assert Subsequence(piece, [last]) by { assert [last][1..] == []; }
      } else {
        assert Subsequence(piece, [last]) by { assert piece[1..] == [] && [last][1..] == []; }
      }
      SubsequenceAppend(KeptModels(all, init, id, fuel), init, piece, [last]);
      assert init + [last] == ms;
    }
  }

  /** Nothing is deleted when no model has the id and no chain reaches it. */
  lemma {:induction false} KeptAll(all: seq<NodeModel>, ms: seq<NodeModel>, id: string, fuel: nat)
    requires forall k :: 0 <= k < |ms| ==> Kept(all, id, fuel, ms[k])
    ensures KeptModels(all, ms, id, fuel) == ms
  {
    if ms != [] {
      KeptAll(all, ms[..|ms| - 1], id, fuel);
    }
  }

  /**
   * The delete leaves no orphan among first-listed models: when a survivor's
   * parent id names a model, the model `find` returns for it survives too.
   */
  lemma KeptParentKept(all: seq<NodeModel>, id: string, fuel: nat, m: NodeModel)
    requires Ends(all, Some(m.parent), fuel) && Kept(all, id, fuel, m)
    requires Climbing(Some(m.parent)) && FindModel(all, m.parent).Some?
    ensures Kept(all, id, fuel, FindModel(all, m.parent).value)
  {
    var p := FindModel(all, m.parent).value;
    assert Chain(all, Some(m.parent), fuel) == [m.parent] + Chain(all, Some(p.parent), fuel - 1);
    ChainFuel(all, Some(p.parent), fuel - 1, fuel);
  }

  // ------------------------------------------------------- flat edit

  /** `handleNodeEdit`: every model with the id gets the new `text`. */
  function FlatEdit(ms: seq<NodeModel>, id: string, newTitle: string): (r: seq<NodeModel>)
    ensures |r| == |ms|
  {
    if ms == [] then []
    else
      var m := if ms[0].id == id then ms[0].(text := newTitle) else ms[0];
      [m] + FlatEdit(ms[1..], id, newTitle)
  }

  /**
   * Entry by entry: a model with the id differs only in `text`, which is the
   * new title; every other model is unchanged.
   */
  lemma {:induction false} FlatEditEntries(ms: seq<NodeModel>, id: string, newTitle: string, k: int)
    requires 0 <= k < |ms|
    ensures ms[k].id == id ==> FlatEdit(ms, id, newTitle)[k] == ms[k].(text := newTitle)
    ensures ms[k].id != id ==> FlatEdit(ms, id, newTitle)[k] == ms[k]
  {
    if k > 0 {
      FlatEditEntries(ms[1..], id, newTitle, k - 1);
    }
  }

  /** A list without the id is returned unchanged. */
  lemma {:induction false} FlatEditAbsent(ms: seq<NodeModel>, id: string, newTitle: string)
    requires FindModel(ms, id).None?
    ensures FlatEdit(ms, id, newTitle) == ms
  {
    if ms != [] {
      FlatEditAbsent(ms[1..], id, newTitle);
    }
  }

  /** Renaming twice with the same title is renaming once. */
  lemma {:induction false} FlatEditIdempotent(ms: seq<NodeModel>, id: string, newTitle: string)
    ensures FlatEdit(FlatEdit(ms, id, newTitle), id, newTitle) == FlatEdit(ms, id, newTitle)
  {
    if ms != [] {
      FlatEditIdempotent(ms[1..], id, newTitle);
    }
  }

  // ------------------------------------------------------- token total

  /** `treeData.reduce((sum, node) => sum + estimateTokens(node.data?.content || ''), 0)`. */
  function FlatTokens(ms: seq<NodeModel>): nat {
    if ms == [] then 0 else FlatTokens(ms[..|ms| - 1]) + EstimateTokens(ContentOrEmpty(ms[|ms| - 1]))
  }

  /** The estimates of the contents of `ns`, added in order. */
  function NodeTokens(ns: seq<TreeNode>): nat {
    if ns == [] then 0 else NodeTokens(ns[..|ns| - 1]) + EstimateTokens(ns[|ns| - 1].content)
  }

  lemma {:induction false} NodeTokensAppend(a: seq<TreeNode>, b: seq<TreeNode>)
    ensures NodeTokens(a + b) == NodeTokens(a) + NodeTokens(b)
  {
    if b == [] {
      assert a + b == a;
    } else {
      var init := b[..|b| - 1];
      NodeTokensAppend(a, init);
      assert (a + b)[..|a + b| - 1] == a + init;
    }
  }

  /** The per-node content estimates of a forest, added in pre-order, are its content tokens. */
  lemma {:induction false} NodeTokensOfForest(f: seq<TreeNode>)
    ensures NodeTokens(Nodes(f)) == ContentTokens(f)
  {
    if f != [] {
      NodeTokensOfForest(f[0].children);
      NodeTokensOfForest(f[1..]);
      NodeTokensAppend([f[0]] + Nodes(f[0].children), Nodes(f[1..]));
      NodeTokensAppend([f[0]], Nodes(f[0].children));
      assert NodeTokens([f[0]]) == EstimateTokens(f[0].content) by {
        assert [f[0]][..0] == [];
      }
    }
  }

  lemma {:induction false} FlatTokensNumbered(ns: seq<TreeNode>, ps: seq<string>, start: int)
    requires |ns| == |ps|
    ensures FlatTokens(Numbered(ns, ps, start)) == NodeTokens(ns)
  {
    if ns != [] {
      var n := |ns|;
      FlatTokensNumbered(ns[..n - 1], ps[..n - 1], start);
      assert Numbered(ns, ps, start)[..n - 1] == Numbered(ns[..n - 1], ps[..n - 1], start);
    }
  }

  /** The flat total of a converted forest equals the nested editors' total. */
  lemma FlatTokensOfTree(f: seq<TreeNode>)
    ensures FlatTokens(ModelsOf(f, "0", 0)) == ContentTokens(f)
  {
    FlatTokensNumbered(Nodes(f), ParentIds(f, "0"), 0);
    NodeTokensOfForest(f);
  }

  // ------------------------------------------------------- node search

  lemma FindNodeStep(tree: seq<TreeNode>, i: int, id: string)
    requires 0 <= i < |tree|
    ensures FindNode(tree[i..], id) ==
      if tree[i].id == id then Some(tree[i])
      else if FindNode(tree[i].children, id).Some? then FindNode(tree[i].children, id)
      else FindNode(tree[i + 1..], id)
  {
    assert tree[i..][0] == tree[i] && tree[i..][1..] == tree[i + 1..];
  }

  /** `findNodeInTree`: the loop over the siblings with the recursive search of each subtree. */
  method FindNodeInTree(tree: seq<TreeNode>, nodeId: string) returns (r: Option<TreeNode>)
    ensures r == FindNode(tree, nodeId)
    decreases tree
  {
    for i := 0 to |tree|
      invariant FindNode(tree[i..], nodeId) == FindNode(tree, nodeId)
    {
      var node := tree[i];
      FindNodeStep(tree, i, nodeId);
      if node.id == nodeId {
        return Some(node);
      }
      var found := FindNodeInTree(node.children, nodeId);
      if found.Some? {
        return found;
      }
    }
    assert tree[|tree|..] == [];
    return None;
  }

  // ------------------------------------------------------- the component

  /** `TreeEditor`'s state: the flat list and the selected model. */
  class FlatTreeEditor {
    var treeData: seq<NodeModel>
    var selected: Option<NodeModel>

    /** The state initialisers: the flat form of the initial forest, nothing selected. */
    constructor (initialTree: seq<TreeNode>)
      ensures treeData == ModelsOf(initialTree, "0", 0) && selected == None
    {
      var models := TreeToNodeModels(initialTree);
      treeData := models;
      selected := None;
    }

    /** `handleDrop`: the drag-and-drop library's new list replaces the old; the forest is handed on. */
    method Drop(newTreeData: seq<NodeModel>) returns (newTree: seq<TreeNode>)
      modifies this
      ensures treeData == newTreeData && selected == old(selected)
      ensures newTree == ModelsToForest(newTreeData)
    {
      treeData := newTreeData;
      newTree := NodeModelsToTree(newTreeData);
    }

    /** `handleNodeSelect`: records the model and looks the node up in the converted forest. */
    method SelectNode(node: NodeModel) returns (found: Option<TreeNode>)
      modifies this
      ensures selected == Some(node) && treeData == old(treeData)
      ensures found == FindNode(ModelsToForest(treeData), node.id)
    {
      selected := Some(node);
      var tree := NodeModelsToTree(treeData);
      found := FindNodeInTree(tree, node.id);
    }

    /** `handleNodeDelete`: the filtered list, its forest, and the selection cleared when it is the deleted id. */
    method DeleteNode(nodeId: string, ghost fuel: nat) returns (newTree: seq<TreeNode>)
      requires AllEnd(treeData, fuel)
      modifies this
      ensures treeData == KeptModels(old(treeData), old(treeData), nodeId, fuel)
      ensures newTree == ModelsToForest(treeData)
      ensures selected == if old(selected).Some? && old(selected).value.id == nodeId then None else old(selected)
    {
      var newTreeData := FlatDelete(treeData, nodeId, fuel);
      treeData := newTreeData;
      newTree := NodeModelsToTree(newTreeData);
      if selected.Some? && selected.value.id == nodeId {
        selected := None;
      }
    }

    /** `handleNodeEdit`. */
    method EditNode(nodeId: string, newTitle: string) returns (newTree: seq<TreeNode>)
      modifies this
      ensures treeData == FlatEdit(old(treeData), nodeId, newTitle) && selected == old(selected)
      ensures newTree == ModelsToForest(treeData)
    {
      treeData := FlatEdit(treeData, nodeId, newTitle);
      newTree := NodeModelsToTree(treeData);
    }

    /** The header figure `totalTokens`. */
    function TotalTokens(): nat
      reads this
    {
      FlatTokens(treeData)
    }
  }
}
