/**
 * The state of the two nested tree editors and their handlers: the tree
 * shown and the set of expanded ids
 * (deployments/firebase-cloud/client/src/components/DraggableTreeEditor.tsx),
 * plus the selected node in
 * deployments/firebase-cloud/client/src/components/SimpleTreeEditor.tsx.
 * Each handler computes the new tree and replaces the field; the value it
 * hands to `onTreeChange` is that new tree.
 */
module TreeEditors {
  import opened Tree
  import opened TreeEdits
  import opened SiblingMoves

  /** The header total both editors show: the token estimates of every node's content, summed. */
  function HeaderTokens(f: seq<TreeNode>): (r: nat)
    ensures r == ContentTokens(f)
  {
    CountTokensIsContentTokens(f);
    CountTokens(f)
  }

  /** The node count both editors show: every node of the forest, counted once. */
  function HeaderNodes(f: seq<TreeNode>): (r: nat)
    ensures r == Size(f)
  {
    CountNodesIsSize(f);
    CountNodes(f)
  }

  /** `DraggableTreeEditor`: delete, rename, move up and down, add a child or a root, and the expander. */
  class DraggableTreeEditor {
    var tree: seq<TreeNode>
    var expanded: set<string>

    /** The state hook initialisers: the tree as given, the roots with children expanded. */
    constructor (initialTree: seq<TreeNode>)
      ensures tree == initialTree && expanded == ExpandableRoots(initialTree)
    {
      tree := initialTree;
      var s := InitialExpanded(initialTree);
      expanded := s;
    }

    /** `handleNodeDelete`. */
    method DeleteNode(nodeId: string)
      modifies this
      ensures tree == Delete(old(tree), nodeId) && expanded == old(expanded)
    {
      tree := Delete(tree, nodeId);
    }

    /** `handleNodeEdit`. */
    method EditNode(nodeId: string, newTitle: string)
      modifies this
      ensures tree == EditMatching(old(tree), nodeId, Retitle(newTitle)) && expanded == old(expanded)
    {
      tree := EditMatching(tree, nodeId, Retitle(newTitle));
    }

    /** `handleMoveUp`. */
    method MoveNodeUpIn(nodeId: string)
      modifies this
      ensures tree == MoveUp(old(tree), nodeId) && expanded == old(expanded)
    {
      var newTree := MoveNodeUp(tree, nodeId);
      tree := newTree;
    }

    /** `handleMoveDown`. */
    method MoveNodeDownIn(nodeId: string)
      modifies this
      ensures tree == MoveDown(old(tree), nodeId) && expanded == old(expanded)
    {
      var newTree := MoveNodeDown(tree, nodeId);
      tree := newTree;
    }

    /** `handleAddChild`, with the `Date.now()` stamp as a parameter; the parent id is expanded whether or not it occurs. */
    method AddChildTo(parentId: string, stamp: string)
      modifies this
      ensures tree == AddChild(old(tree), parentId, stamp) && expanded == old(expanded) + {parentId}
    {
      tree := AddChild(tree, parentId, stamp);
      expanded := expanded + {parentId};
    }

    /** `handleToggleExpanded`. */
    method ToggleExpanded(nodeId: string)
      modifies this
      ensures tree == old(tree) && expanded == Toggle(old(expanded), nodeId)
    {
      expanded := Toggle(expanded, nodeId);
    }

    /** The add-root button. */
    method AddRootSection(stamp: string)
      modifies this
      ensures tree == AddRoot(old(tree), stamp) && expanded == old(expanded)
    {
      tree := AddRoot(tree, stamp);
    }

    /** The header figures: `totalTokens` and `totalNodes`. */
    function TotalTokens(): nat
      reads this
    {
      HeaderTokens(tree)
    }

    function TotalNodes(): nat
      reads this
    {
      HeaderNodes(tree)
    }
  }

  /** `SimpleTreeEditor`: delete, rename, select and the expander. */
  class SimpleTreeEditor {
    var tree: seq<TreeNode>
    var expanded: set<string>
    var selected: Option<TreeNode>

    constructor (initialTree: seq<TreeNode>)
      ensures tree == initialTree && expanded == ExpandableRoots(initialTree) && selected == None
    {
      tree := initialTree;
      var s := InitialExpanded(initialTree);
      expanded := s;
      selected := None;
    }

    /** `handleNodeSelect`. */
    method SelectNode(node: TreeNode)
      modifies this
      ensures selected == Some(node) && tree == old(tree) && expanded == old(expanded)
    {
      selected := Some(node);
    }

    /**
     * `handleNodeDelete`: the selection is cleared only when the selected
     * node is the one deleted; a selected descendant stays selected.
     */
    method DeleteNode(nodeId: string)
      modifies this
      ensures tree == Delete(old(tree), nodeId) && expanded == old(expanded)
      ensures selected == if old(selected).Some? && old(selected).value.id == nodeId then None else old(selected)
    {
      tree := Delete(tree, nodeId);
      if selected.Some? && selected.value.id == nodeId {
        selected := None;
      }
    }

    /** `handleNodeEdit`. */
    method EditNode(nodeId: string, newTitle: string)
      modifies this
      ensures tree == EditMatching(old(tree), nodeId, Retitle(newTitle))
      ensures expanded == old(expanded) && selected == old(selected)
    {
      tree := EditMatching(tree, nodeId, Retitle(newTitle));
    }

    /** `handleToggleExpanded`. */
    method ToggleExpanded(nodeId: string)
      modifies this
      ensures tree == old(tree) && expanded == Toggle(old(expanded), nodeId) && selected == old(selected)
    {
      expanded := Toggle(expanded, nodeId);
    }

    function TotalTokens(): nat
      reads this
    {
      HeaderTokens(tree)
    }

    function TotalNodes(): nat
      reads this
    {
      HeaderNodes(tree)
    }
  }
}
