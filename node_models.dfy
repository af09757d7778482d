/**
 * The flat parent-pointer form of a section forest and back
 * (`treeToNodeModels` and `nodeModelsToTree` in
 * deployments/local-selfhosted/client/src/utils/markdownParser.ts).
 */
module NodeModels {
  import opened Tree

  // ------------------------------------------------------- tree to models

  /** The entry for `n` under `parent`, numbered `index`. */
  function ModelOf(n: TreeNode, parent: string, index: int): NodeModel {
    NodeModel(n.id, parent, n.title, true, Some(NodeData(n.level, n.content, index)))
  }

  /** The parent id of every node of `f`, in pre-order, when its roots hang under `parent`. */
  function ParentIds(f: seq<TreeNode>, parent: string): (r: seq<string>)
    ensures |r| == Size(f)
  {
    if f == [] then []
    else [parent] + ParentIds(f[0].children, f[0].id) + ParentIds(f[1..], parent)
  }

  /** Pairs each node with its parent id and numbers the entries from `start`. */
  function Numbered(ns: seq<TreeNode>, ps: seq<string>, start: int): seq<NodeModel>
    requires |ns| == |ps|
  {
    seq(|ns|, k requires 0 <= k < |ns| => ModelOf(ns[k], ps[k], start + k))
  }

  /** The entries of `f` under `parent`, numbered from `start`. */
  function ModelsOf(f: seq<TreeNode>, parent: string, start: int): (r: seq<NodeModel>)
    ensures |r| == Size(f)
  {
    Numbered(Nodes(f), ParentIds(f, parent), start)
  }

  /**
   * Entry `k` is the `k`-th node in pre-order, under its parent, with
   * `originalIndex` equal to `start + k`.
   */
  lemma ModelsInPreOrder(f: seq<TreeNode>, parent: string, start: int)
    ensures forall k :: 0 <= k < Size(f) ==>
      ModelsOf(f, parent, start)[k] == ModelOf(Nodes(f)[k], ParentIds(f, parent)[k], start + k)
  {
  }

  lemma NumberedAppend(a: seq<TreeNode>, b: seq<TreeNode>, pa: seq<string>, pb: seq<string>, start: int)
    requires |a| == |pa| && |b| == |pb|
    ensures Numbered(a + b, pa + pb, start) == Numbered(a, pa, start) + Numbered(b, pb, start + |a|)
  {
    var l := Numbered(a + b, pa + pb, start);
    var r := Numbered(a, pa, start) + Numbered(b, pb, start + |a|);
    forall k | 0 <= k < |l| ensures l[k] == r[k] {
      if k < |a| {
        assert (a + b)[k] == a[k] && (pa + pb)[k] == pa[k];
      } else {
        assert (a + b)[k] == b[k - |a|] && (pa + pb)[k] == pb[k - |a|];
      }
    }
  }

  /** The entries of a forest: the first root, its subtree, then the other roots. */
  lemma ModelsSplit(f: seq<TreeNode>, parent: string, start: int)
    requires f != []
    ensures ModelsOf(f, parent, start) ==
      [ModelOf(f[0], parent, start)] + ModelsOf(f[0].children, f[0].id, start + 1)
      + ModelsOf(f[1..], parent, start + 1 + Size(f[0].children))
  {
    var ch := f[0].children;
    var ns, nr := Nodes(ch), Nodes(f[1..]);
    var ps, pr := ParentIds(ch, f[0].id), ParentIds(f[1..], parent);
    assert Nodes(f) == [f[0]] + ns + nr;
    assert ParentIds(f, parent) == [parent] + ps + pr;
    NumberedAppend([f[0]] + ns, nr, [parent] + ps, pr, start);
    NumberedAppend([f[0]], ns, [parent], ps, start);
    assert Numbered([f[0]], [parent], start) == [ModelOf(f[0], parent, start)];
  }

  /** One step of the loop in `traverse`: the entries from sibling `i` on. */
  lemma TraverseStep(nodes: seq<TreeNode>, i: int, parent: string, start: int)
    requires 0 <= i < |nodes|
    ensures ModelsOf(nodes[i..], parent, start) ==
      [ModelOf(nodes[i], parent, start)] + ModelsOf(nodes[i].children, nodes[i].id, start + 1)
      + ModelsOf(nodes[i + 1..], parent, start + 1 + Size(nodes[i].children))
    ensures Size(nodes[i..]) == 1 + Size(nodes[i].children) + Size(nodes[i + 1..])
  {
    assert nodes[i..][0] == nodes[i] && nodes[i..][1..] == nodes[i + 1..];
    ModelsSplit(nodes[i..], parent, start);
  }

  /** The recursive `traverse`: appends the entries of `nodes` and advances the counter. */
  method Traverse(nodes: seq<TreeNode>, parentId: string, modelsIn: seq<NodeModel>, indexIn: int)
    returns (models: seq<NodeModel>, index: int)
    ensures models == modelsIn + ModelsOf(nodes, parentId, indexIn)
    ensures index == indexIn + Size(nodes)
  {
    models := modelsIn;
    index := indexIn;
    ghost var target := modelsIn + ModelsOf(nodes, parentId, indexIn);
    for i := 0 to |nodes|
      invariant models + ModelsOf(nodes[i..], parentId, index) == target
      invariant index + Size(nodes[i..]) == indexIn + Size(nodes)
    {
      var node := nodes[i];
      ghost var before, start := models, index;
      models := models + [NodeModel(node.id, parentId, node.title, true, Some(NodeData(node.level, node.content, index)))];
      index := index + 1;
      if |node.children| > 0 {
        models, index := Traverse(node.children, node.id, models, index);
      }
      TraverseInvariant(nodes, i, parentId, start, before, models, index, target);
    }
    assert nodes[|nodes|..] == [];
  }

  /** The loop invariant of `traverse` survives one sibling. */
  lemma TraverseInvariant(nodes: seq<TreeNode>, i: int, parent: string, start: int,
                          before: seq<NodeModel>, models: seq<NodeModel>, index: int, target: seq<NodeModel>)
    requires 0 <= i < |nodes|
    requires before + ModelsOf(nodes[i..], parent, start) == target
    requires models == before + [ModelOf(nodes[i], parent, start)] + ModelsOf(nodes[i].children, nodes[i].id, start + 1)
    requires index == start + 1 + Size(nodes[i].children)
    ensures models + ModelsOf(nodes[i + 1..], parent, index) == target
    ensures index + Size(nodes[i + 1..]) == start + Size(nodes[i..])
  {
    TraverseStep(nodes, i, parent, start);
    StepAssoc(before, [ModelOf(nodes[i], parent, start)], ModelsOf(nodes[i].children, nodes[i].id, start + 1),
      ModelsOf(nodes[i + 1..], parent, index), models, ModelsOf(nodes[i..], parent, start), target);
  }

  lemma StepAssoc<T>(before: seq<T>, a: seq<T>, b: seq<T>, c: seq<T>, now: seq<T>, whole: seq<T>, target: seq<T>)
    requires before + whole == target && whole == a + b + c && now == before + a + b
    ensures now + c == target
  {
    assert before + (a + b + c) == before + a + b + c;
  }

  /** `treeToNodeModels`: roots hang under `"0"` and the count starts at 0. */
  method TreeToNodeModels(tree: seq<TreeNode>) returns (models: seq<NodeModel>)
    ensures models == ModelsOf(tree, "0", 0)
  {
    var index;
    models, index := Traverse(tree, "0", [], 0);
  }

  /** A parent is always listed before its children: every parent id is `parent` or an earlier id. */
  lemma ParentsPrecede(f: seq<TreeNode>, parent: string)
    ensures forall k :: 0 <= k < Size(f) ==> ParentListedBefore(f, parent, k)
  {
    forall k | 0 <= k < Size(f) ensures ParentListedBefore(f, parent, k) {
      ParentPrecedes(f, parent, k);
    }
  }

  /** The parent of node `k` is `parent`, or the id of a node listed before `k`. */
  predicate ParentListedBefore(f: seq<TreeNode>, parent: string, k: int)
    requires 0 <= k < Size(f)
  {
    ParentIds(f, parent)[k] == parent || exists j :: 0 <= j < k && Ids(f)[j] == ParentIds(f, parent)[k]
  }

  lemma {:induction false} ParentPrecedes(f: seq<TreeNode>, parent: string, k: int)
    requires 0 <= k < Size(f)
    ensures ParentListedBefore(f, parent, k)
    decreases f, 1
  {
    var c := Size(f[0].children);
    if k == 0 {
      assert ParentIds(f, parent)[0] == parent;
    } else if k <= c {
      ParentPrecedesInChildren(f, parent, k);
    } else {
      ParentPrecedesInRest(f, parent, k);
    }
  }

  lemma {:induction false} ParentPrecedesInChildren(f: seq<TreeNode>, parent: string, k: int)
    requires f != [] && 0 < k <= Size(f[0].children)
    ensures ParentIds(f, parent)[k] == parent || exists j :: 0 <= j < k && Ids(f)[j] == ParentIds(f, parent)[k]
    decreases f, 0
  {
    var ch := f[0].children;
    IndexInChildren(f, parent, k);
    ParentPrecedes(ch, f[0].id, k - 1);
    var x := ParentIds(f, parent)[k];
    if x == f[0].id {
      assert Ids(f)[0] == x;
    } else {
      var j :| 0 <= j < k - 1 && Ids(ch)[j] == x;
      IndexInChildren(f, parent, j + 1);
    }
  }

  lemma {:induction false} ParentPrecedesInRest(f: seq<TreeNode>, parent: string, k: int)
    requires f != [] && Size(f[0].children) < k < Size(f)
    ensures ParentIds(f, parent)[k] == parent || exists j :: 0 <= j < k && Ids(f)[j] == ParentIds(f, parent)[k]
    decreases f, 0
  {
    var c, rest := Size(f[0].children), f[1..];
    IndexInRest(f, parent, k);
    ParentPrecedes(rest, parent, k - 1 - c);
    var x := ParentIds(f, parent)[k];
    if x != parent {
      var j :| 0 <= j < k - 1 - c && Ids(rest)[j] == x;
      IdInRest(f, j + 1 + c);
      assert Ids(f)[j + 1 + c] == x;
    }
  }

  /** The id at position `k` of a forest, past the first root's subtree. */
  lemma IdInRest(f: seq<TreeNode>, k: int)
    requires f != [] && Size(f[0].children) < k < Size(f)
    ensures Ids(f)[k] == Ids(f[1..])[k - 1 - Size(f[0].children)]
  {
    ElementPast(Ids(f), f[0].id, Ids(f[0].children), Ids(f[1..]), k - 1 - Size(f[0].children));
  }

  /** Position `k` of a forest, for `k` inside the first root's subtree. */
  lemma IndexInChildren(f: seq<TreeNode>, parent: string, k: int)
    requires f != [] && 0 < k <= Size(f[0].children)
    ensures ParentIds(f, parent)[k] == ParentIds(f[0].children, f[0].id)[k - 1]
    ensures Ids(f)[k] == Ids(f[0].children)[k - 1]
  {
    ParentIdInChildren(f, parent, k);
    ElementInside(Ids(f), f[0].id, Ids(f[0].children), Ids(f[1..]), k - 1);
  }

  /** Position `k` of a forest, for `k` past the first root's subtree. */
  lemma IndexInRest(f: seq<TreeNode>, parent: string, k: int)
    requires f != [] && Size(f[0].children) < k < Size(f)
    ensures var c := Size(f[0].children);
      ParentIds(f, parent)[k] == ParentIds(f[1..], parent)[k - 1 - c] && Ids(f)[k] == Ids(f[1..])[k - 1 - c]
  {
    ParentIdInRest(f, parent, k);
    IdInRest(f, k);
  }

  // ------------------------------------------------------- models to tree

  /** `model.data?.level || 1`: a missing or zero level becomes 1. */
  function LevelOrOne(m: NodeModel): int {
    if m.data.Some? && m.data.value.level != 0 then m.data.value.level else 1
  }

  /** `model.data?.content || ''`. */
  function ContentOrEmpty(m: NodeModel): string {
    if m.data.Some? then m.data.value.content else ""
  }

  /** The node created for a model in the first loop. */
  function FreshNode(m: NodeModel): TreeNode {
    TreeNode(m.id, m.text, LevelOrOne(m), ContentOrEmpty(m), [], None)
  }

  /** The id-to-node map after the first loop; a later model with the same id wins. */
  function NodeMapOf(ms: seq<NodeModel>): map<string, TreeNode> {
    if ms == [] then map[]
    else NodeMapOf(ms[..|ms| - 1])[ms[|ms| - 1].id := FreshNode(ms[|ms| - 1])]
  }

  /** The ids of the models whose `parent` field is `q`, in order. */
  function IdsWithParent(ms: seq<NodeModel>, q: string): seq<string> {
    if ms == [] then []
    else IdsWithParent(ms[..|ms| - 1], q) + (if ms[|ms| - 1].parent == q then [ms[|ms| - 1].id] else [])
  }

  /** A model is attached below another node when its parent is not `"0"` and is present. */
  predicate Attaches(m: NodeModel, present: set<string>) {
    m.parent != "0" && m.parent in present
  }

  function KidsAt(kids: map<string, seq<string>>, id: string): seq<string> {
    if id in kids then kids[id] else []
  }

  function ParentAt(parents: map<string, string>, id: string): Option<string> {
    if id in parents then Some(parents[id]) else None
  }

  /** The children lists after the second loop, by parent id. */
  function KidsMapOf(ms: seq<NodeModel>, present: set<string>): map<string, seq<string>> {
    if ms == [] then map[]
    else
      var kids := KidsMapOf(ms[..|ms| - 1], present);
      var m := ms[|ms| - 1];
      if Attaches(m, present) then kids[m.parent := KidsAt(kids, m.parent) + [m.id]] else kids
  }

  /** The `parent` back-references after the second loop; the last attachment wins. */
  function ParentsMapOf(ms: seq<NodeModel>, present: set<string>): map<string, string> {
    if ms == [] then map[]
    else
      var parents := ParentsMapOf(ms[..|ms| - 1], present);
      var m := ms[|ms| - 1];
      if Attaches(m, present) then parents[m.id := m.parent] else parents
  }

  /** The object graph the two loops build: nodes by id, children ids and back-references. */
  datatype Graph = Graph(nodes: map<string, TreeNode>, kids: map<string, seq<string>>, parents: map<string, string>)

  /**
   * The forest reachable from `ids`, read off the graph as values. Nodes
   * more than `fuel` levels deep are cut off; with `fuel` at least the
   * number of models this only happens for cyclic parent links.
   */
  function Materialize(g: Graph, ids: seq<string>, fuel: nat): seq<TreeNode>
    decreases fuel, |ids|
  {
    if ids == [] || fuel == 0 then []
    else if ids[0] !in g.nodes then Materialize(g, ids[1..], fuel)
    else
      var id := ids[0];
      [g.nodes[id].(children := Materialize(g, KidsAt(g.kids, id), fuel - 1), parent := ParentAt(g.parents, id))]
      + Materialize(g, ids[1..], fuel)
  }

  function GraphOf(ms: seq<NodeModel>): Graph {
    var nodes := NodeMapOf(ms);
    Graph(nodes, KidsMapOf(ms, nodes.Keys), ParentsMapOf(ms, nodes.Keys))
  }

  /** The forest `nodeModelsToTree` returns. */
  function ModelsToForest(ms: seq<NodeModel>): seq<TreeNode> {
    Materialize(GraphOf(ms), IdsWithParent(ms, "0"), |ms|)
  }

  /**
   * `nodeModelsToTree`: the first loop fills the id map, the second collects
   * the roots, the children lists and the back-references.
   */
  method NodeModelsToTree(models: seq<NodeModel>) returns (rootNodes: seq<TreeNode>)
    ensures rootNodes == ModelsToForest(models)
  {
    var nodeMap: map<string, TreeNode> := map[];
    for i := 0 to |models|
      invariant nodeMap == NodeMapOf(models[..i])
    {
      var model := models[i];
      assert models[..i + 1][..i] == models[..i];
      nodeMap := nodeMap[model.id := TreeNode(model.id, model.text, LevelOrOne(model), ContentOrEmpty(model), [], None)];
    }
    assert models[..|models|] == models;
    var roots: seq<string> := [];
    var kids: map<string, seq<string>> := map[];
    var parents: map<string, string> := map[];
    for i := 0 to |models|
      invariant roots == IdsWithParent(models[..i], "0")
      invariant kids == KidsMapOf(models[..i], nodeMap.Keys)
      invariant parents == ParentsMapOf(models[..i], nodeMap.Keys)
    {
      var model := models[i];
      assert models[..i + 1][..i] == models[..i];
      if model.parent == "0" {
        roots := roots + [model.id];
      } else if model.parent in nodeMap {
        kids := kids[model.parent := KidsAt(kids, model.parent) + [model.id]];
        parents := parents[model.id := model.parent];
      }
    }
    rootNodes := Materialize(Graph(nodeMap, kids, parents), roots, |models|);
  }

  // ------------------------------------------------------------ lookups

  /** The keys of the node map are the ids of the models. */
  lemma {:induction false} NodeMapKeys(ms: seq<NodeModel>)
    ensures forall q :: q in NodeMapOf(ms) <==> exists i :: 0 <= i < |ms| && ms[i].id == q
  {
    if ms != [] {
      NodeMapKeys(ms[..|ms| - 1]);
      var init := ms[..|ms| - 1];
      forall q | q in NodeMapOf(ms) ensures exists i :: 0 <= i < |ms| && ms[i].id == q {
        if q != ms[|ms| - 1].id {
          assert q in NodeMapOf(init);
          var i :| 0 <= i < |init| && init[i].id == q;
          assert ms[i].id == q;
        }
      }
      forall q | exists i :: 0 <= i < |ms| && ms[i].id == q ensures q in NodeMapOf(ms) {
        var i :| 0 <= i < |ms| && ms[i].id == q;
        if i < |ms| - 1 { assert init[i].id == q; }
      }
    }
  }

  /**
   * Children lists hold exactly the models whose parent is a present id
   * other than `"0"`, in order: a model with an absent parent is dropped.
   */
  lemma {:induction false} KidsLookup(ms: seq<NodeModel>, present: set<string>, q: string)
    ensures KidsAt(KidsMapOf(ms, present), q) ==
      if q != "0" && q in present then IdsWithParent(ms, q) else []
  {
    if ms != [] {
      KidsLookup(ms[..|ms| - 1], present, q);
    }
  }

  /** The roots are exactly the models whose parent is `"0"`, in order. */
  lemma RootsAreZeroParented(ms: seq<NodeModel>)
    ensures forall q :: q in IdsWithParent(ms, "0") <==> exists i :: 0 <= i < |ms| && ms[i].parent == "0" && ms[i].id == q
  {
    IdsWithParentMembers(ms, "0");
  }

  lemma {:induction false} IdsWithParentMembers(ms: seq<NodeModel>, p: string)
    ensures forall q :: q in IdsWithParent(ms, p) <==> exists i :: 0 <= i < |ms| && ms[i].parent == p && ms[i].id == q
  {
    if ms != [] {
      var init := ms[..|ms| - 1];
      IdsWithParentMembers(init, p);
      forall q ensures q in IdsWithParent(ms, p) <==> exists i :: 0 <= i < |ms| && ms[i].parent == p && ms[i].id == q {
        if q in IdsWithParent(init, p) {
          var i :| 0 <= i < |init| && init[i].parent == p && init[i].id == q;
          assert ms[i] == init[i];
        }
        if exists i :: 0 <= i < |ms| && ms[i].parent == p && ms[i].id == q {
          var i :| 0 <= i < |ms| && ms[i].parent == p && ms[i].id == q;
          if i < |init| { assert init[i] == ms[i]; }
        }
      }
    }
  }

  // ------------------------------------------------ structure of ModelsOf

  /** The ids hanging under `q` in the entries of `f`: the roots when `q` is the root parent, else `q`'s children. */
  lemma ChildrenOfModels(f: seq<TreeNode>, p: string, s: int, q: string)
    requires UniqueIds(f) && p !in Ids(f)
    ensures IdsWithParent(ModelsOf(f, p, s), q) == ChildIdsOf(f, p, q)
  {
    WithParentNumbered(Nodes(f), ParentIds(f, p), s, q);
    ChildIdsInForest(f, p, q);
  }

  /** The ids of the nodes `ns` whose parent in `ps` is `q`, in order. */
  function IdsUnder(ns: seq<TreeNode>, ps: seq<string>, q: string): seq<string>
    requires |ns| == |ps|
  {
    if ns == [] then []
    else IdsUnder(ns[..|ns| - 1], ps[..|ps| - 1], q) + (if ps[|ps| - 1] == q then [ns[|ns| - 1].id] else [])
  }

  lemma {:induction false} WithParentNumbered(ns: seq<TreeNode>, ps: seq<string>, s: int, q: string)
    requires |ns| == |ps|
    ensures IdsWithParent(Numbered(ns, ps, s), q) == IdsUnder(ns, ps, q)
  {
    if ns != [] {
      var n := |ns| - 1;
      assert Numbered(ns, ps, s)[..n] == Numbered(ns[..n], ps[..n], s);
      WithParentNumbered(ns[..n], ps[..n], s, q);
    }
  }

  lemma {:induction false} IdsUnderAppend(a: seq<TreeNode>, b: seq<TreeNode>, pa: seq<string>, pb: seq<string>, q: string)
    requires |a| == |pa| && |b| == |pb|
    ensures IdsUnder(a + b, pa + pb, q) == IdsUnder(a, pa, q) + IdsUnder(b, pb, q)
  {
    if b == [] {
      assert a + b == a && pa + pb == pa;
    } else {
      var n := |b| - 1;
      assert (a + b)[..|a + b| - 1] == a + b[..n];
      assert (pa + pb)[..|pa + pb| - 1] == pa + pb[..n];
      IdsUnderAppend(a, b[..n], pa, pb[..n], q);
    }
  }

  lemma {:induction false} ChildIdsInForest(f: seq<TreeNode>, p: string, q: string)
    requires UniqueIds(f) && p !in Ids(f)
    ensures IdsUnder(Nodes(f), ParentIds(f, p), q) == ChildIdsOf(f, p, q)
  {
    if f != [] {
      IdsUnderSplit(f, p, q);
      ForestSplitIds(f, p);
      ChildIdsInForest(f[0].children, f[0].id, q);
      ChildIdsInForest(f[1..], p, q);
      ChildIdsSplit(f, p, q);
    }
  }

  lemma IdsUnderSplit(f: seq<TreeNode>, p: string, q: string)
    requires f != []
    ensures IdsUnder(Nodes(f), ParentIds(f, p), q) == (if p == q then [f[0].id] else [])
      + IdsUnder(Nodes(f[0].children), ParentIds(f[0].children, f[0].id), q)
      + IdsUnder(Nodes(f[1..]), ParentIds(f[1..], p), q)
  {
    var r := f[0];
    var ns, nr := Nodes(r.children), Nodes(f[1..]);
    var ps, pr := ParentIds(r.children, r.id), ParentIds(f[1..], p);
    assert Nodes(f) == [r] + ns + nr;
    assert ParentIds(f, p) == [p] + ps + pr;
    IdsUnderCons(r, ns, nr, p, ps, pr, q);
  }

  lemma IdsUnderCons(r: TreeNode, ns: seq<TreeNode>, nr: seq<TreeNode>, p: string, ps: seq<string>, pr: seq<string>, q: string)
    requires |ns| == |ps| && |nr| == |pr|
    ensures IdsUnder([r] + ns + nr, [p] + ps + pr, q) ==
      (if p == q then [r.id] else []) + IdsUnder(ns, ps, q) + IdsUnder(nr, pr, q)
  {
    IdsUnderAppend([r] + ns, nr, [p] + ps, pr, q);
    IdsUnderAppend([r], ns, [p], ps, q);
    assert [r][..0] == [] && [p][..0] == [];
  }

  /** Uniqueness and the absence of `p` pass to the first subtree and to the other roots. */
  lemma ForestSplitIds(f: seq<TreeNode>, p: string)
    requires f != [] && UniqueIds(f) && p !in Ids(f)
    ensures UniqueIds(f[0].children) && UniqueIds(f[1..])
    ensures f[0].id != p && f[0].id !in Ids(f[0].children)
    ensures p !in Ids(f[0].children) && p !in Ids(f[1..])
  {
    UniqueIdsSplit(f);
    assert Ids(f) == [f[0].id] + Ids(f[0].children) + Ids(f[1..]);
  }

  /** Model-free statement of which ids hang under `q`. */
  function ChildIdsOf(f: seq<TreeNode>, p: string, q: string): seq<string> {
    if q == p then RootIds(f)
    else if FindNode(f, q).Some? then RootIds(FindNode(f, q).value.children)
    else []
  }

  /** How the ids under `q` split over the first root, its subtree and the remaining roots. */
  predicate ChildIdsSplitAt(f: seq<TreeNode>, p: string, q: string)
    requires f != []
  {
    ChildIdsOf(f, p, q) ==
      (if p == q then [f[0].id] else []) + ChildIdsOf(f[0].children, f[0].id, q) + ChildIdsOf(f[1..], p, q)
  }

  lemma ChildIdsSplit(f: seq<TreeNode>, p: string, q: string)
    requires f != [] && UniqueIds(f) && p !in Ids(f)
    ensures ChildIdsSplitAt(f, p, q)
  {
    if q == p {
      assert Ids(f) == [f[0].id] + Ids(f[0].children) + Ids(f[1..]);
      ChildIdsOfParent(f, p);
    } else if q == f[0].id {
      UniqueIdsSplit(f);
      ChildIdsOfFirst(f, p);
    } else if q in Ids(f[0].children) {
      UniqueIdsSplit(f);
      ChildIdsInFirst(f, p, q);
    } else {
      ChildIdsInRest(f, p, q);
    }
  }

  lemma ChildIdsOfParent(f: seq<TreeNode>, p: string)
    requires f != [] && f[0].id != p && p !in Ids(f[0].children)
    ensures ChildIdsSplitAt(f, p, p)
  {
    FindNodeFound(f[0].children, p);
  }

  lemma ChildIdsOfFirst(f: seq<TreeNode>, p: string)
    requires f != [] && f[0].id != p && f[0].id !in Ids(f[1..])
    ensures ChildIdsSplitAt(f, p, f[0].id)
  {
    FindNodeFound(f[1..], f[0].id);
  }

  lemma ChildIdsInRest(f: seq<TreeNode>, p: string, q: string)
    requires f != [] && q != p && q != f[0].id && q !in Ids(f[0].children)
    ensures ChildIdsSplitAt(f, p, q)
  {
    FindNodeFound(f[0].children, q);
  }

  lemma ChildIdsInFirst(f: seq<TreeNode>, p: string, q: string)
    requires f != [] && q != p && q != f[0].id && q in Ids(f[0].children) && q !in Ids(f[1..])
    ensures ChildIdsSplitAt(f, p, q)
  {
    FindNodeFound(f[1..], q);
    FindNodeFound(f[0].children, q);
  }

  /** The entry of the last model with a given id is that model's fresh node. */
  lemma {:induction false} NodeMapLast(ms: seq<NodeModel>, i: nat)
    requires i < |ms| && forall j :: i < j < |ms| ==> ms[j].id != ms[i].id
    ensures ms[i].id in NodeMapOf(ms) && NodeMapOf(ms)[ms[i].id] == FreshNode(ms[i])
  {
    if i < |ms| - 1 {
      var init := ms[..|ms| - 1];
      assert init[i] == ms[i];
      forall j | i < j < |init| ensures init[j].id != init[i].id {
        assert init[j] == ms[j];
      }
      NodeMapLast(init, i);
    }
  }

  /** Entry `k` of the models of `f` carries the `k`-th id of `f`. */
  lemma ModelIds(f: seq<TreeNode>, p: string, s: int)
    ensures forall k :: 0 <= k < Size(f) ==> ModelsOf(f, p, s)[k].id == Ids(f)[k]
  {
    ModelsInPreOrder(f, p, s);
    NodesAreLabelsAndIds(f);
  }

  /** The node map of the entries of `f` has exactly the ids of `f` as keys. */
  lemma ModelMapKeys(f: seq<TreeNode>, p: string, s: int)
    ensures forall q :: q in NodeMapOf(ModelsOf(f, p, s)) <==> q in Ids(f)
  {
    var ms := ModelsOf(f, p, s);
    NodeMapKeys(ms);
    ModelIds(f, p, s);
    forall q ensures q in NodeMapOf(ms) <==> q in Ids(f) {
      if q in Ids(f) {
        var k :| 0 <= k < |Ids(f)| && Ids(f)[k] == q;
        assert ms[k].id == q;
      }
    }
  }

  /** The node map of the entries of `f` gives node `k` childless and unlinked, with the level default applied. */
  lemma NodesOfModels(f: seq<TreeNode>, p: string, s: int, k: int)
    requires UniqueIds(f) && 0 <= k < Size(f)
    ensures var n := Nodes(f)[k]; var nm := NodeMapOf(ModelsOf(f, p, s));
      n.id in nm && nm[n.id] == TreeNode(n.id, n.title, if n.level != 0 then n.level else 1, n.content, [], None)
  {
    var ms := ModelsOf(f, p, s);
    ModelIds(f, p, s);
    forall j | k < j < |ms| ensures ms[j].id != ms[k].id {
      assert ms[j].id == Ids(f)[j];
    }
    NodeMapLast(ms, k);
    ModelsInPreOrder(f, p, s);
  }

  /** The back-reference recorded for the model with a unique id: its parent exactly when it attaches. */
  lemma {:induction false} ParentsMapLast(ms: seq<NodeModel>, present: set<string>, i: nat)
    requires i < |ms| && forall j :: 0 <= j < |ms| && j != i ==> ms[j].id != ms[i].id
    ensures ParentAt(ParentsMapOf(ms, present), ms[i].id) ==
      if Attaches(ms[i], present) then Some(ms[i].parent) else None
  {
    var init := ms[..|ms| - 1];
    if i == |ms| - 1 {
      forall j | 0 <= j < |init| ensures init[j].id != ms[i].id {
        assert init[j] == ms[j];
      }
      ParentsMapMissing(init, present, ms[i].id);
    } else {
      assert init[i] == ms[i];
      forall j | 0 <= j < |init| && j != i ensures init[j].id != init[i].id {
        assert init[j] == ms[j];
      }
      ParentsMapLast(init, present, i);
    }
  }

  /** An id no model carries gets no back-reference. */
  lemma {:induction false} ParentsMapMissing(ms: seq<NodeModel>, present: set<string>, q: string)
    requires forall j :: 0 <= j < |ms| ==> ms[j].id != q
    ensures q !in ParentsMapOf(ms, present)
  {
    if ms != [] {
      var init := ms[..|ms| - 1];
      forall j | 0 <= j < |init| ensures init[j].id != q {
        assert init[j] == ms[j];
      }
      ParentsMapMissing(init, present, q);
    }
  }

  /** What the graph must hold about one node for the node to be read back as it was. */
  predicate Holds(g: Graph, n: TreeNode) {
    n.id in g.nodes && g.nodes[n.id] == n.(children := [], parent := None)
    && KidsAt(g.kids, n.id) == RootIds(n.children) && ParentAt(g.parents, n.id) == n.parent
  }

  /** The graph holds every node of `t`, at every depth. */
  predicate Describes(g: Graph, t: seq<TreeNode>) {
    t != [] ==> Holds(g, t[0]) && Describes(g, t[0].children) && Describes(g, t[1..])
  }

  /** Reading a described forest back from the ids of its roots gives the forest, when the fuel covers its size. */
  lemma {:induction false} MaterializeDescribed(g: Graph, t: seq<TreeNode>, fuel: nat)
    requires Describes(g, t) && fuel >= Size(t)
    ensures Materialize(g, RootIds(t), fuel) == t
  {
    if t != [] {
      var n := t[0];
      var ids := RootIds(t);
      assert ids[0] == n.id && ids[1..] == RootIds(t[1..]);
      MaterializeDescribed(g, n.children, fuel - 1);
      MaterializeDescribed(g, t[1..], fuel);
      assert g.nodes[n.id].(children := n.children, parent := n.parent) == n;
      assert t == [n] + t[1..];
    }
  }

  /** A forest each of whose nodes the graph holds is described by it. */
  lemma {:induction false} DescribesAll(g: Graph, t: seq<TreeNode>)
    requires forall k :: 0 <= k < Size(t) ==> Holds(g, Nodes(t)[k])
    ensures Describes(g, t)
  {
    if t != [] {
      assert Holds(g, Nodes(t)[0]);
      forall k | 0 <= k < Size(t[0].children) ensures Holds(g, Nodes(t[0].children)[k]) {
        NodeInChildren(t, k + 1);
      }
      forall k | 0 <= k < Size(t[1..]) ensures Holds(g, Nodes(t[1..])[k]) {
        NodeInRest(t, k + 1 + Size(t[0].children));
      }
      DescribesAll(g, t[0].children);
      DescribesAll(g, t[1..]);
    }
  }

  /** `Some(p)` for a parent id, `None` for the root marker `"0"`. */
  function ParentRef(p: string): Option<string> {
    if p == "0" then None else Some(p)
  }

  /** With builder-style back-references, node `k` refers to its parent id, roots to nothing. */
  lemma {:induction false} ParentLinkAt(f: seq<TreeNode>, p: string, k: int)
    requires ParentLinks(f, ParentRef(p), true) && "0" !in Ids(f) && 0 <= k < Size(f)
    ensures Nodes(f)[k].parent == ParentRef(ParentIds(f, p)[k])
    decreases f, 1
  {
    var c := Size(f[0].children);
    if k == 0 {
      assert f[0].parent == ParentRef(p);
    } else if k <= c {
      ParentLinkInChildren(f, p, k);
    } else {
      ParentLinkInRest(f, p, k);
    }
  }

  lemma {:induction false} ParentLinkInChildren(f: seq<TreeNode>, p: string, k: int)
    requires ParentLinks(f, ParentRef(p), true) && "0" !in Ids(f) && f != [] && 0 < k <= Size(f[0].children)
    ensures Nodes(f)[k].parent == ParentRef(ParentIds(f, p)[k])
    decreases f, 0
  {
    ParentLinksParts(f, ParentRef(p), true);
    AbsentFromParts(f, "0");
    ParentIdInChildren(f, p, k);
    NodeInChildren(f, k);
    ParentLinkAt(f[0].children, f[0].id, k - 1);
  }

  lemma {:induction false} ParentLinkInRest(f: seq<TreeNode>, p: string, k: int)
    requires ParentLinks(f, ParentRef(p), true) && "0" !in Ids(f) && f != [] && Size(f[0].children) < k < Size(f)
    ensures Nodes(f)[k].parent == ParentRef(ParentIds(f, p)[k])
    decreases f, 0
  {
    ParentLinksParts(f, ParentRef(p), true);
    AbsentFromParts(f, "0");
    var j := k - 1 - Size(f[0].children);
    ParentLinkAt(f[1..], p, j);
    ParentIdInRest(f, p, k);
    NodeInRest(f, k);
    LinkTransfer(Nodes(f)[k], Nodes(f[1..])[j], ParentIds(f, p)[k], ParentIds(f[1..], p)[j]);
  }

  lemma LinkTransfer(a: TreeNode, b: TreeNode, x: string, y: string)
    requires a == b && x == y && b.parent == ParentRef(y)
    ensures a.parent == ParentRef(x)
  {
  }

  lemma ParentLinksParts(f: seq<TreeNode>, p: Option<string>, linkParents: bool)
    requires f != [] && ParentLinks(f, p, linkParents)
    ensures f[0].parent == p
    ensures ParentLinks(f[0].children, if linkParents then Some(f[0].id) else None, linkParents)
    ensures ParentLinks(f[1..], p, linkParents)
  {
    assert forall i :: 0 <= i < |f[1..]| ==> f[1..][i] == f[i + 1];
  }

  lemma AbsentFromParts(f: seq<TreeNode>, q: string)
    requires f != [] && q !in Ids(f)
    ensures q != f[0].id && q !in Ids(f[0].children) && q !in Ids(f[1..])
  {
    assert Ids(f) == [f[0].id] + Ids(f[0].children) + Ids(f[1..]);
  }

  lemma ParentIdInChildren(f: seq<TreeNode>, p: string, k: int)
    requires f != [] && 0 < k <= Size(f[0].children)
    ensures ParentIds(f, p)[k] == ParentIds(f[0].children, f[0].id)[k - 1]
  {
    ElementInside(ParentIds(f, p), p, ParentIds(f[0].children, f[0].id), ParentIds(f[1..], p), k - 1);
  }

  lemma ParentIdInRest(f: seq<TreeNode>, p: string, k: int)
    requires f != [] && Size(f[0].children) < k < Size(f)
    ensures ParentIds(f, p)[k] == ParentIds(f[1..], p)[k - 1 - Size(f[0].children)]
  {
    ElementPast(ParentIds(f, p), p, ParentIds(f[0].children, f[0].id), ParentIds(f[1..], p), k - 1 - Size(f[0].children));
  }

  /** The conditions under which `nodeModelsToTree` undoes `treeToNodeModels`. */
  predicate RoundTrips(f: seq<TreeNode>) {
    UniqueIds(f) && "0" !in Ids(f) && forall k :: 0 <= k < Size(f) ==> Nodes(f)[k].level != 0
  }

  /** The round-trip conditions, for a forest whose back-references are already builder-style. */
  predicate LinkedRoundTrips(f: seq<TreeNode>) {
    RoundTrips(f) && ParentLinks(f, None, true)
  }

  lemma NodeEntry(f: seq<TreeNode>, k: int)
    requires LinkedRoundTrips(f) && 0 <= k < Size(f)
    ensures var n := Nodes(f)[k]; var g := GraphOf(ModelsOf(f, "0", 0));
      n.id in g.nodes && g.nodes[n.id] == n.(children := [], parent := None)
  {
    NodesOfModels(f, "0", 0, k);
  }

  lemma KidsEntry(f: seq<TreeNode>, k: int)
    requires LinkedRoundTrips(f) && 0 <= k < Size(f)
    ensures var n := Nodes(f)[k]; KidsAt(GraphOf(ModelsOf(f, "0", 0)).kids, n.id) == RootIds(n.children)
  {
    var n := Nodes(f)[k];
    var ms := ModelsOf(f, "0", 0);
    NodesOfModels(f, "0", 0, k);
    NodesAreLabelsAndIds(f);
    assert n.id in Ids(f);
    KidsLookup(ms, NodeMapOf(ms).Keys, n.id);
    ChildrenOfModels(f, "0", 0, n.id);
    FindEveryNode(f);
  }

  lemma ParentEntry(f: seq<TreeNode>, k: int)
    requires LinkedRoundTrips(f) && 0 <= k < Size(f)
    ensures var n := Nodes(f)[k]; ParentAt(GraphOf(ModelsOf(f, "0", 0)).parents, n.id) == n.parent
  {
    var ms := ModelsOf(f, "0", 0);
    var keys := NodeMapOf(ms).Keys;
    var x := ParentIds(f, "0")[k];
    ModelIds(f, "0", 0);
    NodesAreLabelsAndIds(f);
    forall j | 0 <= j < |ms| && j != k ensures ms[j].id != ms[k].id {
      assert ms[j].id == Ids(f)[j] && ms[k].id == Ids(f)[k];
    }
    ParentsMapLast(ms, keys, k);
    ModelsInPreOrder(f, "0", 0);
    assert ms[k].parent == x;
    ParentLinkAt(f, "0", k);
    if x != "0" {
      ParentPrecedes(f, "0", k);
      var j :| 0 <= j < k && Ids(f)[j] == x;
      ModelMapKeys(f, "0", 0);
    }
  }

  /** The round trip on a forest that already carries builder-style back-references. */
  lemma LinkedRoundTrip(f: seq<TreeNode>)
    requires LinkedRoundTrips(f)
    ensures ModelsToForest(ModelsOf(f, "0", 0)) == f
  {
    var ms := ModelsOf(f, "0", 0);
    var g := GraphOf(ms);
    forall k | 0 <= k < Size(f) ensures Holds(g, Nodes(f)[k]) {
      NodeEntry(f, k);
      KidsEntry(f, k);
      ParentEntry(f, k);
    }
    DescribesAll(g, f);
    ChildrenOfModels(f, "0", 0, "0");
    MaterializeDescribed(g, f, |ms|);
  }

  // ------------------------------------------------- back-references

  /**
   * `f` with its back-references set the way `nodeModelsToTree` sets them:
   * the roots refer to `p`, every other node to its parent's id.
   */
  function Relinked(f: seq<TreeNode>, p: Option<string>): (r: seq<TreeNode>)
    ensures |r| == |f|
  {
    if f == [] then []
    else [f[0].(children := Relinked(f[0].children, Some(f[0].id)), parent := p)] + Relinked(f[1..], p)
  }

  /**
   * Relinking changes nothing but back-references: the same nodes in the
   * same shape, with the same labels, and the links are then builder-style.
   */
  lemma {:induction false} RelinkedShape(f: seq<TreeNode>, p: Option<string>)
    ensures Unlinked(Relinked(f, p)) == Unlinked(f)
    ensures Labels(Relinked(f, p)) == Labels(f) && Ids(Relinked(f, p)) == Ids(f)
    ensures ParentLinks(Relinked(f, p), p, true)
  {
    if f != [] {
      var r := Relinked(f, p);
      RelinkedShape(f[0].children, Some(f[0].id));
      RelinkedShape(f[1..], p);
      assert r[0].children == Relinked(f[0].children, Some(f[0].id)) && r[1..] == Relinked(f[1..], p);
      forall i | 0 <= i < |r|
        ensures r[i].parent == p && ParentLinks(r[i].children, Some(r[i].id), true)
      {
        if i > 0 { assert r[i] == r[1..][i - 1]; }
      }
    }
  }

  /** A forest whose back-references are already builder-style is its own relinking. */
  lemma {:induction false} RelinkedLinked(f: seq<TreeNode>, p: Option<string>)
    requires ParentLinks(f, p, true)
    ensures Relinked(f, p) == f
  {
    if f != [] {
      ParentLinksParts(f, p, true);
      RelinkedLinked(f[0].children, Some(f[0].id));
      RelinkedLinked(f[1..], p);
      assert f == [f[0]] + f[1..];
    }
  }

  /** The flat entries never look at back-references. */
  lemma {:induction false} ModelsIgnoreLinks(f: seq<TreeNode>, p: Option<string>, q: string, s: int)
    ensures ModelsOf(Relinked(f, p), q, s) == ModelsOf(f, q, s)
  {
    if f != [] {
      var r := Relinked(f, p);
      var c := Size(f[0].children);
      RelinkedShape(f[0].children, Some(f[0].id));
      ModelsIgnoreLinks(f[0].children, Some(f[0].id), f[0].id, s + 1);
      ModelsIgnoreLinks(f[1..], p, q, s + 1 + c);
      assert r[0].children == Relinked(f[0].children, Some(f[0].id)) && r[1..] == Relinked(f[1..], p);
      assert Size(r[0].children) == c by {
        assert |Labels(r[0].children)| == |Labels(f[0].children)|;
      }
      ModelsStep(r, f, q, s);
    }
  }

  /** Two forests whose first roots and the rest have the same entries have the same entries. */
  lemma ModelsStep(r: seq<TreeNode>, f: seq<TreeNode>, q: string, s: int)
    requires r != [] && f != [] && r[0].id == f[0].id && ModelOf(r[0], q, s) == ModelOf(f[0], q, s)
    requires Size(r[0].children) == Size(f[0].children)
    requires ModelsOf(r[0].children, r[0].id, s + 1) == ModelsOf(f[0].children, f[0].id, s + 1)
    requires var e := s + 1 + Size(f[0].children); ModelsOf(r[1..], q, e) == ModelsOf(f[1..], q, e)
    ensures ModelsOf(r, q, s) == ModelsOf(f, q, s)
  {
    ModelsSplit(r, q, s);
    ModelsSplit(f, q, s);
    ModelsJoin(ModelOf(r[0], q, s), ModelOf(f[0], q, s),
      ModelsOf(r[0].children, r[0].id, s + 1), ModelsOf(f[0].children, f[0].id, s + 1),
      ModelsOf(r[1..], q, s + 1 + Size(r[0].children)), ModelsOf(f[1..], q, s + 1 + Size(f[0].children)));
  }

  lemma ModelsJoin(x: NodeModel, y: NodeModel, a: seq<NodeModel>, b: seq<NodeModel>, c: seq<NodeModel>, d: seq<NodeModel>)
    requires x == y && a == b && c == d
    ensures [x] + a + c == [y] + b + d
  {
  }

  /** The round-trip conditions speak only of labels, so relinking keeps them. */
  lemma RelinkedRoundTrips(f: seq<TreeNode>)
    requires RoundTrips(f)
    ensures LinkedRoundTrips(Relinked(f, None))
  {
    var r := Relinked(f, None);
    RelinkedShape(f, None);
    NodesAreLabelsAndIds(f);
    NodesAreLabelsAndIds(r);
    forall k | 0 <= k < Size(r) ensures Nodes(r)[k].level != 0 {
      assert Labels(r)[k] == Labels(f)[k];
    }
  }

  /**
   * For unique ids other than `"0"` and non-zero levels,
   * `nodeModelsToTree(treeToNodeModels(t))` gives back `t` with its
   * back-references rewritten builder-style: every id, title, level,
   * content and child order is restored, also for a tree whose added
   * children were never linked.
   */
  lemma RoundTrip(f: seq<TreeNode>)
    requires RoundTrips(f)
    ensures ModelsToForest(ModelsOf(f, "0", 0)) == Relinked(f, None)
    ensures Labels(ModelsToForest(ModelsOf(f, "0", 0))) == Labels(f)
    ensures ParentLinks(f, None, true) ==> ModelsToForest(ModelsOf(f, "0", 0)) == f
  {
    RelinkedRoundTrips(f);
    LinkedRoundTrip(Relinked(f, None));
    ModelsIgnoreLinks(f, None, "0", 0);
    RelinkedShape(f, None);
    if ParentLinks(f, None, true) {
      RelinkedLinked(f, None);
    }
  }

  /**
   * A model whose parent is neither `"0"` nor an id among the models is
   * silently dropped: it is no root, nobody's child, and has no parent link.
   */
  lemma OrphanDropped(ms: seq<NodeModel>, i: int)
    requires 0 <= i < |ms| && forall j :: 0 <= j < |ms| && j != i ==> ms[j].id != ms[i].id
    requires ms[i].parent != "0" && ms[i].parent !in NodeMapOf(ms)
    ensures ms[i].id !in IdsWithParent(ms, "0")
    ensures forall q :: ms[i].id !in KidsAt(GraphOf(ms).kids, q)
    ensures ParentAt(GraphOf(ms).parents, ms[i].id) == None
  {
    var keys := NodeMapOf(ms).Keys;
    IdsWithParentMembers(ms, "0");
    forall q ensures ms[i].id !in KidsAt(GraphOf(ms).kids, q) {
      KidsLookup(ms, keys, q);
      IdsWithParentMembers(ms, q);
    }
    ParentsMapLast(ms, keys, i);
  }
}
