/**
 * The tree statistics of parser-to-tree.py: `analyze_tree_quality` with its
 * two recursive walks (the node count that fills the per-level histogram,
 * and the content walk with its two running totals), the quality score of
 * the comparison table and the pick of the parser with the most nodes.
 */
module TreeQuality {
  import opened Strings
  import opened Tree

  // ----------------------------------------------------- reference views

  /** `level_counts.get(level, 0)`. */
  function Get(m: map<int, nat>, k: int): nat {
    if k in m then m[k] else 0
  }

  /** `level_counts[level] = level_counts.get(level, 0) + 1`. */
  function Bump(m: map<int, nat>, k: int): map<int, nat> {
    m[k := Get(m, k) + 1]
  }

  /** The histogram after counting `f` into `m`: each node in pre-order bumps its level. */
  function AddLevels(m: map<int, nat>, f: seq<TreeNode>): map<int, nat>
    decreases f
  {
    if f == [] then m else AddLevels(AddLevels(Bump(m, f[0].level), f[0].children), f[1..])
  }

  /** `len(content.split())`, taken only when the content is non-empty. */
  function NodeWords(n: TreeNode): nat {
    if n.content != [] then WordCount(n.content) else 0
  }

  /** Total content words over a list of nodes. */
  function SumWords(ns: seq<TreeNode>): nat {
    if ns == [] then 0 else NodeWords(ns[0]) + SumWords(ns[1..])
  }

  /** How many nodes of the list have at least one content word. */
  function CountWithContent(ns: seq<TreeNode>): (r: nat)
    ensures r <= |ns|
  {
    if ns == [] then 0 else (if NodeWords(ns[0]) > 0 then 1 else 0) + CountWithContent(ns[1..])
  }

  /** How many nodes of the list are at `level`. */
  function CountLevel(ns: seq<TreeNode>, level: int): (r: nat)
    ensures r <= |ns|
  {
    if ns == [] then 0 else (if ns[0].level == level then 1 else 0) + CountLevel(ns[1..], level)
  }

  /** The histogram's counts at the levels `ks`, added up. */
  function SumCounts(m: map<int, nat>, ks: seq<int>): nat {
    if ks == [] then 0 else Get(m, ks[0]) + SumCounts(m, ks[1..])
  }

  /** The nodes of `ns` at the levels `ks`, level by level, added up. */
  function LevelSum(ns: seq<TreeNode>, ks: seq<int>): nat {
    if ks == [] then 0 else CountLevel(ns, ks[0]) + LevelSum(ns, ks[1..])
  }

  /** How often `x` occurs in `ks`. */
  function Hits(x: int, ks: seq<int>): nat {
    if ks == [] then 0 else (if ks[0] == x then 1 else 0) + Hits(x, ks[1..])
  }

  predicate Distinct(ks: seq<int>) {
    forall i, j :: 0 <= i < j < |ks| ==> ks[i] != ks[j]
  }

  // --------------------------------------------------- the two recursive walks

  /**
   * `count_nodes(nodes, level_counts)`: the number of nodes of `nodes`, and
   * the histogram with every one of them counted at its level.
   */
  method CountNodes(nodes: seq<TreeNode>, levelCounts: map<int, nat>) returns (total: nat, counts: map<int, nat>)
    ensures total == Size(nodes) && counts == AddLevels(levelCounts, nodes)
    decreases nodes
  {
    total := 0;
    counts := levelCounts;
    for i := 0 to |nodes|
      invariant total == Size(nodes[..i]) && counts == AddLevels(levelCounts, nodes[..i])
    {
      var node := nodes[i];
      ghost var before := counts;
      total := total + 1;
      counts := Bump(counts, node.level);
      if |node.children| > 0 {
        var childCount, childCounts := CountNodes(node.children, counts);
        total := total + childCount;
        counts := childCounts;
      }
      CountNodesStep(levelCounts, nodes, i, before);
    }
    assert nodes[..|nodes|] == nodes;
  }

  lemma CountNodesStep(m: map<int, nat>, nodes: seq<TreeNode>, i: nat, before: map<int, nat>)
    requires i < |nodes| && before == AddLevels(m, nodes[..i])
    ensures Size(nodes[..i + 1]) == Size(nodes[..i]) + 1 + Size(nodes[i].children)
    ensures AddLevels(m, nodes[..i + 1]) == AddLevels(Bump(before, nodes[i].level), nodes[i].children)
  {
    assert nodes[..i + 1] == nodes[..i] + [nodes[i]];
    SizeAppend(nodes[..i], [nodes[i]]);
    AddLevelsAppend(m, nodes[..i], [nodes[i]]);
    assert [nodes[i]][1..] == [];
  }

  /**
   * `count_content(nodes)` with the two `nonlocal` totals passed in and
   * out: the words of every node's content, and the nodes that have any.
   */
  method CountContent(nodes: seq<TreeNode>, wordsIn: nat, withIn: nat) returns (words: nat, withContent: nat)
    ensures words == wordsIn + SumWords(Nodes(nodes))
    ensures withContent == withIn + CountWithContent(Nodes(nodes))
    decreases nodes
  {
    words, withContent := wordsIn, withIn;
    for i := 0 to |nodes|
      invariant words == wordsIn + SumWords(Nodes(nodes[..i]))
      invariant withContent == withIn + CountWithContent(Nodes(nodes[..i]))
    {
      var node := nodes[i];
      ghost var w0, c0 := words, withContent;
      if |node.content| > 0 {
        var n := WordCount(node.content);
        words := words + n;
        if n > 0 {
          withContent := withContent + 1;
        }
      }
      if |node.children| > 0 {
        words, withContent := CountContent(node.children, words, withContent);
      }
      CountContentStep(nodes, i);
    }
    assert nodes[..|nodes|] == nodes;
  }

  lemma CountContentStep(nodes: seq<TreeNode>, i: nat)
    requires i < |nodes|
    ensures var n := nodes[i];
      SumWords(Nodes(nodes[..i + 1])) == SumWords(Nodes(nodes[..i])) + NodeWords(n) + SumWords(Nodes(n.children)) &&
      CountWithContent(Nodes(nodes[..i + 1])) ==
        CountWithContent(Nodes(nodes[..i])) + (if NodeWords(n) > 0 then 1 else 0) + CountWithContent(Nodes(n.children))
  {
    var n := nodes[i];
    assert nodes[..i + 1] == nodes[..i] + [n];
    NodesAppend(nodes[..i], [n]);
    assert [n][1..] == [];
    assert Nodes([n]) == [n] + Nodes(n.children);
    SumWordsAppend(Nodes(nodes[..i]), Nodes([n]));
    CountWithAppend(Nodes(nodes[..i]), Nodes([n]));
    SumWordsAppend([n], Nodes(n.children));
    CountWithAppend([n], Nodes(n.children));
  }

  /** What `analyze_tree_quality` returns, without the float average. */
  datatype Analysis = Analysis(
    totalNodes: nat,
    levelDistribution: map<int, nat>,
    totalContentWords: nat,
    nodesWithContent: nat)

  method AnalyzeTreeQuality(tree: seq<TreeNode>) returns (a: Analysis)
    ensures a.totalNodes == Size(tree) && a.levelDistribution == AddLevels(map[], tree)
    ensures a.totalContentWords == SumWords(Nodes(tree)) && a.nodesWithContent == CountWithContent(Nodes(tree))
  {
    var totalNodes, levelCounts := CountNodes(tree, map[]);
    var totalContentWords, nodesWithContent := CountContent(tree, 0, 0);
    a := Analysis(totalNodes, levelCounts, totalContentWords, nodesWithContent);
  }

  /**
   * The analysis of a forest: the histogram counts every node exactly once,
   * at its own level, and has a key exactly for the levels that occur; and
   * no more nodes have content than there are nodes.
   */
  lemma AnalysisFacts(tree: seq<TreeNode>)
    ensures forall level :: Get(AddLevels(map[], tree), level) == CountLevel(Nodes(tree), level)
    ensures forall level :: level in AddLevels(map[], tree) <==> CountLevel(Nodes(tree), level) > 0
    ensures CountWithContent(Nodes(tree)) <= Size(tree)
  {
    var h := AddLevels(map[], tree);
    forall level ensures Get(h, level) == CountLevel(Nodes(tree), level) {
      AddLevelsGet(map[], tree, level);
    }
    forall level ensures level in h <==> CountLevel(Nodes(tree), level) > 0 {
      AddLevelsKeys(map[], tree, level);
    }
  }

  /**
   * Added up over any list of distinct levels that includes every level of
   * the forest, the histogram's counts give `total_nodes`.
   */
  lemma HistogramTotal(tree: seq<TreeNode>, ks: seq<int>)
    requires Distinct(ks)
    requires forall i :: 0 <= i < |Nodes(tree)| ==> Nodes(tree)[i].level in ks
    ensures SumCounts(AddLevels(map[], tree), ks) == Size(tree)
  {
    AnalysisFacts(tree);
    SumCountsAgree(AddLevels(map[], tree), Nodes(tree), ks);
    LevelSumCovers(Nodes(tree), ks);
  }

  // ------------------------------------------------------------ the lemmas

  lemma {:induction false} AddLevelsAppend(m: map<int, nat>, a: seq<TreeNode>, b: seq<TreeNode>)
    ensures AddLevels(m, a + b) == AddLevels(AddLevels(m, a), b)
    decreases |a|
  {
    if a == [] {
      assert a + b == b;
    } else {
      assert (a + b)[0] == a[0];
      assert (a + b)[1..] == a[1..] + b;
      AddLevelsAppend(AddLevels(Bump(m, a[0].level), a[0].children), a[1..], b);
    }
  }

  lemma {:induction false} SumWordsAppend(a: seq<TreeNode>, b: seq<TreeNode>)
    ensures SumWords(a + b) == SumWords(a) + SumWords(b)
  {
    if a == [] {
      assert a + b == b;
    } else {
      assert (a + b)[1..] == a[1..] + b;
      SumWordsAppend(a[1..], b);
    }
  }

  lemma {:induction false} CountWithAppend(a: seq<TreeNode>, b: seq<TreeNode>)
    ensures CountWithContent(a + b) == CountWithContent(a) + CountWithContent(b)
  {
    if a == [] {
      assert a + b == b;
    } else {
      assert (a + b)[1..] == a[1..] + b;
      CountWithAppend(a[1..], b);
    }
  }

  lemma {:induction false} CountLevelAppend(a: seq<TreeNode>, b: seq<TreeNode>, level: int)
    ensures CountLevel(a + b, level) == CountLevel(a, level) + CountLevel(b, level)
  {
    if a == [] {
      assert a + b == b;
    } else {
      assert (a + b)[1..] == a[1..] + b;
      CountLevelAppend(a[1..], b, level);
    }
  }

  /** Counting `f` adds, at each level, the number of its nodes at that level. */
  lemma {:induction false} AddLevelsGet(m: map<int, nat>, f: seq<TreeNode>, level: int)
    ensures Get(AddLevels(m, f), level) == Get(m, level) + CountLevel(Nodes(f), level)
    decreases f
  {
    if f != [] {
      var m1 := Bump(m, f[0].level);
      AddLevelsGet(m1, f[0].children, level);
      AddLevelsGet(AddLevels(m1, f[0].children), f[1..], level);
      NodesSplit(f);
      CountLevelAppend([f[0]], Nodes(f[0].children) + Nodes(f[1..]), level);
      CountLevelAppend(Nodes(f[0].children), Nodes(f[1..]), level);
    }
  }

  /** A key is in the histogram iff it was before or some node of `f` has that level. */
  lemma {:induction false} AddLevelsKeys(m: map<int, nat>, f: seq<TreeNode>, level: int)
    ensures level in AddLevels(m, f) <==> level in m || CountLevel(Nodes(f), level) > 0
    decreases f
  {
    if f != [] {
      var m1 := Bump(m, f[0].level);
      AddLevelsKeys(m1, f[0].children, level);
      AddLevelsKeys(AddLevels(m1, f[0].children), f[1..], level);
      NodesSplit(f);
      CountLevelAppend([f[0]], Nodes(f[0].children) + Nodes(f[1..]), level);
      CountLevelAppend(Nodes(f[0].children), Nodes(f[1..]), level);
    }
  }

  lemma {:induction false} SumCountsAgree(m: map<int, nat>, ns: seq<TreeNode>, ks: seq<int>)
    requires forall level :: Get(m, level) == CountLevel(ns, level)
    ensures SumCounts(m, ks) == LevelSum(ns, ks)
  {
    if ks != [] {
      SumCountsAgree(m, ns, ks[1..]);
    }
  }

  /** Peeling the first node off adds one at each level equal to its own. */
  lemma {:induction false} LevelSumSplit(ns: seq<TreeNode>, ks: seq<int>)
    requires ns != []
    ensures LevelSum(ns, ks) == Hits(ns[0].level, ks) + LevelSum(ns[1..], ks)
  {
    if ks != [] {
      LevelSumSplit(ns, ks[1..]);
    }
  }

  lemma {:induction false} HitsOnce(x: int, ks: seq<int>)
    requires Distinct(ks) && x in ks
    ensures Hits(x, ks) == 1
  {
    if ks[0] == x {
      HitsNone(x, ks[1..]);
    } else {
      HitsOnce(x, ks[1..]);
    }
  }

  lemma {:induction false} HitsNone(x: int, ks: seq<int>)
    requires x !in ks
    ensures Hits(x, ks) == 0
  {
    if ks != [] {
      HitsNone(x, ks[1..]);
    }
  }

  lemma {:induction false} LevelSumCovers(ns: seq<TreeNode>, ks: seq<int>)
    requires Distinct(ks)
    requires forall i :: 0 <= i < |ns| ==> ns[i].level in ks
    ensures LevelSum(ns, ks) == |ns|
  {
    if ns == [] {
      LevelSumEmpty(ks);
    } else {
      LevelSumSplit(ns, ks);
      HitsOnce(ns[0].level, ks);
      LevelSumCovers(ns[1..], ks);
    }
  }

  lemma {:induction false} LevelSumEmpty(ks: seq<int>)
    ensures LevelSum([], ks) == 0
  {
    if ks != [] {
      LevelSumEmpty(ks[1..]);
    }
  }

  // ------------------------------------------------------ score and pick

  /**
   * The quality column of the comparison table: ten points per node, five
   * per level-1, three per level-2 and two per level-3..6 node, plus one
   * per hundred content words up to thirty, capped at 100.
   */
  function QualityScore(a: Analysis): (r: nat)
    ensures r <= 100
    ensures r >= if 10 * a.totalNodes < 100 then 10 * a.totalNodes else 100
    ensures a.totalNodes >= 10 ==> r == 100
  {
    var levels := a.levelDistribution;
    var h3Plus := Get(levels, 3) + Get(levels, 4) + Get(levels, 5) + Get(levels, 6);
    var words := if a.totalContentWords / 100 < 30 then a.totalContentWords / 100 else 30;
    var raw := a.totalNodes * 10 + Get(levels, 1) * 5 + Get(levels, 2) * 3 + h3Plus * 2 + words;
    if raw < 100 then raw else 100
  }

  /**
   * `max(..., key=total_nodes)` over the analyses in insertion order: the
   * first entry with the largest total, or `None` where `max` of nothing
   * raises.
   */
  function MostNodes(totals: seq<nat>): (r: Option<nat>)
    ensures r.None? <==> totals == []
    ensures r.Some? ==> r.value < |totals|
    ensures r.Some? ==> forall j :: 0 <= j < |totals| ==> totals[j] <= totals[r.value]
    ensures r.Some? ==> forall j :: 0 <= j < r.value ==> totals[j] < totals[r.value]
  {
    if totals == [] then None
    else
      var init := totals[..|totals| - 1];
      var best := MostNodes(init);
      assert forall j :: 0 <= j < |init| ==> init[j] == totals[j];
      if best.None? then Some(0)
      else if totals[|totals| - 1] > totals[best.value] then Some(|totals| - 1)
      else best
  }
}
