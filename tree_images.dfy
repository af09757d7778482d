/**
 * The tree measures of generate-tree-images.py: the largest level, the node
 * count, the count of meaningful sections, the word total, and the filter
 * that drops noise sections before a tree is drawn.
 */
module TreeImages {
  import opened Strings
  import opened Tree
  import TreeQuality

  function Max(a: int, b: int): int {
    if a >= b then a else b
  }

  // ------------------------------------------------------------ largest level

  /** The largest `level` field among `ns`, or 0 when there is none above 0. */
  function LevelMax(ns: seq<TreeNode>): (r: int)
    ensures r >= 0
    ensures forall i :: 0 <= i < |ns| ==> ns[i].level <= r
    ensures r == 0 || exists i :: 0 <= i < |ns| && ns[i].level == r
  {
    if ns == [] then 0
    else
      var rest := LevelMax(ns[1..]);
      assert forall i :: 0 <= i < |ns[1..]| ==> ns[1..][i] == ns[i + 1];
      Max(ns[0].level, rest)
  }

  /**
   * `get_max_depth`: despite its name, the largest `level` field over all
   * nodes at every depth, and 0 for an empty forest.
   */
  method GetMaxDepth(tree: seq<TreeNode>) returns (maxDepth: int)
    ensures maxDepth == LevelMax(Nodes(tree))
    decreases tree
  {
    if |tree| == 0 {
      return 0;
    }
    maxDepth := 0;
    for i := 0 to |tree|
      invariant maxDepth == LevelMax(Nodes(tree[..i]))
    {
      var node := tree[i];
      var depth := node.level;
      if |node.children| > 0 {
        var childDepth := GetMaxDepth(node.children);
        depth := Max(depth, childDepth);
      }
      MaxDepthStep(tree, i, maxDepth);
      maxDepth := Max(maxDepth, depth);
    }
    assert tree[..|tree|] == tree;
  }

  lemma MaxDepthStep(tree: seq<TreeNode>, i: nat, before: int)
    requires i < |tree| && before == LevelMax(Nodes(tree[..i]))
    ensures LevelMax(Nodes(tree[..i + 1])) ==
      Max(before, Max(tree[i].level, LevelMax(Nodes(tree[i].children))))
  {
    var n := tree[i];
    assert tree[..i + 1] == tree[..i] + [n];
    NodesAppend(tree[..i], [n]);
    NodesOne(n);
    LevelMaxAppend(Nodes(tree[..i]), Nodes([n]));
    assert ([n] + Nodes(n.children))[1..] == Nodes(n.children);
  }

  lemma NodesOne(n: TreeNode)
    ensures Nodes([n]) == [n] + Nodes(n.children)
  {
    assert [n][1..] == [];
  }

  lemma {:induction false} LevelMaxAppend(a: seq<TreeNode>, b: seq<TreeNode>)
    ensures LevelMax(a + b) == Max(LevelMax(a), LevelMax(b))
  {
    if a == [] {
      assert a + b == b;
    } else {
      assert (a + b)[1..] == a[1..] + b;
      LevelMaxAppend(a[1..], b);
    }
  }

  // --------------------------------------------------------------- counters

  /** `count_nodes`: every node at every depth, 0 for an empty forest. */
  method CountNodes(tree: seq<TreeNode>) returns (count: nat)
    ensures count == Size(tree) && count == |Nodes(tree)|
    decreases tree
  {
    count := 0;
    for i := 0 to |tree|
      invariant count == Size(tree[..i])
    {
      var node := tree[i];
      count := count + 1;
      if |node.children| > 0 {
        var childCount := CountNodes(node.children);
        count := count + childCount;
      }
      assert tree[..i + 1] == tree[..i] + [node];
      SizeAppend(tree[..i], [node]);
      assert [node][1..] == [];
    }
    assert tree[..|tree|] == tree;
  }

  /** The titles `count_meaningful_sections` skips, compared after stripping. */
  predicate CountedNoise(t: string) {
    t == "SAMPLE" || t == "* End of page *" || t == "AIA International Limited"
  }

  /** A node that is not noise and has more than ten content words. */
  predicate Meaningful(n: TreeNode) {
    !CountedNoise(Trim(n.title)) && TreeQuality.NodeWords(n) > 10
  }

  function CountMeaningful(ns: seq<TreeNode>): (r: nat)
    ensures r <= |ns|
  {
    if ns == [] then 0 else (if Meaningful(ns[0]) then 1 else 0) + CountMeaningful(ns[1..])
  }

  /**
   * `count_meaningful_sections`: the meaningful nodes at every depth; the
   * walk goes on below a noise node, so none is lost under one, and the
   * count never exceeds the node count.
   */
  method CountMeaningfulSections(tree: seq<TreeNode>) returns (count: nat)
    ensures count == CountMeaningful(Nodes(tree))
    ensures count <= Size(tree)
    decreases tree
  {
    count := 0;
    for i := 0 to |tree|
      invariant count == CountMeaningful(Nodes(tree[..i]))
    {
      var node := tree[i];
      var title := Trim(node.title);
      if !(title == "SAMPLE" || title == "* End of page *" || title == "AIA International Limited") {
        var contentWords := if |node.content| > 0 then WordCount(node.content) else 0;
        if contentWords > 10 {
          count := count + 1;
        }
      }
      if |node.children| > 0 {
        var childCount := CountMeaningfulSections(node.children);
        count := count + childCount;
      }
      MeaningfulStep(tree, i);
    }
    assert tree[..|tree|] == tree;
  }

  lemma MeaningfulStep(tree: seq<TreeNode>, i: nat)
    requires i < |tree|
    ensures CountMeaningful(Nodes(tree[..i + 1])) == CountMeaningful(Nodes(tree[..i])) +
      (if Meaningful(tree[i]) then 1 else 0) + CountMeaningful(Nodes(tree[i].children))
  {
    var n := tree[i];
    assert tree[..i + 1] == tree[..i] + [n];
    NodesAppend(tree[..i], [n]);
    NodesOne(n);
    CountMeaningfulAppend(Nodes(tree[..i]), Nodes([n]));
    CountMeaningfulAppend([n], Nodes(n.children));
  }

  lemma {:induction false} CountMeaningfulAppend(a: seq<TreeNode>, b: seq<TreeNode>)
    ensures CountMeaningful(a + b) == CountMeaningful(a) + CountMeaningful(b)
  {
    if a == [] {
      assert a + b == b;
    } else {
      assert (a + b)[1..] == a[1..] + b;
      CountMeaningfulAppend(a[1..], b);
    }
  }

  /** A noise node adds nothing itself, but everything meaningful below it counts. */
  lemma NoiseCountsChildren(n: TreeNode)
    requires CountedNoise(Trim(n.title))
    ensures CountMeaningful(Nodes([n])) == CountMeaningful(Nodes(n.children))
  {
    NodesOne(n);
    CountMeaningfulAppend([n], Nodes(n.children));
  }

  /** `count_total_words`: the whitespace-split words of every node's content. */
  method CountTotalWords(tree: seq<TreeNode>) returns (total: nat)
    ensures total == TreeQuality.SumWords(Nodes(tree))
    decreases tree
  {
    total := 0;
    for i := 0 to |tree|
      invariant total == TreeQuality.SumWords(Nodes(tree[..i]))
    {
      var node := tree[i];
      if |node.content| > 0 {
        total := total + WordCount(node.content);
      }
      if |node.children| > 0 {
        var childTotal := CountTotalWords(node.children);
        total := total + childTotal;
      }
      TotalWordsStep(tree, i);
    }
    assert tree[..|tree|] == tree;
  }

  lemma TotalWordsStep(tree: seq<TreeNode>, i: nat)
    requires i < |tree|
    ensures TreeQuality.SumWords(Nodes(tree[..i + 1])) == TreeQuality.SumWords(Nodes(tree[..i])) +
      TreeQuality.NodeWords(tree[i]) + TreeQuality.SumWords(Nodes(tree[i].children))
  {
    var n := tree[i];
    assert tree[..i + 1] == tree[..i] + [n];
    NodesAppend(tree[..i], [n]);
    NodesOne(n);
    TreeQuality.SumWordsAppend(Nodes(tree[..i]), Nodes([n]));
    TreeQuality.SumWordsAppend([n], Nodes(n.children));
  }

  /**
   * The two bars of the comparison chart agree: every meaningful section
   * brings more than ten words, so the word total is at least eleven per
   * meaningful section.
   */
  lemma {:induction false} WordsCoverMeaningful(ns: seq<TreeNode>)
    ensures TreeQuality.SumWords(ns) >= 11 * CountMeaningful(ns)
  {
    if ns != [] {
      WordsCoverMeaningful(ns[1..]);
    }
  }

  // ----------------------------------------------------------------- filter

  /** A node of the filtered tree: the fields the drawing uses, without id or parent. */
  datatype Shown = Shown(title: string, level: int, content: string, children: seq<Shown>)

  /** The titles `filter_meaningful_sections` treats as noise, after stripping. */
  predicate FilterNoise(t: string) {
    t == "SAMPLE" || t == "* End of page *" || StartsWith(t, "AIA International Limited") || |t| < 4
  }

  /**
   * `filter_meaningful_sections`: a noise node is replaced by its own
   * filtered children; any other node stays, with its title stripped and
   * its children filtered, when it has more than five words or some
   * filtered child.
   */
  function Filtered(f: seq<TreeNode>): seq<Shown>
    decreases f
  {
    if f == [] then []
    else
      var n := f[0];
      var t := Trim(n.title);
      var head :=
        if FilterNoise(t) then Filtered(n.children)
        else
          var kids := Filtered(n.children);
          if TreeQuality.NodeWords(n) > 5 || kids != [] then [Shown(t, n.level, n.content, kids)] else [];
      head + Filtered(f[1..])
  }

  /** What one node contributes to the filtered list it stands in. */
  function FilterHead(n: TreeNode): seq<Shown> {
    var t := Trim(n.title);
    var kids := Filtered(n.children);
    if FilterNoise(t) then kids
    else if TreeQuality.NodeWords(n) > 5 || kids != [] then [Shown(t, n.level, n.content, kids)] else []
  }

  lemma FilteredCons(f: seq<TreeNode>)
    requires f != []
    ensures Filtered(f) == FilterHead(f[0]) + Filtered(f[1..])
  {
  }

  method FilterMeaningfulSections(tree: seq<TreeNode>) returns (filtered: seq<Shown>)
    ensures filtered == Filtered(tree)
    decreases tree
  {
    filtered := [];
    for i := 0 to |tree|
      invariant filtered == Filtered(tree[..i])
    {
      var node := tree[i];
      var title := Trim(node.title);
      FilteredStep(tree, i);
      if title == "SAMPLE" || title == "* End of page *" || StartsWith(title, "AIA International Limited") || |title| < 4 {
        if |node.children| > 0 {
          var childFiltered := FilterMeaningfulSections(node.children);
          filtered := filtered + childFiltered;
        }
      } else {
        var contentWords := if |node.content| > 0 then WordCount(node.content) else 0;
        var filteredChildren := [];
        if |node.children| > 0 {
          filteredChildren := FilterMeaningfulSections(node.children);
        }
        if contentWords > 5 || |filteredChildren| > 0 {
          filtered := filtered + [Shown(title, node.level, node.content, filteredChildren)];
        }
      }
    }
    assert tree[..|tree|] == tree;
  }

  lemma FilteredStep(tree: seq<TreeNode>, i: nat)
    requires i < |tree|
    ensures Filtered(tree[..i + 1]) == Filtered(tree[..i]) + FilterHead(tree[i])
  {
    assert tree[..i + 1] == tree[..i] + [tree[i]];
    FilteredAppend(tree[..i], [tree[i]]);
    FilteredCons([tree[i]]);
    assert [tree[i]][1..] == [];
  }

  lemma {:induction false} FilteredAppend(a: seq<TreeNode>, b: seq<TreeNode>)
    ensures Filtered(a + b) == Filtered(a) + Filtered(b)
  {
    if a == [] {
      assert a + b == b;
    } else {
      assert (a + b)[0] == a[0];
      assert (a + b)[1..] == a[1..] + b;
      FilteredAppend(a[1..], b);
      FilteredCons(a + b);
      FilteredCons(a);
      Assoc(FilterHead(a[0]), Filtered(a[1..]), Filtered(b));
    }
  }

  // ------------------------------------------- the filter's reference view

  /** What the drawing shows of one node. */
  datatype Entry = Entry(title: string, level: int, content: string)

  /** The entries of a filtered forest in pre-order. */
  function ShownEntries(s: seq<Shown>): seq<Entry>
    decreases s
  {
    if s == [] then []
    else [Entry(s[0].title, s[0].level, s[0].content)] + ShownEntries(s[0].children) + ShownEntries(s[1..])
  }

  /** A node that keeps itself: not noise, and more than five words. */
  predicate Solid(n: TreeNode) {
    !FilterNoise(Trim(n.title)) && TreeQuality.NodeWords(n) > 5
  }

  predicate AnySolid(ns: seq<TreeNode>) {
    ns != [] && (Solid(ns[0]) || AnySolid(ns[1..]))
  }

  /** A node the filter keeps: not noise, and solid itself or above a solid node. */
  predicate Kept(n: TreeNode) {
    !FilterNoise(Trim(n.title)) && (TreeQuality.NodeWords(n) > 5 || AnySolid(Nodes(n.children)))
  }

  /** The entry of a kept node, and nothing for any other. */
  function KeptHead(n: TreeNode): seq<Entry> {
    if Kept(n) then [Entry(Trim(n.title), n.level, n.content)] else []
  }

  /** The kept nodes of a pre-order list, in order, with stripped titles. */
  function KeptEntries(ns: seq<TreeNode>): (r: seq<Entry>)
    ensures |r| <= |ns|
  {
    if ns == [] then [] else KeptHead(ns[0]) + KeptEntries(ns[1..])
  }

  /** The filter leaves something exactly when some node anywhere keeps itself. */
  lemma {:induction false} FilteredEmptyIff(f: seq<TreeNode>)
    ensures Filtered(f) == [] <==> !AnySolid(Nodes(f))
    decreases f
  {
    if f != [] {
      var n := f[0];
      FilteredEmptyIff(n.children);
      FilteredEmptyIff(f[1..]);
      NodesSplit(f);
      AnySolidAppend([n], Nodes(n.children) + Nodes(f[1..]));
      AnySolidAppend(Nodes(n.children), Nodes(f[1..]));
    }
  }

  lemma {:induction false} AnySolidAppend(a: seq<TreeNode>, b: seq<TreeNode>)
    ensures AnySolid(a + b) <==> AnySolid(a) || AnySolid(b)
  {
    if a == [] {
      assert a + b == b;
    } else {
      assert (a + b)[1..] == a[1..] + b;
      AnySolidAppend(a[1..], b);
    }
  }

  /**
   * The drawing shows exactly the kept nodes, in their original pre-order,
   * each with its stripped title and its own level and content: noise nodes
   * vanish and their kept descendants move up in their place.
   */
  lemma {:induction false} FilteredEntries(f: seq<TreeNode>)
    ensures ShownEntries(Filtered(f)) == KeptEntries(Nodes(f))
    decreases f
  {
    if f != [] {
      var n := f[0];
      FilteredEntries(n.children);
      FilteredEntries(f[1..]);
      FilteredEmptyIff(n.children);
      HeadEntries(n);
      FilteredCons(f);
      ShownEntriesAppend(FilterHead(n), Filtered(f[1..]));
      NodesSplit(f);
      KeptEntriesAppend([n], Nodes(n.children) + Nodes(f[1..]));
      KeptEntriesAppend(Nodes(n.children), Nodes(f[1..]));
      KeptEntriesOne(n);
      Assoc(KeptHead(n), KeptEntries(Nodes(n.children)), KeptEntries(Nodes(f[1..])));
    }
  }

  /** One node's step of `FilteredEntries`, with the facts about its children as premises. */
  lemma HeadEntries(n: TreeNode)
    requires ShownEntries(Filtered(n.children)) == KeptEntries(Nodes(n.children))
    requires Filtered(n.children) == [] <==> !AnySolid(Nodes(n.children))
    ensures ShownEntries(FilterHead(n)) == KeptHead(n) + KeptEntries(Nodes(n.children))
  {
    var t := Trim(n.title);
    var kids := Filtered(n.children);
    if !FilterNoise(t) && (TreeQuality.NodeWords(n) > 5 || kids != []) {
      ShownEntriesOne(Shown(t, n.level, n.content, kids));
    } else if !FilterNoise(t) {
      assert KeptEntries(Nodes(n.children)) == ShownEntries([]);
    }
  }

  lemma KeptEntriesOne(n: TreeNode)
    ensures KeptEntries([n]) == KeptHead(n)
  {
    assert [n][1..] == [];
  }

  lemma ShownEntriesOne(s: Shown)
    ensures ShownEntries([s]) == [Entry(s.title, s.level, s.content)] + ShownEntries(s.children)
  {
    assert [s][1..] == [];
  }

  lemma {:induction false} ShownEntriesAppend(a: seq<Shown>, b: seq<Shown>)
    ensures ShownEntries(a + b) == ShownEntries(a) + ShownEntries(b)
  {
    if a == [] {
      assert a + b == b;
    } else {
      assert (a + b)[0] == a[0];
      assert (a + b)[1..] == a[1..] + b;
      ShownEntriesAppend(a[1..], b);
    }
  }

  lemma {:induction false} KeptEntriesAppend(a: seq<TreeNode>, b: seq<TreeNode>)
    ensures KeptEntries(a + b) == KeptEntries(a) + KeptEntries(b)
  {
    if a == [] {
      assert a + b == b;
    } else {
      assert (a + b)[0] == a[0];
      assert (a + b)[1..] == a[1..] + b;
      KeptEntriesAppend(a[1..], b);
      Assoc(KeptHead(a[0]), KeptEntries(a[1..]), KeptEntries(b));
    }
  }

  lemma Assoc<T>(x: seq<T>, y: seq<T>, z: seq<T>)
    ensures x + (y + z) == (x + y) + z
  {
  }

  /** No kept entry has a noise title, and every kept title is stripped. */
  lemma {:induction false} KeptEntriesClean(ns: seq<TreeNode>)
    ensures forall i :: 0 <= i < |KeptEntries(ns)| ==>
      !FilterNoise(KeptEntries(ns)[i].title) && IsTrimmed(KeptEntries(ns)[i].title)
  {
    if ns != [] {
      KeptEntriesClean(ns[1..]);
    }
  }

  /** Every node that keeps itself, at any depth and under any noise, is shown. */
  lemma {:induction false} SolidIsKept(ns: seq<TreeNode>, k: int)
    requires 0 <= k < |ns| && Solid(ns[k])
    ensures Entry(Trim(ns[k].title), ns[k].level, ns[k].content) in KeptEntries(ns)
  {
    if k > 0 {
      SolidIsKept(ns[1..], k - 1);
    }
  }

  /**
   * What the filter promises the drawing: nothing shown is noise, every
   * shown title is stripped, no more nodes are shown than there were, and
   * each node with more than five words and a title that is not noise is
   * shown, wherever it was.
   */
  lemma FilterFacts(tree: seq<TreeNode>)
    ensures var shown := ShownEntries(Filtered(tree));
      (forall i :: 0 <= i < |shown| ==> !FilterNoise(shown[i].title) && IsTrimmed(shown[i].title)) &&
      |shown| <= Size(tree)
    ensures forall k :: 0 <= k < Size(tree) && Solid(Nodes(tree)[k]) ==>
      Entry(Trim(Nodes(tree)[k].title), Nodes(tree)[k].level, Nodes(tree)[k].content) in ShownEntries(Filtered(tree))
  {
    FilteredEntries(tree);
    KeptEntriesClean(Nodes(tree));
    forall k | 0 <= k < Size(tree) && Solid(Nodes(tree)[k])
      ensures Entry(Trim(Nodes(tree)[k].title), Nodes(tree)[k].level, Nodes(tree)[k].content) in ShownEntries(Filtered(tree))
    {
      SolidIsKept(Nodes(tree), k);
    }
  }
}
