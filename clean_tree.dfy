/**
 * The cleaned tree view of clean-tree-view.py: `clean_tree`, which drops
 * noise sections with everything below them and empty sections,
 * `find_section_in_tree`, and the pick of the parser with the most
 * meaningful top-level sections.
 */
module CleanTree {
  import opened Strings
  import opened Tree
  import TreeQuality

  /** A node of the cleaned tree: the stripped title, the level, the word count, the cleaned children. */
  datatype Clean = Clean(title: string, level: int, contentWords: nat, children: seq<Clean>)

  /** The titles `clean_tree` drops, after stripping. */
  predicate CleanNoise(t: string) {
    t == "SAMPLE" || t == "* End of page *" || t == "AIA International Limited" ||
    StartsWith(t, "AIA Vitality Endorsement") || |t| < 3
  }

  /**
   * `clean_tree`: a noise node is dropped with its subtree; any other node
   * stays, with its title stripped, its word count and its children
   * cleaned, when it has more than five words or some cleaned child.
   */
  function Cleaned(f: seq<TreeNode>): seq<Clean>
    decreases f
  {
    if f == [] then []
    else
      var n := f[0];
      var t := Trim(n.title);
      var head :=
        if CleanNoise(t) then []
        else
          var kids := Cleaned(n.children);
          if TreeQuality.NodeWords(n) > 5 || kids != [] then [Clean(t, n.level, TreeQuality.NodeWords(n), kids)] else [];
      head + Cleaned(f[1..])
  }

  /** What one node contributes to the cleaned list it stands in. */
  function CleanHead(n: TreeNode): seq<Clean> {
    var t := Trim(n.title);
    if CleanNoise(t) then []
    else
      var kids := Cleaned(n.children);
      if TreeQuality.NodeWords(n) > 5 || kids != [] then [Clean(t, n.level, TreeQuality.NodeWords(n), kids)] else []
  }

  lemma CleanedCons(f: seq<TreeNode>)
    requires f != []
    ensures Cleaned(f) == CleanHead(f[0]) + Cleaned(f[1..])
  {
  }

  method CleanTreeOf(tree: seq<TreeNode>) returns (cleaned: seq<Clean>)
    ensures cleaned == Cleaned(tree)
    decreases tree
  {
    cleaned := [];
    for i := 0 to |tree|
      invariant cleaned == Cleaned(tree[..i])
    {
      var node := tree[i];
      var title := Trim(node.title);
      CleanedStep(tree, i);
      if title == "SAMPLE" || title == "* End of page *" || title == "AIA International Limited" ||
         StartsWith(title, "AIA Vitality Endorsement") || |title| < 3 {
        continue;
      }
      var contentWords := if |node.content| > 0 then WordCount(node.content) else 0;
      var children := [];
      if |node.children| > 0 {
        children := CleanTreeOf(node.children);
      }
      var cleanedNode := Clean(title, node.level, contentWords, children);
      if cleanedNode.contentWords > 5 || |cleanedNode.children| > 0 {
        cleaned := cleaned + [cleanedNode];
      }
    }
    assert tree[..|tree|] == tree;
  }

  lemma CleanedStep(tree: seq<TreeNode>, i: nat)
    requires i < |tree|
    ensures Cleaned(tree[..i + 1]) == Cleaned(tree[..i]) + CleanHead(tree[i])
  {
    assert tree[..i + 1] == tree[..i] + [tree[i]];
    CleanedAppend(tree[..i], [tree[i]]);
    CleanedCons([tree[i]]);
    assert [tree[i]][1..] == [];
  }

  lemma {:induction false} CleanedAppend(a: seq<TreeNode>, b: seq<TreeNode>)
    ensures Cleaned(a + b) == Cleaned(a) + Cleaned(b)
  {
    if a == [] {
      assert a + b == b;
    } else {
      assert (a + b)[0] == a[0];
      assert (a + b)[1..] == a[1..] + b;
      CleanedAppend(a[1..], b);
      CleanedCons(a + b);
      CleanedCons(a);
      Assoc(CleanHead(a[0]), Cleaned(a[1..]), Cleaned(b));
    }
  }

  lemma Assoc<T>(x: seq<T>, y: seq<T>, z: seq<T>)
    ensures x + (y + z) == (x + y) + z
  {
  }

  // ------------------------------------------------ the reference view

  /** What the cleaned view shows of one node. */
  datatype Entry = Entry(title: string, level: int, contentWords: nat)

  /** The entries of a cleaned forest in pre-order. */
  function CleanEntries(s: seq<Clean>): seq<Entry>
    decreases s
  {
    if s == [] then []
    else [Entry(s[0].title, s[0].level, s[0].contentWords)] + CleanEntries(s[0].children) + CleanEntries(s[1..])
  }

  /** The nodes in pre-order whose path from the root has no noise title. */
  function Visible(f: seq<TreeNode>): (r: seq<TreeNode>)
    ensures |r| <= Size(f)
    decreases f
  {
    if f == [] then []
    else (if CleanNoise(Trim(f[0].title)) then [] else [f[0]] + Visible(f[0].children)) + Visible(f[1..])
  }

  /** A node that keeps itself: more than five words. */
  predicate Wordy(n: TreeNode) {
    TreeQuality.NodeWords(n) > 5
  }

  predicate AnyWordy(ns: seq<TreeNode>) {
    ns != [] && (Wordy(ns[0]) || AnyWordy(ns[1..]))
  }

  /** A visible node the cleaner keeps: wordy itself, or above a visible wordy node. */
  predicate Kept(n: TreeNode) {
    Wordy(n) || AnyWordy(Visible(n.children))
  }

  function KeptHead(n: TreeNode): seq<Entry> {
    if Kept(n) then [Entry(Trim(n.title), n.level, TreeQuality.NodeWords(n))] else []
  }

  /** The kept nodes of a pre-order list, in order, with stripped titles and word counts. */
  function KeptEntries(ns: seq<TreeNode>): (r: seq<Entry>)
    ensures |r| <= |ns|
  {
    if ns == [] then [] else KeptHead(ns[0]) + KeptEntries(ns[1..])
  }

  /** The cleaner leaves something exactly when some visible node has more than five words. */
  lemma {:induction false} CleanedEmptyIff(f: seq<TreeNode>)
    ensures Cleaned(f) == [] <==> !AnyWordy(Visible(f))
    decreases f
  {
    if f != [] {
      var n := f[0];
      CleanedEmptyIff(n.children);
      CleanedEmptyIff(f[1..]);
      CleanedCons(f);
      VisibleCons(f);
      if !CleanNoise(Trim(n.title)) {
        AnyWordyAppend([n], Visible(n.children));
      }
      AnyWordyAppend(VisibleHead(n), Visible(f[1..]));
    }
  }

  /** What one node contributes to the visible list. */
  function VisibleHead(n: TreeNode): seq<TreeNode> {
    if CleanNoise(Trim(n.title)) then [] else [n] + Visible(n.children)
  }

  lemma VisibleCons(f: seq<TreeNode>)
    requires f != []
    ensures Visible(f) == VisibleHead(f[0]) + Visible(f[1..])
  {
  }

  lemma {:induction false} AnyWordyAppend(a: seq<TreeNode>, b: seq<TreeNode>)
    ensures AnyWordy(a + b) <==> AnyWordy(a) || AnyWordy(b)
  {
    if a == [] {
      assert a + b == b;
    } else {
      assert (a + b)[1..] == a[1..] + b;
      AnyWordyAppend(a[1..], b);
    }
  }

  /**
   * The cleaned view shows exactly the kept nodes among the visible ones,
   * in their original pre-order, each with its stripped title, its level
   * and its word count.
   */
  lemma {:induction false} CleanedEntries(f: seq<TreeNode>)
    ensures CleanEntries(Cleaned(f)) == KeptEntries(Visible(f))
    decreases f
  {
    if f != [] {
      var n := f[0];
      CleanedEntries(n.children);
      CleanedEntries(f[1..]);
      CleanedEmptyIff(n.children);
      HeadEntries(n);
      CleanedCons(f);
      VisibleCons(f);
      CleanEntriesAppend(CleanHead(n), Cleaned(f[1..]));
      KeptEntriesAppend(VisibleHead(n), Visible(f[1..]));
    }
  }

  /** One node's step of `CleanedEntries`, with the facts about its children as premises. */
  lemma HeadEntries(n: TreeNode)
    requires CleanEntries(Cleaned(n.children)) == KeptEntries(Visible(n.children))
    requires Cleaned(n.children) == [] <==> !AnyWordy(Visible(n.children))
    ensures CleanEntries(CleanHead(n)) == KeptEntries(VisibleHead(n))
  {
    var t := Trim(n.title);
    var kids := Cleaned(n.children);
    if !CleanNoise(t) {
      KeptEntriesAppend([n], Visible(n.children));
      KeptEntriesOne(n);
      if TreeQuality.NodeWords(n) > 5 || kids != [] {
        CleanEntriesOne(Clean(t, n.level, TreeQuality.NodeWords(n), kids));
      } else {
        assert KeptEntries(Visible(n.children)) == CleanEntries([]);
      }
    }
  }

  lemma KeptEntriesOne(n: TreeNode)
    ensures KeptEntries([n]) == KeptHead(n)
  {
    assert [n][1..] == [];
  }

  lemma CleanEntriesOne(c: Clean)
    ensures CleanEntries([c]) == [Entry(c.title, c.level, c.contentWords)] + CleanEntries(c.children)
  {
    assert [c][1..] == [];
  }

  lemma {:induction false} CleanEntriesAppend(a: seq<Clean>, b: seq<Clean>)
    ensures CleanEntries(a + b) == CleanEntries(a) + CleanEntries(b)
  {
    if a == [] {
      assert a + b == b;
    } else {
      assert (a + b)[0] == a[0];
      assert (a + b)[1..] == a[1..] + b;
      CleanEntriesAppend(a[1..], b);
    }
  }

  lemma {:induction false} KeptEntriesAppend(a: seq<TreeNode>, b: seq<TreeNode>)
    ensures KeptEntries(a + b) == KeptEntries(a) + KeptEntries(b)
  {
    if a == [] {
      assert a + b == b;
    } else {
      assert (a + b)[0] == a[0];
      assert (a + b)[1..] == a[1..] + b;
      KeptEntriesAppend(a[1..], b);
      Assoc(KeptHead(a[0]), KeptEntries(a[1..]), KeptEntries(b));
    }
  }

  /** No visible node has a noise title. */
  lemma {:induction false} VisibleNotNoise(f: seq<TreeNode>)
    ensures forall i :: 0 <= i < |Visible(f)| ==> !CleanNoise(Trim(Visible(f)[i].title))
    decreases f
  {
    if f != [] {
      VisibleNotNoise(f[0].children);
      VisibleNotNoise(f[1..]);
      VisibleCons(f);
    }
  }

  /** Every kept entry's title is some visible node's title, stripped. */
  lemma {:induction false} KeptEntriesFrom(ns: seq<TreeNode>, i: int)
    requires 0 <= i < |KeptEntries(ns)|
    ensures exists k :: 0 <= k < |ns| && KeptEntries(ns)[i].title == Trim(ns[k].title)
  {
    if !Kept(ns[0]) {
      KeptEntriesFrom(ns[1..], i);
      var k :| 0 <= k < |ns[1..]| && KeptEntries(ns[1..])[i].title == Trim(ns[1..][k].title);
      assert ns[1..][k] == ns[k + 1];
    } else if i > 0 {
      KeptEntriesFrom(ns[1..], i - 1);
      var k :| 0 <= k < |ns[1..]| && KeptEntries(ns[1..])[i - 1].title == Trim(ns[1..][k].title);
      assert ns[1..][k] == ns[k + 1];
    }
  }

  /**
   * What the cleaner promises: no title in the cleaned view is noise or
   * unstripped, and it never shows more nodes than the input has.
   */
  lemma CleanFacts(tree: seq<TreeNode>)
    ensures var shown := CleanEntries(Cleaned(tree));
      (forall i :: 0 <= i < |shown| ==> !CleanNoise(shown[i].title) && IsTrimmed(shown[i].title)) &&
      |shown| <= Size(tree)
  {
    CleanedEntries(tree);
    var v := Visible(tree);
    VisibleNotNoise(tree);
    forall i | 0 <= i < |KeptEntries(v)|
      ensures !CleanNoise(KeptEntries(v)[i].title) && IsTrimmed(KeptEntries(v)[i].title)
    {
      KeptEntriesFrom(v, i);
    }
  }

  // ------------------------------------------------------------- search

  /** What `find_section_in_tree` reports about a node. */
  datatype Found = Found(title: string, contentWords: nat)

  /** The target occurs in the title, both lower-cased. */
  predicate TitleMatches(n: TreeNode, target: string) {
    Contains(ToLower(n.title), ToLower(target))
  }

  /** The report on the first node of a pre-order list whose title matches. */
  function FindIn(ns: seq<TreeNode>, target: string): Option<Found> {
    if ns == [] then None
    else if TitleMatches(ns[0], target) then Some(Found(ns[0].title, TreeQuality.NodeWords(ns[0])))
    else FindIn(ns[1..], target)
  }

  /**
   * The search finds nothing exactly when no title matches, and otherwise
   * reports the first node whose title matches.
   */
  lemma {:induction false} FindInFirst(ns: seq<TreeNode>, target: string)
    ensures FindIn(ns, target).None? <==> forall k :: 0 <= k < |ns| ==> !TitleMatches(ns[k], target)
    ensures FindIn(ns, target).Some? ==>
      exists k :: 0 <= k < |ns| && FirstMatchAt(ns, target, k) && FindIn(ns, target).value == Found(ns[k].title, TreeQuality.NodeWords(ns[k]))
  {
    if ns != [] && !TitleMatches(ns[0], target) {
      FindInFirst(ns[1..], target);
      assert forall k :: 0 < k < |ns| ==> ns[k] == ns[1..][k - 1];
      if FindIn(ns, target).Some? {
        var k :| 0 <= k < |ns[1..]| && FirstMatchAt(ns[1..], target, k) &&
          FindIn(ns[1..], target).value == Found(ns[1..][k].title, TreeQuality.NodeWords(ns[1..][k]));
        assert FirstMatchAt(ns, target, k + 1);
      }
    } else if ns != [] {
      assert FirstMatchAt(ns, target, 0);
    }
  }

  /** Node `k` matches and no node before it does. */
  predicate FirstMatchAt(ns: seq<TreeNode>, target: string, k: int)
    requires 0 <= k < |ns|
  {
    TitleMatches(ns[k], target) && forall j :: 0 <= j < k ==> !TitleMatches(ns[j], target)
  }

  /** `find_section_in_tree`: the first match in pre-order, or `None`. */
  method FindSectionInTree(tree: seq<TreeNode>, targetTitle: string) returns (r: Option<Found>)
    ensures r == FindIn(Nodes(tree), targetTitle)
    decreases tree
  {
    for i := 0 to |tree|
      invariant FindIn(Nodes(tree[..i]), targetTitle) == None
    {
      var node := tree[i];
      FindStep(tree, i, targetTitle);
      if Contains(ToLower(node.title), ToLower(targetTitle)) {
        var contentWords := if |node.content| > 0 then WordCount(node.content) else 0;
        return Some(Found(node.title, contentWords));
      }
      if |node.children| > 0 {
        var result := FindSectionInTree(node.children, targetTitle);
        if result.Some? {
          return result;
        }
      }
    }
    assert tree[..|tree|] == tree;
    return None;
  }

  /**
   * With nothing found among the first `i` subtrees, the search of the
   * forest is decided by node `i`, then its subtree, then the rest; and the
   * first `i + 1` subtrees have no match when none of those does.
   */
  lemma FindStep(tree: seq<TreeNode>, i: nat, target: string)
    requires i < |tree| && FindIn(Nodes(tree[..i]), target) == None
    ensures var n := tree[i];
      FindIn(Nodes(tree), target) ==
        if TitleMatches(n, target) then Some(Found(n.title, TreeQuality.NodeWords(n)))
        else if FindIn(Nodes(n.children), target).Some? then FindIn(Nodes(n.children), target)
        else FindIn(Nodes(tree[i + 1..]), target)
    ensures var n := tree[i];
      !TitleMatches(n, target) && FindIn(Nodes(n.children), target) == None ==>
        FindIn(Nodes(tree[..i + 1]), target) == None
  {
    var n := tree[i];
    FindAfter(tree, i, target);
    FindThrough(tree, i, target);
  }

  lemma FindAfter(tree: seq<TreeNode>, i: nat, target: string)
    requires i < |tree| && FindIn(Nodes(tree[..i]), target) == None
    ensures FindIn(Nodes(tree), target) == FindIn(Nodes(tree[i..]), target)
  {
    assert tree == tree[..i] + tree[i..];
    NodesAppend(tree[..i], tree[i..]);
    FindInAppend(Nodes(tree[..i]), Nodes(tree[i..]), target);
  }

  lemma FindThrough(tree: seq<TreeNode>, i: nat, target: string)
    requires i < |tree| && FindIn(Nodes(tree[..i]), target) == None
    ensures var n := tree[i];
      FindIn(Nodes(tree[i..]), target) ==
        if TitleMatches(n, target) then Some(Found(n.title, TreeQuality.NodeWords(n)))
        else if FindIn(Nodes(n.children), target).Some? then FindIn(Nodes(n.children), target)
        else FindIn(Nodes(tree[i + 1..]), target)
    ensures var n := tree[i];
      !TitleMatches(n, target) && FindIn(Nodes(n.children), target) == None ==>
        FindIn(Nodes(tree[..i + 1]), target) == None
  {
    var n := tree[i];
    NodesSplit(tree[i..]);
    assert tree[i..][0] == n && tree[i..][1..] == tree[i + 1..];
    FindInAppend(Nodes(n.children), Nodes(tree[i + 1..]), target);
    FindUpTo(tree, i, target);
  }

  lemma FindUpTo(tree: seq<TreeNode>, i: nat, target: string)
    requires i < |tree| && FindIn(Nodes(tree[..i]), target) == None
    ensures var n := tree[i];
      !TitleMatches(n, target) && FindIn(Nodes(n.children), target) == None ==>
        FindIn(Nodes(tree[..i + 1]), target) == None
  {
    var n := tree[i];
    assert tree[..i + 1] == tree[..i] + [n];
    NodesAppend(tree[..i], [n]);
    NodesSplit([n]);
    assert [n][1..] == [];
    FindInAppend(Nodes(tree[..i]), Nodes([n]), target);
    FindInAppend(Nodes(n.children), [], target);
    assert Nodes(n.children) + [] == Nodes(n.children);
  }

  lemma {:induction false} FindInAppend(a: seq<TreeNode>, b: seq<TreeNode>, target: string)
    ensures FindIn(a + b, target) == if FindIn(a, target).Some? then FindIn(a, target) else FindIn(b, target)
  {
    if a == [] {
      assert a + b == b;
    } else {
      assert (a + b)[0] == a[0];
      assert (a + b)[1..] == a[1..] + b;
      FindInAppend(a[1..], b, target);
    }
  }

  // ---------------------------------------------------------- best parser

  /** The score of a cleaned tree: its top-level sections with more than ten words. */
  function MeaningfulScore(cleaned: seq<Clean>): (r: nat)
    ensures r <= |cleaned|
  {
    if cleaned == [] then 0
    else (if cleaned[0].contentWords > 10 then 1 else 0) + MeaningfulScore(cleaned[1..])
  }

  /** The score of one parser's tree. */
  function ScoreOf(tree: seq<TreeNode>): nat {
    MeaningfulScore(Cleaned(tree))
  }

  /** The score of each parser's tree, in the order the trees are visited. */
  function Scores(trees: seq<seq<TreeNode>>): (r: seq<nat>)
    ensures |r| == |trees|
  {
    if trees == [] then [] else Scores(trees[..|trees| - 1]) + [ScoreOf(trees[|trees| - 1])]
  }

  /** Entry `i` of the score list is the score of parser `i`'s tree. */
  lemma {:induction false} ScoresAt(trees: seq<seq<TreeNode>>, i: int)
    requires 0 <= i < |trees|
    ensures Scores(trees)[i] == ScoreOf(trees[i])
  {
    if i < |trees| - 1 {
      ScoresAt(trees[..|trees| - 1], i);
    }
  }

  /**
   * `best` and `bestScore` are what the best-parser loop holds after the
   * scores `seen`: no pick while every score is 0, otherwise the first
   * entry with the largest score.
   */
  predicate BestSoFar(seen: seq<nat>, best: Option<nat>, bestScore: nat) {
    (best.None? <==> forall i :: 0 <= i < |seen| ==> seen[i] == 0) &&
    (best.None? ==> bestScore == 0) &&
    (best.Some? ==> best.value < |seen| && bestScore == seen[best.value] && bestScore > 0) &&
    (forall i :: 0 <= i < |seen| ==> seen[i] <= bestScore) &&
    (best.Some? ==> forall i :: 0 <= i < best.value ==> seen[i] < bestScore)
  }

  /**
   * The best-parser loop of `main`: the best score starts at 0 and a parser
   * replaces the best only with a strictly greater score. So no parser is
   * picked when every score is 0, and otherwise the pick is the first
   * parser with the largest score.
   */
  method BestParser(trees: seq<seq<TreeNode>>) returns (best: Option<nat>, bestScore: nat)
    ensures BestSoFar(Scores(trees), best, bestScore)
  {
    best := None;
    bestScore := 0;
    ghost var seen: seq<nat> := [];
    for i := 0 to |trees|
      invariant seen == Scores(trees[..i])
      invariant BestSoFar(seen, best, bestScore)
    {
      ScoresSnoc(trees, i);
      BestStep(seen, best, bestScore, ScoreOf(trees[i]));
      seen := seen + [ScoreOf(trees[i])];
      var cleaned := CleanTreeOf(trees[i]);
      var score := MeaningfulScore(cleaned);
      if score > bestScore {
        bestScore := score;
        best := Some(i);
      }
    }
    assert trees[..|trees|] == trees;
  }

  lemma BestStep(seen: seq<nat>, best: Option<nat>, bestScore: nat, score: nat)
    requires BestSoFar(seen, best, bestScore)
    ensures if score > bestScore then BestSoFar(seen + [score], Some(|seen|), score)
      else BestSoFar(seen + [score], best, bestScore)
  {
    var s := seen + [score];
    assert forall j :: 0 <= j < |seen| ==> s[j] == seen[j];
  }

  lemma ScoresSnoc(trees: seq<seq<TreeNode>>, i: nat)
    requires i < |trees|
    ensures Scores(trees[..i + 1]) == Scores(trees[..i]) + [ScoreOf(trees[i])]
  {
    assert trees[..i + 1][..i] == trees[..i];
  }
}
