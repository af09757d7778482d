/**
 * The stack-based builder that nests a flat list of sections into a forest
 * (`buildTreeFromSections` in
 * deployments/local-selfhosted/client/src/utils/markdownParser.ts and
 * `build_tree_from_sections` in parser-to-tree.py). The stack always holds
 * the rightmost path of the forest built so far; each section pops every
 * entry whose level is at least its own and is attached under what is left.
 */
module SectionTree {
  import opened Tree

  /** A stack entry: the id and level of an open node. */
  datatype Open = Open(id: string, level: int)

  /** The rightmost path of a forest, root first: the nodes a new section may attach to. */
  function Spine(f: seq<TreeNode>): seq<Open> {
    if f == [] then []
    else [Open(f[|f| - 1].id, f[|f| - 1].level)] + Spine(f[|f| - 1].children)
  }

  /** The stack after popping every entry whose level is at least `level`. */
  function PopTo(stack: seq<Open>, level: int): (r: seq<Open>)
    ensures |r| <= |stack|
  {
    if stack != [] && stack[|stack| - 1].level >= level then PopTo(stack[..|stack| - 1], level)
    else stack
  }

  /** Popping keeps a prefix, ends below `level`, and removes only entries at `level` or deeper. */
  lemma {:induction false} PopToKeeps(stack: seq<Open>, level: int)
    ensures var r := PopTo(stack, level);
      (forall k :: 0 <= k < |r| ==> r[k] == stack[k]) &&
      (r == [] || r[|r| - 1].level < level) &&
      (forall k :: |r| <= k < |stack| ==> stack[k].level >= level)
  {
    if stack != [] && stack[|stack| - 1].level >= level {
      PopToKeeps(stack[..|stack| - 1], level);
    }
  }

  /** `n` as the last child of the node `d` steps down the spine, or as a new root when `d == 0`. */
  function AppendAt(f: seq<TreeNode>, d: nat, n: TreeNode): seq<TreeNode>
    requires d <= |Spine(f)|
    decreases d
  {
    if d == 0 then f + [n]
    else
      var last := f[|f| - 1];
      f[..|f| - 1] + [last.(children := AppendAt(last.children, d - 1, n))]
  }

  /** The fresh, childless node made from a section. */
  function NodeOf(s: Label, parent: Option<string>): TreeNode {
    TreeNode(s.id, s.title, s.level, s.content, [], parent)
  }

  /**
   * One step of the builder. The back-reference `parent` is only recorded
   * when `linkParents` holds (the TypeScript builder sets it, the Python one
   * does not).
   */
  function Insert(f: seq<TreeNode>, s: Label, linkParents: bool): seq<TreeNode> {
    var kept := PopTo(Spine(f), s.level);
    var parent := if linkParents && kept != [] then Some(kept[|kept| - 1].id) else None;
    AppendAt(f, |kept|, NodeOf(s, parent))
  }

  /** The forest built from `sections`, one section at a time. */
  function Built(sections: seq<Label>, linkParents: bool): seq<TreeNode> {
    if sections == [] then []
    else Insert(Built(sections[..|sections| - 1], linkParents), sections[|sections| - 1], linkParents)
  }

  /** Attaching a childless node along the spine makes it the new end of the spine. */
  lemma {:induction false} SpineAppendAt(f: seq<TreeNode>, d: nat, n: TreeNode)
    requires d <= |Spine(f)| && n.children == []
    ensures Spine(AppendAt(f, d, n)) == Spine(f)[..d] + [Open(n.id, n.level)]
    decreases d
  {
    if d == 0 {
      assert (f + [n])[|f + [n]| - 1] == n;
    } else {
      var last := f[|f| - 1];
      var g := AppendAt(f, d, n);
      assert g[|g| - 1] == last.(children := AppendAt(last.children, d - 1, n));
      SpineAppendAt(last.children, d - 1, n);
    }
  }

  /**
   * The builder with an explicit stack of open nodes; its result is the
   * section-by-section construction `Built`.
   */
  method BuildTreeFromSections(sections: seq<Label>, linkParents: bool) returns (tree: seq<TreeNode>)
    ensures tree == Built(sections, linkParents)
  {
    tree := [];
    var stack: seq<Open> := [];
    for i := 0 to |sections|
      invariant tree == Built(sections[..i], linkParents)
      invariant stack == Spine(tree)
    {
      var section := sections[i];
      while |stack| > 0 && stack[|stack| - 1].level >= section.level
        invariant |stack| <= |Spine(tree)|
        invariant PopTo(stack, section.level) == PopTo(Spine(tree), section.level)
        decreases |stack|
      {
        stack := stack[..|stack| - 1];
      }
      BuildStep(sections, i, linkParents, tree, stack);
      var parent := if linkParents && |stack| > 0 then Some(stack[|stack| - 1].id) else None;
      var node := TreeNode(section.id, section.title, section.level, section.content, [], parent);
      tree := AppendAt(tree, |stack|, node);
      stack := stack + [Open(node.id, node.level)];
    }
    assert sections[..|sections|] == sections;
  }

  /** Attaching section `i` where the popped stack ends extends the build by that section and keeps the stack the spine. */
  lemma BuildStep(sections: seq<Label>, i: nat, linkParents: bool, tree: seq<TreeNode>, stack: seq<Open>)
    requires i < |sections| && tree == Built(sections[..i], linkParents)
    requires stack == PopTo(Spine(tree), sections[i].level)
    ensures |stack| <= |Spine(tree)|
    ensures var parent := if linkParents && |stack| > 0 then Some(stack[|stack| - 1].id) else None;
      var node := NodeOf(sections[i], parent);
      AppendAt(tree, |stack|, node) == Built(sections[..i + 1], linkParents) &&
      Spine(AppendAt(tree, |stack|, node)) == stack + [Open(node.id, node.level)]
  {
    var parent := if linkParents && |stack| > 0 then Some(stack[|stack| - 1].id) else None;
    var node := NodeOf(sections[i], parent);
    PopToKeeps(Spine(tree), sections[i].level);
    assert stack == Spine(tree)[..|stack|];
    SpineAppendAt(tree, |stack|, node);
    assert sections[..i + 1][..i] == sections[..i];
  }

  // ------------------------------------------------------------ properties

  /** Attaching along the spine puts the new node last in pre-order. */
  lemma {:induction false} LabelsAppendAt(f: seq<TreeNode>, d: nat, n: TreeNode)
    requires d <= |Spine(f)|
    ensures Labels(AppendAt(f, d, n)) == Labels(f) + [LabelOf(n)] + Labels(n.children)
    decreases d
  {
    if d == 0 {
      LabelsSnoc(f, n);
    } else {
      var init := f[..|f| - 1];
      var last := f[|f| - 1];
      var c := AppendAt(last.children, d - 1, n);
      assert f == init + [last];
      assert AppendAt(f, d, n) == init + [last.(children := c)];
      LabelsAppendAt(last.children, d - 1, n);
      LabelsReplaceLast(init, last, c, [LabelOf(n)], Labels(n.children));
    }
  }

  /** Growing the last root's children by `u + v` in pre-order grows the whole forest's labels by `u + v`. */
  lemma LabelsReplaceLast(init: seq<TreeNode>, last: TreeNode, c: seq<TreeNode>, u: seq<Label>, v: seq<Label>)
    requires Labels(c) == Labels(last.children) + u + v
    ensures Labels(init + [last.(children := c)]) == Labels(init + [last]) + u + v
  {
    LabelsSnoc(init, last);
    LabelsSnoc(init, last.(children := c));
    Assoc5(Labels(init), [LabelOf(last)], Labels(last.children), u, v);
  }

  lemma Assoc5<T>(x: seq<T>, y: seq<T>, z: seq<T>, u: seq<T>, v: seq<T>)
    ensures x + y + (z + u + v) == (x + y + z) + u + v
  {
  }

  /** The pre-order of the built forest is the section order. */
  lemma {:induction false} BuiltPreOrder(sections: seq<Label>, linkParents: bool)
    ensures Labels(Built(sections, linkParents)) == sections
  {
    if sections != [] {
      var init := sections[..|sections| - 1];
      var s := sections[|sections| - 1];
      assert sections == init + [s];
      BuiltPreOrder(init, linkParents);
      InsertLabels(Built(init, linkParents), s, linkParents);
    }
  }

  /** Inserting a section adds it last in pre-order. */
  lemma InsertLabels(f: seq<TreeNode>, s: Label, linkParents: bool)
    ensures Labels(Insert(f, s, linkParents)) == Labels(f) + [s]
  {
    var kept := PopTo(Spine(f), s.level);
    var parent := if linkParents && kept != [] then Some(kept[|kept| - 1].id) else None;
    LabelsAppendAt(f, |kept|, NodeOf(s, parent));
  }

  /** Every section becomes exactly one node. */
  lemma BuiltSize(sections: seq<Label>, linkParents: bool)
    ensures Size(Built(sections, linkParents)) == |sections|
  {
    BuiltPreOrder(sections, linkParents);
  }

  /** Every child's level is strictly greater than its parent's. */
  predicate ChildrenDeeper(n: TreeNode) {
    forall j :: 0 <= j < |n.children| ==> n.children[j].level > n.level
  }

  predicate WellNested(f: seq<TreeNode>) {
    forall i :: 0 <= i < |f| ==> ChildrenDeeper(f[i]) && WellNested(f[i].children)
  }

  lemma WellNestedSnoc(f: seq<TreeNode>, n: TreeNode)
    requires WellNested(f) && ChildrenDeeper(n) && WellNested(n.children)
    ensures WellNested(f + [n])
  {
    var g := f + [n];
    forall i | 0 <= i < |g|
      ensures ChildrenDeeper(g[i]) && WellNested(g[i].children)
    {
      if i < |f| { assert g[i] == f[i]; }
    }
  }

  lemma {:induction false} WellNestedAppendAt(f: seq<TreeNode>, d: nat, n: TreeNode)
    requires d <= |Spine(f)| && WellNested(f) && n.children == []
    requires d > 0 ==> Spine(f)[d - 1].level < n.level
    ensures WellNested(AppendAt(f, d, n))
    decreases d
  {
    if d == 0 {
      WellNestedSnoc(f, n);
    } else {
      var init := f[..|f| - 1];
      var last := f[|f| - 1];
      WellNestedInit(f);
      var kids := AppendAt(last.children, d - 1, n);
      WellNestedAppendAt(last.children, d - 1, n);
      var last' := last.(children := kids);
      assert ChildrenDeeper(last') by {
        assert Spine(f)[0] == Open(last.id, last.level);
        ChildLevelsAppendAt(last.children, d - 1, n);
      }
      WellNestedSnoc(init, last');
    }
  }

  /** Dropping the last root keeps a forest well nested; that root is well nested itself. */
  lemma WellNestedInit(f: seq<TreeNode>)
    requires f != [] && WellNested(f)
    ensures WellNested(f[..|f| - 1])
    ensures ChildrenDeeper(f[|f| - 1]) && WellNested(f[|f| - 1].children)
  {
    var init := f[..|f| - 1];
    forall i | 0 <= i < |init| ensures ChildrenDeeper(init[i]) && WellNested(init[i].children) {
      assert init[i] == f[i];
    }
  }

  /** The roots of `AppendAt(f, d, n)`: those of `f`, plus `n` when `d == 0`. */
  lemma ChildLevelsAppendAt(f: seq<TreeNode>, d: nat, n: TreeNode)
    requires d <= |Spine(f)|
    ensures var g := AppendAt(f, d, n);
      forall j :: 0 <= j < |g| ==> g[j].level == (if j < |f| then f[j].level else n.level)
  {
  }

  /** The built forest is well nested. */
  lemma {:induction false} BuiltWellNested(sections: seq<Label>, linkParents: bool)
    ensures WellNested(Built(sections, linkParents))
  {
    if sections != [] {
      var init := sections[..|sections| - 1];
      var s := sections[|sections| - 1];
      BuiltWellNested(init, linkParents);
      var f := Built(init, linkParents);
      var kept := PopTo(Spine(f), s.level);
      var parent := if linkParents && kept != [] then Some(kept[|kept| - 1].id) else None;
      PopToKeeps(Spine(f), s.level);
      WellNestedAppendAt(f, |kept|, NodeOf(s, parent));
    }
  }

  lemma {:induction false} ParentLinksAppendAt(f: seq<TreeNode>, d: nat, n: TreeNode, p: Option<string>, linkParents: bool)
    requires d <= |Spine(f)| && ParentLinks(f, p, linkParents) && n.children == []
    requires n.parent == if d == 0 then p else if linkParents then Some(Spine(f)[d - 1].id) else None
    ensures ParentLinks(AppendAt(f, d, n), p, linkParents)
    decreases d
  {
    if d == 0 {
      ParentLinksSnoc(f, n, p, linkParents);
    } else {
      var init := f[..|f| - 1];
      var last := f[|f| - 1];
      var q := if linkParents then Some(last.id) else None;
      ParentLinksInit(f, p, linkParents);
      ParentLinksAppendAt(last.children, d - 1, n, q, linkParents);
      ParentLinksSnoc(init, last.(children := AppendAt(last.children, d - 1, n)), p, linkParents);
    }
  }

  /** Dropping the last root keeps the back-references right; the last root's children point to it. */
  lemma ParentLinksInit(f: seq<TreeNode>, p: Option<string>, linkParents: bool)
    requires f != [] && ParentLinks(f, p, linkParents)
    ensures ParentLinks(f[..|f| - 1], p, linkParents)
    ensures ParentLinks(f[|f| - 1].children, if linkParents then Some(f[|f| - 1].id) else None, linkParents)
  {
    var init := f[..|f| - 1];
    forall i | 0 <= i < |init|
      ensures init[i].parent == p &&
        ParentLinks(init[i].children, if linkParents then Some(init[i].id) else None, linkParents)
    {
      assert init[i] == f[i];
    }
  }

  /** Roots carry no back-reference; children carry their parent's id (when linking). */
  lemma {:induction false} BuiltParentLinks(sections: seq<Label>, linkParents: bool)
    ensures ParentLinks(Built(sections, linkParents), None, linkParents)
  {
    if sections != [] {
      var init := sections[..|sections| - 1];
      var s := sections[|sections| - 1];
      BuiltParentLinks(init, linkParents);
      var f := Built(init, linkParents);
      var kept := PopTo(Spine(f), s.level);
      var parent := if linkParents && kept != [] then Some(kept[|kept| - 1].id) else None;
      PopToKeeps(Spine(f), s.level);
      ParentLinksAppendAt(f, |kept|, NodeOf(s, parent), None, linkParents);
    }
  }

  // ------------------------------------------------------------ nesting

  /**
   * The position of the last section whose level is below `level`, or -1
   * when there is none: where a new section at `level` is attached.
   */
  function LastBelow(sections: seq<Label>, level: int): (r: int)
    ensures -1 <= r < |sections|
    ensures r >= 0 ==> sections[r].level < level
    ensures forall k :: r < k < |sections| ==> sections[k].level >= level
  {
    if sections == [] then -1
    else if sections[|sections| - 1].level < level then |sections| - 1
    else LastBelow(sections[..|sections| - 1], level)
  }

  /** The id of the section a new section at `level` hangs under, if any. */
  function ParentOf(sections: seq<Label>, level: int): Option<string> {
    var j := LastBelow(sections, level);
    if j < 0 then None else Some(sections[j].id)
  }

  /** The back-reference of every node, in pre-order. */
  function ParentRefs(f: seq<TreeNode>): (r: seq<Option<string>>)
    ensures |r| == Size(f)
  {
    if f == [] then [] else [f[0].parent] + ParentRefs(f[0].children) + ParentRefs(f[1..])
  }

  lemma {:induction false} ParentRefsAppend(a: seq<TreeNode>, b: seq<TreeNode>)
    ensures ParentRefs(a + b) == ParentRefs(a) + ParentRefs(b)
  {
    if a != [] {
      var t := a[1..];
      assert (a + b)[0] == a[0];
      assert (a + b)[1..] == t + b;
      ParentRefsAppend(t, b);
      Regroup([a[0].parent], ParentRefs(a[0].children), ParentRefs(t), ParentRefs(b));
    } else {
      assert a + b == b;
    }
  }

  lemma ParentRefsSnoc(a: seq<TreeNode>, n: TreeNode)
    ensures ParentRefs(a + [n]) == ParentRefs(a) + [n.parent] + ParentRefs(n.children)
  {
    ParentRefsAppend(a, [n]);
    assert [n][1..] == [];
  }

  /** Attaching a childless node along the spine puts its back-reference last in pre-order. */
  lemma {:induction false} ParentRefsAppendAt(f: seq<TreeNode>, d: nat, n: TreeNode)
    requires d <= |Spine(f)| && n.children == []
    ensures ParentRefs(AppendAt(f, d, n)) == ParentRefs(f) + [n.parent]
    decreases d
  {
    if d == 0 {
      ParentRefsSnoc(f, n);
    } else {
      var init := f[..|f| - 1];
      var last := f[|f| - 1];
      var c := AppendAt(last.children, d - 1, n);
      assert f == init + [last];
      assert AppendAt(f, d, n) == init + [last.(children := c)];
      ParentRefsAppendAt(last.children, d - 1, n);
      ParentRefsReplaceLast(init, last, c, n.parent);
    }
  }

  /** Growing the last root's children by one back-reference grows the forest's by the same one. */
  lemma ParentRefsReplaceLast(init: seq<TreeNode>, last: TreeNode, c: seq<TreeNode>, q: Option<string>)
    requires ParentRefs(c) == ParentRefs(last.children) + [q]
    ensures ParentRefs(init + [last.(children := c)]) == ParentRefs(init + [last]) + [q]
  {
    ParentRefsSnoc(init, last);
    ParentRefsSnoc(init, last.(children := c));
    Assoc5(ParentRefs(init), [last.parent], ParentRefs(last.children), [q], []);
  }

  /** Popping down to `a` and then to `b <= a` pops down to `b`. */
  lemma {:induction false} PopToTwice(stack: seq<Open>, a: int, b: int)
    requires b <= a
    ensures PopTo(PopTo(stack, a), b) == PopTo(stack, b)
    decreases |stack|
  {
    if stack != [] && stack[|stack| - 1].level >= a {
      PopToTwice(stack[..|stack| - 1], a, b);
    }
  }

  /** The builder's stack after a section is the kept part of the stack before it, topped by that section. */
  lemma BuiltSpine(sections: seq<Label>, linkParents: bool)
    requires sections != []
    ensures var init := sections[..|sections| - 1]; var s := sections[|sections| - 1];
      Spine(Built(sections, linkParents)) ==
      PopTo(Spine(Built(init, linkParents)), s.level) + [Open(s.id, s.level)]
  {
    var init := sections[..|sections| - 1];
    var s := sections[|sections| - 1];
    var f := Built(init, linkParents);
    var kept := PopTo(Spine(f), s.level);
    var parent := if linkParents && kept != [] then Some(kept[|kept| - 1].id) else None;
    PopToKeeps(Spine(f), s.level);
    assert kept == Spine(f)[..|kept|];
    SpineAppendAt(f, |kept|, NodeOf(s, parent));
  }

  /**
   * Popping the builder's stack down to `level` leaves on top the last
   * section whose level is below `level`, and empties it when there is none.
   */
  lemma {:induction false} SpineBelow(sections: seq<Label>, level: int, linkParents: bool)
    ensures var k := PopTo(Spine(Built(sections, linkParents)), level);
      var j := LastBelow(sections, level);
      (k == [] <==> j == -1) &&
      (k != [] ==> j >= 0 && k[|k| - 1] == Open(sections[j].id, sections[j].level))
  {
    if sections != [] {
      var init := sections[..|sections| - 1];
      var s := sections[|sections| - 1];
      BuiltSpine(sections, linkParents);
      if s.level < level {
        SpineBelowTop(sections, level, linkParents);
      } else {
        SpineBelow(init, level, linkParents);
        SpineBelowPopped(sections, level, linkParents);
        LastBelowInit(sections, level);
      }
    }
  }

  /** `SpineBelow` when the last section is itself below `level`: it stays on top. */
  lemma SpineBelowTop(sections: seq<Label>, level: int, linkParents: bool)
    requires sections != [] && sections[|sections| - 1].level < level
    requires var init := sections[..|sections| - 1]; var s := sections[|sections| - 1];
      Spine(Built(sections, linkParents)) ==
      PopTo(Spine(Built(init, linkParents)), s.level) + [Open(s.id, s.level)]
    ensures PopTo(Spine(Built(sections, linkParents)), level) == Spine(Built(sections, linkParents))
    ensures LastBelow(sections, level) == |sections| - 1
  {
  }

  /** `SpineBelow` when the last section is at `level` or deeper: it is popped with everything it covers. */
  lemma SpineBelowPopped(sections: seq<Label>, level: int, linkParents: bool)
    requires sections != [] && sections[|sections| - 1].level >= level
    requires var init := sections[..|sections| - 1]; var s := sections[|sections| - 1];
      Spine(Built(sections, linkParents)) ==
      PopTo(Spine(Built(init, linkParents)), s.level) + [Open(s.id, s.level)]
    ensures var init := sections[..|sections| - 1];
      PopTo(Spine(Built(sections, linkParents)), level) == PopTo(Spine(Built(init, linkParents)), level)
  {
    var init := sections[..|sections| - 1];
    var s := sections[|sections| - 1];
    var sp := Spine(Built(init, linkParents));
    var kept := PopTo(sp, s.level);
    assert PopTo(kept + [Open(s.id, s.level)], level) == PopTo(kept, level) by {
      assert (kept + [Open(s.id, s.level)])[..|kept|] == kept;
    }
    PopToTwice(sp, s.level, level);
  }

  /** A last section at `level` or deeper does not change where a section at `level` goes. */
  lemma LastBelowInit(sections: seq<Label>, level: int)
    requires sections != [] && sections[|sections| - 1].level >= level
    ensures var init := sections[..|sections| - 1]; var j := LastBelow(init, level);
      LastBelow(sections, level) == j && (j >= 0 ==> sections[j] == init[j])
  {
  }

  /**
   * Every section is attached under the last earlier section with a smaller
   * level: in the linking builder each node's back-reference is that
   * section's id, and a section with no such predecessor is a root.
   */
  lemma {:induction false} BuiltParentRefs(sections: seq<Label>)
    ensures |ParentRefs(Built(sections, true))| == |sections|
    ensures forall i :: 0 <= i < |sections| ==>
      ParentRefs(Built(sections, true))[i] == ParentOf(sections[..i], sections[i].level)
  {
    BuiltSize(sections, true);
    if sections != [] {
      var init := sections[..|sections| - 1];
      BuiltParentRefs(init);
      LastParentRef(sections);
      ExtendParentRefs(sections, ParentRefs(Built(init, true)), ParentRefs(Built(sections, true)));
    }
  }

  /** The section placed last hangs under the last earlier section with a smaller level. */
  lemma LastParentRef(sections: seq<Label>)
    requires sections != []
    ensures var init := sections[..|sections| - 1];
      ParentRefs(Built(sections, true)) ==
      ParentRefs(Built(init, true)) + [ParentOf(init, sections[|sections| - 1].level)]
  {
    var init := sections[..|sections| - 1];
    var s := sections[|sections| - 1];
    var f := Built(init, true);
    var kept := PopTo(Spine(f), s.level);
    var parent := if kept != [] then Some(kept[|kept| - 1].id) else None;
    PopToKeeps(Spine(f), s.level);
    ParentRefsAppendAt(f, |kept|, NodeOf(s, parent));
    SpineBelow(init, s.level, true);
  }

  lemma ExtendParentRefs(sections: seq<Label>, before: seq<Option<string>>, after: seq<Option<string>>)
    requires sections != [] && |before| == |sections| - 1
    requires forall i :: 0 <= i < |before| ==>
      before[i] == ParentOf(sections[..|sections| - 1][..i], sections[..|sections| - 1][i].level)
    requires after == before + [ParentOf(sections[..|sections| - 1], sections[|sections| - 1].level)]
    ensures forall i :: 0 <= i < |sections| ==> after[i] == ParentOf(sections[..i], sections[i].level)
  {
    var init := sections[..|sections| - 1];
    forall i | 0 <= i < |sections| ensures after[i] == ParentOf(sections[..i], sections[i].level) {
      if i < |before| {
        assert sections[..i] == init[..i] && sections[i] == init[i] && after[i] == before[i];
      } else {
        assert sections[..i] == init;
      }
    }
  }

  // ------------------------------------------------- the unlinking builder

  lemma {:induction false} UnlinkedAppend(a: seq<TreeNode>, b: seq<TreeNode>)
    ensures Unlinked(a + b) == Unlinked(a) + Unlinked(b)
  {
    if a != [] {
      assert (a + b)[0] == a[0];
      assert (a + b)[1..] == a[1..] + b;
      UnlinkedAppend(a[1..], b);
    } else {
      assert a + b == b;
    }
  }

  lemma UnlinkedSnoc(a: seq<TreeNode>, n: TreeNode)
    ensures Unlinked(a + [n]) == Unlinked(a) + [n.(children := Unlinked(n.children), parent := None)]
  {
    UnlinkedAppend(a, [n]);
    assert [n][1..] == [];
  }

  /** Dropping back-references keeps the rightmost path. */
  lemma {:induction false} SpineUnlinked(f: seq<TreeNode>)
    ensures Spine(Unlinked(f)) == Spine(f)
    decreases f
  {
    if f != [] {
      var init := f[..|f| - 1];
      var last := f[|f| - 1];
      assert f == init + [last];
      UnlinkedSnoc(init, last);
      SpineUnlinked(last.children);
    }
  }

  /** Dropping back-references commutes with attaching a childless node along the spine. */
  lemma {:induction false} UnlinkedAppendAt(f: seq<TreeNode>, d: nat, n: TreeNode)
    requires d <= |Spine(f)| && n.children == []
    ensures d <= |Spine(Unlinked(f))|
    ensures Unlinked(AppendAt(f, d, n)) == AppendAt(Unlinked(f), d, n.(parent := None))
    decreases d
  {
    SpineUnlinked(f);
    if d == 0 {
      UnlinkedSnoc(f, n);
    } else {
      var init := f[..|f| - 1];
      var last := f[|f| - 1];
      var c := AppendAt(last.children, d - 1, n);
      assert f == init + [last];
      assert AppendAt(f, d, n) == init + [last.(children := c)];
      UnlinkedAppendAt(last.children, d - 1, n);
      UnlinkedReplaceLast(init, last, c, AppendAt(Unlinked(last.children), d - 1, n.(parent := None)));
    }
  }

  /** Dropping back-references from a forest whose last root's children were replaced. */
  lemma UnlinkedReplaceLast(init: seq<TreeNode>, last: TreeNode, c: seq<TreeNode>, u: seq<TreeNode>)
    requires Unlinked(c) == u
    ensures Unlinked(init + [last]) == Unlinked(init) + [last.(children := Unlinked(last.children), parent := None)]
    ensures Unlinked(init + [last.(children := c)]) == Unlinked(init) + [last.(children := u, parent := None)]
  {
    UnlinkedSnoc(init, last);
    UnlinkedSnoc(init, last.(children := c));
  }

  /**
   * The builder that records no back-references nests the sections exactly
   * as the linking one does: the two forests differ only in `parent` fields.
   */
  lemma {:induction false} BuiltUnlinked(sections: seq<Label>)
    ensures Built(sections, false) == Unlinked(Built(sections, true))
  {
    if sections != [] {
      var init := sections[..|sections| - 1];
      var s := sections[|sections| - 1];
      var f := Built(init, true);
      var kept := PopTo(Spine(f), s.level);
      var parent := if kept != [] then Some(kept[|kept| - 1].id) else None;
      BuiltUnlinked(init);
      PopToKeeps(Spine(f), s.level);
      SpineUnlinked(f);
      UnlinkedAppendAt(f, |kept|, NodeOf(s, parent));
    }
  }
}
