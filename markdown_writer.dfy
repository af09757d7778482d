/**
 * `treeToMarkdown` (deployments/local-selfhosted/client/src/utils/markdownParser.ts):
 * every node in pre-order as a `#` header line and a blank line, then its
 * content and a blank line when the content is not blank; the whole text
 * is trimmed at the end.
 */
module MarkdownWriter {
  import opened Strings
  import opened Tree

  /** `'#'.repeat(level)`; a negative level (a `RangeError` in JavaScript) gives no `#`. */
  function Hashes(level: int): (r: string)
    ensures level >= 0 ==> r == Repeat('#', level)
  {
    Repeat('#', if level < 0 then 0 else level)
  }

  /** The header part of a node's text: `#…# title` and a blank line. */
  function HeaderMarkdown(n: TreeNode): string {
    Hashes(n.level) + " " + n.title + "\n\n"
  }

  /** The content part of a node's text: the untrimmed content and a blank line, or nothing. */
  function ContentMarkdown(n: TreeNode): string {
    if Trim(n.content) != [] then n.content + "\n\n" else []
  }

  /** The text one node contributes, before its children. */
  function NodeMarkdown(n: TreeNode): string {
    HeaderMarkdown(n) + ContentMarkdown(n)
  }

  /** The text of a forest before the final trim: each root, then its subtree, then the other roots. */
  function ForestMarkdown(f: seq<TreeNode>): string {
    if f == [] then [] else NodeMarkdown(f[0]) + ForestMarkdown(f[0].children) + ForestMarkdown(f[1..])
  }

  /** Reference reading: the node texts concatenated in the order of `ns`. */
  function Concat(ns: seq<TreeNode>): string {
    if ns == [] then [] else NodeMarkdown(ns[0]) + Concat(ns[1..])
  }

  /** `treeToMarkdown`. */
  function TreeMarkdown(tree: seq<TreeNode>): string {
    Trim(ForestMarkdown(tree))
  }

  lemma {:induction false} ConcatAppend(a: seq<TreeNode>, b: seq<TreeNode>)
    ensures Concat(a + b) == Concat(a) + Concat(b)
  {
    if a != [] {
      assert (a + b)[1..] == a[1..] + b;
      ConcatAppend(a[1..], b);
    } else {
      assert a + b == b;
    }
  }

  /** The forest's text is the node texts in depth-first pre-order, each node's subtree right after it. */
  lemma {:induction false} ForestMarkdownPreOrder(f: seq<TreeNode>)
    ensures ForestMarkdown(f) == Concat(Nodes(f))
  {
    if f != [] {
      ForestMarkdownPreOrder(f[0].children);
      ForestMarkdownPreOrder(f[1..]);
      var ns, nr := Nodes(f[0].children), Nodes(f[1..]);
      ConcatAppend([f[0]] + ns, nr);
      ConcatAppend([f[0]], ns);
      assert Concat([f[0]]) == NodeMarkdown(f[0]);
    }
  }

  /** One sibling of the loop in `traverse`. */
  lemma TraverseStep(nodes: seq<TreeNode>, i: int)
    requires 0 <= i < |nodes|
    ensures ForestMarkdown(nodes[i..]) ==
      NodeMarkdown(nodes[i]) + ForestMarkdown(nodes[i].children) + ForestMarkdown(nodes[i + 1..])
  {
    assert nodes[i..][0] == nodes[i] && nodes[i..][1..] == nodes[i + 1..];
  }

  /** The recursive `traverse`: appends the text of `nodes` to what is written so far. */
  method Traverse(nodes: seq<TreeNode>, markdownIn: string) returns (markdown: string)
    ensures markdown == markdownIn + ForestMarkdown(nodes)
  {
    markdown := markdownIn;
    for i := 0 to |nodes|
      invariant markdown + ForestMarkdown(nodes[i..]) == markdownIn + ForestMarkdown(nodes)
    {
      var node := nodes[i];
      ghost var before := markdown;
      var headerPrefix := Hashes(node.level);
      markdown := markdown + headerPrefix + " " + node.title + "\n\n";
      WriteHeader(before, node, markdown);
      if Trim(node.content) != [] {
        markdown := markdown + node.content + "\n\n";
      }
      WriteContent(before, node, markdown);
      ghost var written := markdown;
      if |node.children| > 0 {
        markdown := Traverse(node.children, markdown);
      }
      TraverseInvariant(nodes, i, markdownIn, before, written, markdown);
    }
    assert nodes[|nodes|..] == [];
  }

  lemma WriteHeader(before: string, node: TreeNode, now: string)
    requires now == before + Hashes(node.level) + " " + node.title + "\n\n"
    ensures now == before + HeaderMarkdown(node)
  {
  }

  lemma WriteContent(before: string, node: TreeNode, now: string)
    requires Trim(node.content) != [] ==> now == before + HeaderMarkdown(node) + node.content + "\n\n"
    requires Trim(node.content) == [] ==> now == before + HeaderMarkdown(node)
    ensures now == before + NodeMarkdown(node)
  {
  }

  /** The loop invariant of `traverse` survives one sibling. */
  lemma TraverseInvariant(nodes: seq<TreeNode>, i: int, markdownIn: string, before: string, written: string, now: string)
    requires 0 <= i < |nodes|
    requires before + ForestMarkdown(nodes[i..]) == markdownIn + ForestMarkdown(nodes)
    requires written == before + NodeMarkdown(nodes[i])
    requires now == written + ForestMarkdown(nodes[i].children)
    ensures now + ForestMarkdown(nodes[i + 1..]) == markdownIn + ForestMarkdown(nodes)
  {
    TraverseStep(nodes, i);
    Chain(before, NodeMarkdown(nodes[i]), ForestMarkdown(nodes[i].children), ForestMarkdown(nodes[i + 1..]),
      ForestMarkdown(nodes[i..]), markdownIn + ForestMarkdown(nodes), written, now);
  }

  lemma Chain<T>(before: seq<T>, a: seq<T>, b: seq<T>, c: seq<T>, whole: seq<T>, total: seq<T>, written: seq<T>, now: seq<T>)
    requires before + whole == total && whole == a + b + c
    requires written == before + a && now == written + b
    ensures now + c == total
  {
    assert before + (a + b + c) == before + a + b + c;
  }

  /** `treeToMarkdown`: the traversal, then one trim. */
  method TreeToMarkdown(tree: seq<TreeNode>) returns (markdown: string)
    ensures markdown == TreeMarkdown(tree)
  {
    markdown := Traverse(tree, "");
    assert "" + ForestMarkdown(tree) == ForestMarkdown(tree);
    markdown := Trim(markdown);
  }
}
