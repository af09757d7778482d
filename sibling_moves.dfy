/**
 * `moveNodeUp` and `moveNodeDown`
 * (deployments/firebase-cloud/client/src/components/DraggableTreeEditor.tsx):
 * each copies the sibling list into a fresh array and walks it by index.
 * A match is swapped with its neighbour and the walk stops; any other
 * visited entry has its children rewritten the same way. `moveNodeUp`
 * starts at index 1, so the first entry is never visited; `moveNodeDown`
 * stops before the last index, so the last entry is never visited.
 */
module SiblingMoves {
  import opened Tree

  /** A visited entry of `moveNodeUp`: its children rewritten. */
  function Lifted(n: TreeNode, id: string): TreeNode {
    n.(children := MoveUp(n.children, id))
  }

  /** The sibling list `moveNodeUp` returns. */
  function MoveUp(f: seq<TreeNode>, id: string): (r: seq<TreeNode>)
    ensures |r| == |f|
    decreases f, 1
  {
    if f == [] then [] else UpFrom(f[0], f[1..], id)
  }

  /**
   * The walk from index `i` on: `prev` is entry `i - 1` as the walk left it,
   * `rest` the entries from `i`, not yet visited.
   */
  function UpFrom(prev: TreeNode, rest: seq<TreeNode>, id: string): (r: seq<TreeNode>)
    ensures |r| == 1 + |rest|
    decreases rest, 0
  {
    if rest == [] then [prev]
    else if rest[0].id == id then [rest[0], prev] + rest[1..]
    else [prev] + UpFrom(rest[0].(children := MoveUp(rest[0].children, id)), rest[1..], id)
  }

  /** A visited entry of `moveNodeDown`: its children rewritten. */
  function Lowered(n: TreeNode, id: string): TreeNode {
    n.(children := MoveDown(n.children, id))
  }

  /** The sibling list `moveNodeDown` returns. */
  function MoveDown(f: seq<TreeNode>, id: string): (r: seq<TreeNode>)
    ensures |r| == |f|
  {
    if |f| <= 1 then f
    else if f[0].id == id then [f[1], f[0]] + f[2..]
    else [f[0].(children := MoveDown(f[0].children, id))] + MoveDown(f[1..], id)
  }

  /** What the walk of `moveNodeUp` keeps: entries from `i` unvisited, and the rest of the walk completing the result. */
  predicate UpWalk(nodes: seq<TreeNode>, id: string, i: int, s: seq<TreeNode>) {
    1 <= i <= |s| == |nodes| && s[i..] == nodes[i..] &&
    s[..i - 1] + UpFrom(s[i - 1], nodes[i..], id) == MoveUp(nodes, id)
  }

  lemma UpStart(nodes: seq<TreeNode>, id: string, s: seq<TreeNode>)
    requires s == nodes && nodes != []
    ensures UpWalk(nodes, id, 1, s)
  {
    assert s[..0] == [];
  }

  /** A visited entry that does not match: its children rewritten, the walk moves on. */
  lemma UpVisit(nodes: seq<TreeNode>, id: string, i: int, s: seq<TreeNode>, t: seq<TreeNode>)
    requires UpWalk(nodes, id, i, s) && i < |s| && nodes[i].id != id
    requires t == s[i := nodes[i].(children := MoveUp(nodes[i].children, id))]
    ensures UpWalk(nodes, id, i + 1, t)
  {
    var x := nodes[i].(children := MoveUp(nodes[i].children, id));
    UpFromVisit(s[i - 1], nodes[i..], id);
    assert nodes[i..][0] == nodes[i] && nodes[i..][1..] == nodes[i + 1..];
    StepShift(s, t, i, x, UpFrom(x, nodes[i + 1..], id), MoveUp(nodes, id));
  }

  lemma UpFromVisit(prev: TreeNode, rest: seq<TreeNode>, id: string)
    requires rest != [] && rest[0].id != id
    ensures UpFrom(prev, rest, id) == [prev] + UpFrom(Lifted(rest[0], id), rest[1..], id)
  {
  }

  /** Replacing entry `i` by `x` moves the boundary of a split by one. */
  lemma StepShift<T>(s: seq<T>, t: seq<T>, i: int, x: T, u: seq<T>, m: seq<T>)
    requires 1 <= i < |s| && t == s[i := x] && s[..i - 1] + ([s[i - 1]] + u) == m
    ensures t[..i] + u == m && t[i + 1..] == s[i + 1..] && t[i] == x
  {
    assert t[..i] == s[..i - 1] + [s[i - 1]];
  }

  /** A match: swapping it with its predecessor finishes the result. */
  lemma UpSwap(nodes: seq<TreeNode>, id: string, i: int, s: seq<TreeNode>, t: seq<TreeNode>)
    requires UpWalk(nodes, id, i, s) && i < |s| && nodes[i].id == id
    requires t == s[i - 1 := s[i]][i := s[i - 1]]
    ensures t == MoveUp(nodes, id)
  {
    assert nodes[i..] == [nodes[i]] + nodes[i + 1..];
    assert t == s[..i - 1] + [nodes[i], s[i - 1]] + nodes[i + 1..];
  }

  /** The walk ran off the end: the list is the result. */
  lemma UpEnd(nodes: seq<TreeNode>, id: string, i: int, s: seq<TreeNode>)
    requires UpWalk(nodes, id, i, s) && i == |s|
    ensures s == MoveUp(nodes, id)
  {
    assert nodes[i..] == [];
    assert s == s[..i - 1] + [s[i - 1]];
  }

  /** The index loop of `moveNodeUp`, over a copy of the list. */
  method MoveNodeUp(nodes: seq<TreeNode>, id: string) returns (r: seq<TreeNode>)
    ensures r == MoveUp(nodes, id)
    decreases nodes
  {
    var a := new TreeNode[|nodes|](k requires 0 <= k < |nodes| => nodes[k]);
    if a.Length == 0 {
      return a[..];
    }
    UpStart(nodes, id, a[..]);
    var i := 1;
    while i < a.Length
      invariant UpWalk(nodes, id, i, a[..])
    {
      ghost var s := a[..];
      if a[i].id == id {
        a[i - 1], a[i] := a[i], a[i - 1];
        UpSwap(nodes, id, i, s, a[..]);
        return a[..];
      }
      var children := MoveNodeUp(nodes[i].children, id);
      a[i] := a[i].(children := children);
      UpVisit(nodes, id, i, s, a[..]);
      i := i + 1;
    }
    UpEnd(nodes, id, i, a[..]);
    return a[..];
  }

  /** What the walk of `moveNodeDown` keeps: entries from `i` unvisited, and the rest of the walk completing the result. */
  predicate DownWalk(nodes: seq<TreeNode>, id: string, i: int, s: seq<TreeNode>) {
    0 <= i <= |s| == |nodes| && s[i..] == nodes[i..] &&
    s[..i] + MoveDown(nodes[i..], id) == MoveDown(nodes, id)
  }

  lemma DownStart(nodes: seq<TreeNode>, id: string, s: seq<TreeNode>)
    requires s == nodes
    ensures DownWalk(nodes, id, 0, s)
  {
    assert s[..0] == [] && nodes[0..] == nodes;
  }

  lemma DownVisit(nodes: seq<TreeNode>, id: string, i: int, s: seq<TreeNode>, t: seq<TreeNode>)
    requires DownWalk(nodes, id, i, s) && i < |s| - 1 && nodes[i].id != id
    requires t == s[i := nodes[i].(children := MoveDown(nodes[i].children, id))]
    ensures DownWalk(nodes, id, i + 1, t)
  {
    var x := nodes[i].(children := MoveDown(nodes[i].children, id));
    assert nodes[i..][0] == nodes[i] && nodes[i..][1..] == nodes[i + 1..];
    assert MoveDown(nodes[i..], id) == [x] + MoveDown(nodes[i + 1..], id);
    DownShift(s, t, i, x, MoveDown(nodes[i + 1..], id), MoveDown(nodes, id));
  }

  lemma DownShift<T>(s: seq<T>, t: seq<T>, i: int, x: T, u: seq<T>, m: seq<T>)
    requires 0 <= i < |s| && t == s[i := x] && s[..i] + ([x] + u) == m
    ensures t[..i + 1] + u == m && t[i + 1..] == s[i + 1..]
  {
    assert t[..i + 1] == s[..i] + [x];
  }

  lemma DownSwap(nodes: seq<TreeNode>, id: string, i: int, s: seq<TreeNode>, t: seq<TreeNode>)
    requires DownWalk(nodes, id, i, s) && i < |s| - 1 && nodes[i].id == id
    requires t == s[i := s[i + 1]][i + 1 := s[i]]
    ensures t == MoveDown(nodes, id)
  {
    assert nodes[i..][0] == nodes[i] && nodes[i..][1] == nodes[i + 1] && nodes[i..][2..] == nodes[i + 2..];
    assert t == s[..i] + [nodes[i + 1], nodes[i]] + nodes[i + 2..];
  }

  lemma DownEnd(nodes: seq<TreeNode>, id: string, i: int, s: seq<TreeNode>)
    requires DownWalk(nodes, id, i, s) && i >= |s| - 1
    ensures s == MoveDown(nodes, id)
  {
    assert s == s[..i] + s[i..];
  }

  /** The index loop of `moveNodeDown`, over a copy of the list. */
  method MoveNodeDown(nodes: seq<TreeNode>, id: string) returns (r: seq<TreeNode>)
    ensures r == MoveDown(nodes, id)
    decreases nodes
  {
    var a := new TreeNode[|nodes|](k requires 0 <= k < |nodes| => nodes[k]);
    DownStart(nodes, id, a[..]);
    var i := 0;
    while i < a.Length - 1
      invariant DownWalk(nodes, id, i, a[..])
    {
      ghost var s := a[..];
      if a[i].id == id {
        a[i], a[i + 1] := a[i + 1], a[i];
        DownSwap(nodes, id, i, s, a[..]);
        return a[..];
      }
      var children := MoveNodeDown(nodes[i].children, id);
      a[i] := a[i].(children := children);
      DownVisit(nodes, id, i, s, a[..]);
      i := i + 1;
    }
    DownEnd(nodes, id, i, a[..]);
    return a[..];
  }

  // -------------------------------------------------------------- properties

  /** Index of the first entry with the id, or the length when there is none. */
  function FirstMatch(s: seq<TreeNode>, id: string): (r: nat)
    ensures r <= |s| && (r < |s| ==> s[r].id == id)
    ensures forall k :: 0 <= k < r ==> s[k].id != id
  {
    if s == [] then 0 else if s[0].id == id then 0 else 1 + FirstMatch(s[1..], id)
  }

  /** The first two entries exchanged; a shorter list as it is. */
  function Swapped<T>(s: seq<T>): (r: seq<T>)
    ensures |r| == |s|
  {
    if |s| > 1 then [s[1], s[0]] + s[2..] else s
  }

  /** Each entry visited by `moveNodeUp`. */
  function LiftedAll(s: seq<TreeNode>, id: string): (r: seq<TreeNode>)
    ensures |r| == |s|
  {
    if s == [] then [] else [Lifted(s[0], id)] + LiftedAll(s[1..], id)
  }

  /** Each entry visited by `moveNodeDown`. */
  function LoweredAll(s: seq<TreeNode>, id: string): (r: seq<TreeNode>)
    ensures |r| == |s|
  {
    if s == [] then [] else [Lowered(s[0], id)] + LoweredAll(s[1..], id)
  }

  lemma {:induction false} UpFromSplit(prev: TreeNode, rest: seq<TreeNode>, id: string)
    ensures var m := FirstMatch(rest, id);
      var p := [prev] + LiftedAll(rest[..m], id);
      UpFrom(prev, rest, id) == p[..m] + Swapped([p[m]] + rest[m..])
    decreases rest
  {
    var m := FirstMatch(rest, id);
    if rest == [] {
      assert rest[..0] == [] && rest[0..] == [];
    } else if rest[0].id == id {
      assert rest[..0] == [] && rest[0..] == rest;
      assert ([prev] + rest)[2..] == rest[1..];
    } else {
      UpFromSplit(Lifted(rest[0], id), rest[1..], id);
      UpSplitStep(prev, rest, id);
    }
  }

  lemma UpSplitStep(prev: TreeNode, rest: seq<TreeNode>, id: string)
    requires rest != [] && rest[0].id != id
    requires var l, t := Lifted(rest[0], id), rest[1..];
      var p := [l] + LiftedAll(t[..FirstMatch(t, id)], id);
      UpFrom(l, t, id) == p[..FirstMatch(t, id)] + Swapped([p[FirstMatch(t, id)]] + t[FirstMatch(t, id)..])
    ensures var m := FirstMatch(rest, id);
      var p := [prev] + LiftedAll(rest[..m], id);
      UpFrom(prev, rest, id) == p[..m] + Swapped([p[m]] + rest[m..])
  {
    var l, t := Lifted(rest[0], id), rest[1..];
    var m, m' := FirstMatch(rest, id), FirstMatch(t, id);
    var p' := [l] + LiftedAll(t[..m'], id);
    SliceStep(rest, m);
    assert LiftedAll(rest[..m], id) == p';
    assert UpFrom(prev, rest, id) == [prev] + UpFrom(l, t, id);
    ConsSplit(prev, p', m', Swapped([p'[m']] + t[m'..]));
  }

  /** Putting `x` in front of a split list. */
  lemma ConsSplit<T>(x: T, p: seq<T>, m: int, tail: seq<T>)
    requires 0 <= m < |p|
    ensures [x] + (p[..m] + tail) == ([x] + p)[..m + 1] + tail && ([x] + p)[m + 1] == p[m]
  {
    assert ([x] + p)[..m + 1] == [x] + p[..m];
  }

  /**
   * `moveNodeUp` on one sibling list: with `rest` the entries after the
   * first and `m` the first index of `rest` whose entry has the id (its
   * length when there is none), the entries of `rest` before `m` are
   * visited and the first entry is not; then the entry just before the
   * match, as it now stands, and the match trade places, unsearched, and
   * everything after the match is untouched.
   */
  lemma MoveUpSplit(f: seq<TreeNode>, id: string)
    requires f != []
    ensures var rest := f[1..];
      var m := FirstMatch(rest, id);
      var p := [f[0]] + LiftedAll(rest[..m], id);
      MoveUp(f, id) == p[..m] + Swapped([p[m]] + rest[m..])
  {
    UpFromSplit(f[0], f[1..], id);
  }

  /** Index of the first entry before the last with the id, or the last index when there is none. */
  function FirstAbove(f: seq<TreeNode>, id: string): (r: nat)
    requires f != []
    ensures r <= |f| - 1
  {
    FirstMatch(f[..|f| - 1], id)
  }

  lemma FirstAboveStep(f: seq<TreeNode>, id: string)
    requires |f| > 1 && f[0].id != id
    ensures FirstAbove(f, id) == 1 + FirstAbove(f[1..], id)
  {
    var s := f[..|f| - 1];
    assert s[0] == f[0] && s[1..] == f[1..][..|f| - 2];
  }

  /** Cutting after the first entry commutes with cutting at `j`. */
  lemma SliceStep<T>(f: seq<T>, j: int)
    requires 1 <= j <= |f|
    ensures f[..j][0] == f[0] && f[..j][1..] == f[1..][..j - 1] && f[j..] == f[1..][j - 1..]
  {
  }

  /**
   * `moveNodeDown` on one sibling list: with `j` the first index below the
   * last whose entry has the id (the last index when there is none), the
   * entries before `j` are visited, then entries `j` and `j + 1` trade
   * places, unsearched, and the rest is untouched; the last entry is never
   * searched.
   */
  lemma {:induction false} MoveDownSplit(f: seq<TreeNode>, id: string)
    requires f != []
    ensures var j := FirstAbove(f, id);
      MoveDown(f, id) == LoweredAll(f[..j], id) + Swapped(f[j..])
  {
    var j := FirstAbove(f, id);
    if |f| == 1 || f[0].id == id {
      assert j == 0 && f[..0] == [] && f[0..] == f;
    } else {
      MoveDownSplit(f[1..], id);
      DownSplitStep(f, id);
    }
  }

  lemma DownSplitStep(f: seq<TreeNode>, id: string)
    requires |f| > 1 && f[0].id != id
    requires MoveDown(f[1..], id) == LoweredAll(f[1..][..FirstAbove(f[1..], id)], id) + Swapped(f[1..][FirstAbove(f[1..], id)..])
    ensures MoveDown(f, id) == LoweredAll(f[..FirstAbove(f, id)], id) + Swapped(f[FirstAbove(f, id)..])
  {
    var t, j := f[1..], FirstAbove(f, id);
    FirstAboveStep(f, id);
    var j' := FirstAbove(t, id);
    SliceStep(f, j);
    assert MoveDown(f, id) == [Lowered(f[0], id)] + MoveDown(t, id);
    Assemble(Lowered(f[0], id), LoweredAll(t[..j'], id), Swapped(t[j'..]),
      LoweredAll(f[..j], id), Swapped(f[j..]), MoveDown(f, id), MoveDown(t, id));
  }

  lemma Assemble<T>(x: T, a: seq<T>, b: seq<T>, a2: seq<T>, b2: seq<T>, m: seq<T>, m2: seq<T>)
    requires m == [x] + m2 && m2 == a + b && a2 == [x] + a && b2 == b
    ensures m == a2 + b2
  {
  }

  /** One root, as labels. */
  lemma LabelsOne(n: TreeNode)
    ensures Labels([n]) == [LabelOf(n)] + Labels(n.children)
  {
    assert [n][1..] == [];
  }

  /** Two roots side by side, then more. */
  lemma LabelsTwo(x: TreeNode, y: TreeNode, rest: seq<TreeNode>)
    ensures Labels([x, y] + rest) == Labels([x]) + Labels([y]) + Labels(rest)
  {
    assert [x, y] + rest == [x] + ([y] + rest);
    LabelsAppend([x], [y] + rest);
    LabelsAppend([y], rest);
  }

  /** Moving up rearranges nodes and never adds, drops or alters one. */
  lemma {:induction false} MoveUpPermutes(f: seq<TreeNode>, id: string)
    ensures multiset(Labels(MoveUp(f, id))) == multiset(Labels(f))
    decreases f, 1
  {
    if f != [] {
      UpFromPermutes(f[0], f[1..], id);
      assert f == [f[0]] + f[1..];
      LabelsAppend([f[0]], f[1..]);
    }
  }

  lemma {:induction false} UpFromPermutes(prev: TreeNode, rest: seq<TreeNode>, id: string)
    ensures multiset(Labels(UpFrom(prev, rest, id))) == multiset(Labels([prev])) + multiset(Labels(rest))
    decreases rest, 0
  {
    if rest == [] {
    } else if rest[0].id == id {
      LabelsTwo(rest[0], prev, rest[1..]);
      assert rest == [rest[0]] + rest[1..];
      LabelsAppend([rest[0]], rest[1..]);
    } else {
      UpFromPermutes(Lifted(rest[0], id), rest[1..], id);
      MoveUpPermutes(rest[0].children, id);
      UpVisitPermutes(prev, rest, id);
    }
  }

  lemma UpVisitPermutes(prev: TreeNode, rest: seq<TreeNode>, id: string)
    requires rest != [] && rest[0].id != id
    requires multiset(Labels(MoveUp(rest[0].children, id))) == multiset(Labels(rest[0].children))
    requires multiset(Labels(UpFrom(Lifted(rest[0], id), rest[1..], id))) ==
      multiset(Labels([Lifted(rest[0], id)])) + multiset(Labels(rest[1..]))
    ensures multiset(Labels(UpFrom(prev, rest, id))) == multiset(Labels([prev])) + multiset(Labels(rest))
  {
    var l := Lifted(rest[0], id);
    OnePermuted(l, rest[0]);
    UpFromVisit(prev, rest, id);
    LabelsAppend([prev], UpFrom(l, rest[1..], id));
    LabelsOne(rest[0]);
    assert Labels(rest) == [LabelOf(rest[0])] + Labels(rest[0].children) + Labels(rest[1..]);
  }

  /** Moving down rearranges nodes and never adds, drops or alters one. */
  lemma {:induction false} MoveDownPermutes(f: seq<TreeNode>, id: string)
    ensures multiset(Labels(MoveDown(f, id))) == multiset(Labels(f))
  {
    if |f| > 1 {
      if f[0].id == id {
        assert f == [f[0], f[1]] + f[2..];
        LabelsTwo(f[0], f[1], f[2..]);
        LabelsTwo(f[1], f[0], f[2..]);
      } else {
        MoveDownPermutes(f[0].children, id);
        MoveDownPermutes(f[1..], id);
        DownVisitPermutes(f, id);
      }
    }
  }

  lemma DownVisitPermutes(f: seq<TreeNode>, id: string)
    requires |f| > 1 && f[0].id != id
    requires multiset(Labels(MoveDown(f[0].children, id))) == multiset(Labels(f[0].children))
    requires multiset(Labels(MoveDown(f[1..], id))) == multiset(Labels(f[1..]))
    ensures multiset(Labels(MoveDown(f, id))) == multiset(Labels(f))
  {
    var l := Lowered(f[0], id);
    var t := MoveDown(f[1..], id);
    assert MoveDown(f, id) == [l] + t;
    OnePermuted(l, f[0]);
    LabelsAppend([l], t);
    LabelsOne(f[0]);
    assert Labels(f) == [LabelOf(f[0])] + Labels(f[0].children) + Labels(f[1..]);
    MultisetJoin(Labels([l]), Labels(t), Labels([f[0]]), Labels(f[1..]));
  }

  /** A root whose own label is kept and whose subtree is rearranged. */
  lemma OnePermuted(x: TreeNode, n: TreeNode)
    requires LabelOf(x) == LabelOf(n) && multiset(Labels(x.children)) == multiset(Labels(n.children))
    ensures multiset(Labels([x])) == multiset(Labels([n]))
  {
    LabelsOne(x);
    LabelsOne(n);
  }

  lemma MultisetJoin<T>(a: seq<T>, b: seq<T>, c: seq<T>, d: seq<T>)
    requires multiset(a) == multiset(c) && multiset(b) == multiset(d)
    ensures multiset(a + b) == multiset(c + d)
  {
  }

  /** Moving an id that does not occur gives back the same list. */
  lemma {:induction false} MoveUpAbsent(f: seq<TreeNode>, id: string)
    requires id !in Ids(f)
    ensures MoveUp(f, id) == f
    decreases f, 1
  {
    if f != [] {
      assert Ids(f) == [f[0].id] + Ids(f[0].children) + Ids(f[1..]);
      UpFromAbsent(f[0], f[1..], id);
    }
  }

  lemma {:induction false} UpFromAbsent(prev: TreeNode, rest: seq<TreeNode>, id: string)
    requires id !in Ids(rest)
    ensures UpFrom(prev, rest, id) == [prev] + rest
    decreases rest, 0
  {
    if rest != [] {
      assert Ids(rest) == [rest[0].id] + Ids(rest[0].children) + Ids(rest[1..]);
      MoveUpAbsent(rest[0].children, id);
      assert Lifted(rest[0], id) == rest[0];
      UpFromAbsent(rest[0], rest[1..], id);
    }
  }

  lemma {:induction false} MoveDownAbsent(f: seq<TreeNode>, id: string)
    requires id !in Ids(f)
    ensures MoveDown(f, id) == f
  {
    if |f| > 1 {
      assert Ids(f) == [f[0].id] + Ids(f[0].children) + Ids(f[1..]);
      MoveDownAbsent(f[0].children, id);
      MoveDownAbsent(f[1..], id);
      assert f == [f[0]] + f[1..];
    }
  }
}
