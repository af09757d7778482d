/**
 * Writing a section forest with `treeToMarkdown` and reading the text back
 * with `parseMarkdownToTree` (both in
 * deployments/local-selfhosted/client/src/utils/markdownParser.ts). The
 * text is described line by line: each section becomes its header line,
 * an empty line, and, when it has content, the content's lines and another
 * empty line; the final trim drops the last empty line.
 */
module MarkdownRoundTrip {
  import opened Strings
  import opened Tree
  import opened SectionTree
  import opened MarkdownParser
  import opened MarkdownWriter

  // ------------------------------------------------------- the written text

  /** The header line `treeToMarkdown` writes for a section. */
  function HeaderLine(l: Label): string {
    Hashes(l.level) + " " + l.title
  }

  /** The text written for one section, as for a node with that label. */
  function LabelMarkdown(l: Label): string {
    HeaderLine(l) + "\n\n" + (if Trim(l.content) != [] then l.content + "\n\n" else [])
  }

  /** The text written for sections in this order, before the final trim. */
  function LabelsMarkdown(ls: seq<Label>): string {
    if ls == [] then [] else LabelMarkdown(ls[0]) + LabelsMarkdown(ls[1..])
  }

  lemma {:induction false} ConcatIsLabelsMarkdown(ns: seq<TreeNode>, ls: seq<Label>)
    requires |ns| == |ls| && forall k :: 0 <= k < |ns| ==> ls[k] == LabelOf(ns[k])
    ensures Concat(ns) == LabelsMarkdown(ls)
  {
    if ns != [] {
      forall k | 0 <= k < |ns| - 1 ensures ls[1..][k] == LabelOf(ns[1..][k]) {
        assert ls[1..][k] == ls[k + 1] && ns[1..][k] == ns[k + 1];
      }
      ConcatIsLabelsMarkdown(ns[1..], ls[1..]);
      assert NodeMarkdown(ns[0]) == LabelMarkdown(ls[0]);
    }
  }

  /** The text of a forest depends only on its labels, in pre-order. */
  lemma WrittenFromLabels(f: seq<TreeNode>)
    ensures ForestMarkdown(f) == LabelsMarkdown(Labels(f))
  {
    ForestMarkdownPreOrder(f);
    NodesAreLabelsAndIds(f);
    ConcatIsLabelsMarkdown(Nodes(f), Labels(f));
  }

  /** The lines of one section's text; the last is the empty line before the next header. */
  function Block(l: Label): (r: seq<string>)
    ensures |r| >= 2 && r[0] == HeaderLine(l) && r[1] == [] && r[|r| - 1] == []
  {
    [HeaderLine(l), ""] + (if Trim(l.content) != [] then Split(l.content, '\n') + [""] else [])
  }

  /** The lines of the text of `ls`, before the final trim. */
  function Lines(ls: seq<Label>): seq<string> {
    if ls == [] then [] else Block(ls[0]) + Lines(ls[1..])
  }

  lemma {:induction false} JoinConcat(a: seq<string>, b: seq<string>, sep: string)
    requires a != [] && b != []
    ensures Join(a + b, sep) == Join(a, sep) + sep + Join(b, sep)
  {
    if |a| == 1 {
      assert a + b == [a[0]] + b;
      JoinCons(a[0], b, sep);
    } else {
      assert a + b == [a[0]] + (a[1..] + b);
      JoinCons(a[0], a[1..] + b, sep);
      JoinConcat(a[1..], b, sep);
      JoinCons(a[0], a[1..], sep);
    }
  }

  lemma BlockJoin(l: Label)
    ensures Join(Block(l), "\n") + "\n" == LabelMarkdown(l)
  {
    var h: seq<string> := [HeaderLine(l), ""];
    assert Join(h, "\n") == HeaderLine(l) + "\n" by { JoinCons(HeaderLine(l), [""], "\n"); }
    if Trim(l.content) != [] {
      var ps := Split(l.content, '\n');
      JoinSplit(l.content, '\n');
      JoinConcat(h, ps, "\n");
      JoinAppend(h + ps, "", "\n");
      assert Block(l) == h + ps + [""];
    }
  }

  /** The untrimmed text is the lines joined by `\n`, with one more line break at the end. */
  lemma {:induction false} LinesJoin(ls: seq<Label>)
    ensures Join(Lines(ls) + [""], "\n") == LabelsMarkdown(ls)
  {
    if ls != [] {
      LinesJoin(ls[1..]);
      assert Lines(ls) + [""] == Block(ls[0]) + (Lines(ls[1..]) + [""]);
      JoinConcat(Block(ls[0]), Lines(ls[1..]) + [""], "\n");
      BlockJoin(ls[0]);
    }
  }

  lemma {:induction false} LinesAppend(a: seq<Label>, b: seq<Label>)
    ensures Lines(a + b) == Lines(a) + Lines(b)
  {
    if a == [] {
      assert a + b == b;
    } else {
      assert (a + b)[0] == a[0] && (a + b)[1..] == a[1..] + b;
      LinesAppend(a[1..], b);
    }
  }

  // ------------------------------------------------------- readable sections

  /**
   * A section whose text the parser reads back as it was: a level of 1 to 6,
   * a non-empty title without surrounding whitespace or line breaks, trimmed
   * content, and no content line that the parser would take for a header.
   */
  predicate Writable(l: Label) {
    1 <= l.level <= 6 && l.title != [] && IsTrimmed(l.title) && AllJsDot(l.title) &&
    IsTrimmed(l.content) &&
    forall k :: 0 <= k < |Split(l.content, '\n')| ==> !IsHeaderLine(Split(l.content, '\n')[k])
  }

  predicate AllWritable(ls: seq<Label>) {
    forall j :: 0 <= j < |ls| ==> Writable(ls[j])
  }

  /** A written header line is an explicit header with the section's level and title. */
  lemma HeaderLineClassified(l: Label)
    requires 1 <= l.level <= 6 && l.title != [] && IsTrimmed(l.title) && AllJsDot(l.title)
    ensures ClassifyLine(HeaderLine(l)) == Some(Heading(l.level, l.title))
  {
    var line := HeaderLine(l);
    var n := l.level;
    assert line[n..n + 1] == " " && line[n + 1..] == l.title;
    assert ExplicitMatch(line, n, n + 1);
    TrimOfTrimmed(l.title);
  }

  function Shift(s: seq<nat>, d: nat): (r: seq<nat>)
    ensures |r| == |s| && forall i :: 0 <= i < |s| ==> r[i] == s[i] + d
  {
    seq(|s|, i requires 0 <= i < |s| => s[i] + d)
  }

  /** The line index at which each section's header is written. */
  function Starts(ls: seq<Label>): (r: seq<nat>)
    ensures |r| == |ls|
  {
    if ls == [] then [] else [0] + Shift(Starts(ls[1..]), |Block(ls[0])|)
  }

  lemma {:induction false} ClassifyAppend(a: seq<string>, b: seq<string>)
    ensures Classify(a + b) == Classify(a) + Classify(b)
  {
    if a == [] {
      assert a + b == b;
    } else {
      assert (a + b)[0] == a[0] && (a + b)[1..] == a[1..] + b;
      ClassifyAppend(a[1..], b);
    }
  }

  lemma {:induction false} HeaderIndicesAppend(a: seq<Option<Heading>>, b: seq<Option<Heading>>)
    ensures HeaderIndices(a + b) == HeaderIndices(a) + Shift(HeaderIndices(b), |a|)
  {
    if b == [] {
      assert a + b == a;
    } else {
      var b' := b[..|b| - 1];
      assert (a + b)[..|a + b| - 1] == a + b';
      assert (a + b)[|a + b| - 1] == b[|b| - 1];
      HeaderIndicesAppend(a, b');
      var t: seq<nat> := if b[|b| - 1].Some? then [|b| - 1] else [];
      var t': seq<nat> := if b[|b| - 1].Some? then [|a + b| - 1] else [];
      if b[|b| - 1].Some? {
        ShiftOne(|b| - 1, |a|);
      } else {
        assert Shift(t, |a|) == [];
      }
      var x, y := Shift(HeaderIndices(b'), |a|), Shift(t, |a|);
      calc {
        HeaderIndices(a + b);
        { HeaderIndicesSnoc(a + b); }
        HeaderIndices(a + b') + t';
        HeaderIndices(a) + x + y;
        { Rebracket(HeaderIndices(a), x, y); }
        HeaderIndices(a) + (x + y);
        { ShiftAppend(HeaderIndices(b'), t, |a|); }
        HeaderIndices(a) + Shift(HeaderIndices(b') + t, |a|);
        { HeaderIndicesSnoc(b); }
        HeaderIndices(a) + Shift(HeaderIndices(b), |a|);
      }
    }
  }

  /** The header indices of a classification, one line at a time from the end. */
  lemma HeaderIndicesSnoc(c: seq<Option<Heading>>)
    requires c != []
    ensures HeaderIndices(c) ==
      HeaderIndices(c[..|c| - 1]) + (if c[|c| - 1].Some? then [|c| - 1] else [])
  {
  }

  lemma ShiftOne(x: nat, d: nat)
    ensures Shift([x], d) == [x + d]
  {
  }

  lemma ShiftAppend(x: seq<nat>, y: seq<nat>, d: nat)
    ensures Shift(x + y, d) == Shift(x, d) + Shift(y, d)
  {
  }

  /** Only the first line of a block is a header. */
  lemma BlockClassified(l: Label)
    requires Writable(l)
    ensures Classify(Block(l))[0] == Some(Heading(l.level, l.title))
    ensures forall k :: 1 <= k < |Block(l)| ==> Classify(Block(l))[k].None?
  {
    var b := Block(l);
    HeaderLineClassified(l);
    ClassifyAt(b, 0);
    forall k | 1 <= k < |b| ensures Classify(b)[k].None? {
      ClassifyAt(b, k);
      if Trim(l.content) != [] && 2 <= k < |b| - 1 {
        assert b[k] == Split(l.content, '\n')[k - 2];
      } else {
        BlankLineIsNotHeader(b[k]);
      }
    }
  }

  lemma BlockHeaders(l: Label)
    requires Writable(l)
    ensures HeaderIndices(Classify(Block(l))) == [0]
  {
    BlockClassified(l);
    OnlyFirstHeader(Classify(Block(l)));
  }

  /** A classification whose only header is its first line lists just that line. */
  lemma {:induction false} OnlyFirstHeader(c: seq<Option<Heading>>)
    requires c != [] && c[0].Some? && forall k :: 1 <= k < |c| ==> c[k].None?
    ensures HeaderIndices(c) == [0]
  {
    var init := c[..|c| - 1];
    if |c| == 1 {
      assert init == [];
    } else {
      assert init[0] == c[0];
      forall k | 1 <= k < |init| ensures init[k].None? {
        assert init[k] == c[k];
      }
      OnlyFirstHeader(init);
    }
  }

  /** The header lines of the written text are exactly the block starts. */
  lemma {:induction false} LinesHeaders(ls: seq<Label>)
    requires AllWritable(ls)
    ensures HeaderIndices(Classify(Lines(ls))) == Starts(ls)
  {
    if ls != [] {
      LinesHeaders(ls[1..]);
      BlockHeaders(ls[0]);
      ClassifyAppend(Block(ls[0]), Lines(ls[1..]));
      HeaderIndicesAppend(Classify(Block(ls[0])), Classify(Lines(ls[1..])));
    }
  }

  /** Block `j` starts where the blocks before it end. */
  lemma {:induction false} StartsAt(ls: seq<Label>, j: nat)
    requires j < |ls|
    ensures Starts(ls)[j] == |Lines(ls[..j])|
  {
    if j > 0 {
      StartsAt(ls[1..], j - 1);
      assert ls[..j][0] == ls[0] && ls[..j][1..] == ls[1..][..j - 1];
    }
  }

  /** The lines around block `j`. */
  lemma LinesAround(ls: seq<Label>, j: nat)
    requires j < |ls|
    ensures Lines(ls) == Lines(ls[..j]) + Block(ls[j]) + Lines(ls[j + 1..])
  {
    var pre, rest := ls[..j], ls[j..];
    assert ls == pre + rest;
    LinesAppend(pre, rest);
    assert rest[0] == ls[j] && rest[1..] == ls[j + 1..];
    assert Lines(rest) == Block(ls[j]) + Lines(ls[j + 1..]);
    Rebracket(Lines(pre), Block(ls[j]), Lines(ls[j + 1..]));
  }

  lemma Rebracket<T>(a: seq<T>, b: seq<T>, c: seq<T>)
    ensures a + (b + c) == a + b + c
  {
  }

  // ------------------------------------------------------- the trimmed text

  /** The lines of the trimmed text: all but the last empty line. */
  function TextLines(ls: seq<Label>): seq<string>
    requires ls != []
  {
    var all := Lines(ls);
    assert all == Block(ls[0]) + Lines(ls[1..]);
    all[..|all| - 1]
  }

  lemma TextLinesLast(ls: seq<Label>)
    requires ls != []
    ensures var n := |ls| - 1; var b := Block(ls[n]);
      Lines(ls) == TextLines(ls) + [""] &&
      TextLines(ls) == Lines(ls[..n]) + b[..|b| - 1]
  {
    var n := |ls| - 1;
    LinesAround(ls, n);
    assert Lines(ls[n + 1..]) == [] by {
      assert ls[n + 1..] == [];
    }
    DropLastLine(Lines(ls), Lines(ls[..n]), Block(ls[n]), Lines(ls[n + 1..]));
  }

  lemma DropLastLine(all: seq<string>, pre: seq<string>, b: seq<string>, rest: seq<string>)
    requires all == pre + b + rest && rest == [] && |b| >= 2 && b[|b| - 1] == ""
    ensures all == all[..|all| - 1] + [""] && all[..|all| - 1] == pre + b[..|b| - 1]
  {
  }

  lemma {:induction false} JoinLast(ps: seq<string>, sep: string)
    requires ps != []
    ensures |Join(ps, sep)| >= |ps[|ps| - 1]|
    ensures Join(ps, sep)[|Join(ps, sep)| - |ps[|ps| - 1]|..] == ps[|ps| - 1]
  {
    if |ps| > 1 {
      var init := ps[..|ps| - 1];
      assert ps == init + [ps[|ps| - 1]];
      JoinAppend(init, ps[|ps| - 1], sep);
    }
  }

  lemma JoinFirst(ps: seq<string>, sep: string)
    requires ps != [] && ps[0] != []
    ensures Join(ps, sep) != [] && Join(ps, sep)[0] == ps[0][0]
  {
    if |ps| > 1 {
      JoinCons(ps[0], ps[1..], sep);
      assert [ps[0]] + ps[1..] == ps;
    }
  }

  /** The last piece of a split ends with the text's last character, unless that is the separator. */
  lemma {:induction false} SplitLast(s: string, d: char)
    requires s != [] && s[|s| - 1] != d
    ensures var r := Split(s, d); var p := r[|r| - 1]; p != [] && p[|p| - 1] == s[|s| - 1]
  {
    var rest := Split(s[1..], d);
    if s[1..] != [] {
      assert s[1..][|s[1..]| - 1] == s[|s| - 1];
      SplitLast(s[1..], d);
    }
  }

  /** The last line of the trimmed text does not end in whitespace. */
  lemma LastTextLine(ls: seq<Label>)
    requires ls != [] && Writable(ls[|ls| - 1])
    ensures var t := TextLines(ls); t != [] && var last := t[|t| - 1]; last != [] && !IsSpace(last[|last| - 1])
  {
    var n := |ls| - 1;
    TextLinesLast(ls);
    LastBlockLine(ls[n]);
    LastOfPrefix(TextLines(ls), Lines(ls[..n]), Block(ls[n]));
  }

  lemma LastOfPrefix(t: seq<string>, pre: seq<string>, b: seq<string>)
    requires |b| >= 2 && t == pre + b[..|b| - 1]
    requires var last := b[|b| - 2]; last != [] && !IsSpace(last[|last| - 1])
    ensures t != [] && var last := t[|t| - 1]; last != [] && !IsSpace(last[|last| - 1])
  {
    assert t[|t| - 1] == b[|b| - 2];
  }

  lemma LastBlockLine(l: Label)
    requires Writable(l)
    ensures var b := Block(l); var last := b[|b| - 2]; last != [] && !IsSpace(last[|last| - 1])
  {
    var b := Block(l);
    if Trim(l.content) != [] {
      var ps := Split(l.content, '\n');
      TrimOfTrimmed(l.content);
      SplitLast(l.content, '\n');
      SecondLast([HeaderLine(l), ""], ps, "", b);
    } else {
      assert b == [HeaderLine(l), ""];
    }
  }

  lemma SecondLast<T>(x: seq<T>, ps: seq<T>, y: T, b: seq<T>)
    requires ps != [] && b == x + ps + [y]
    ensures |b| >= 2 && b[|b| - 2] == ps[|ps| - 1]
  {
  }

  /** The first line of the trimmed text is the first header line. */
  lemma FirstTextLine(ls: seq<Label>)
    requires ls != [] && Writable(ls[0])
    ensures var t := TextLines(ls); t != [] && t[0] != [] && t[0][0] == '#'
  {
    assert Lines(ls) == Block(ls[0]) + Lines(ls[1..]);
    assert HeaderLine(ls[0])[0] == '#';
  }

  /** The trimmed text starts with `#` and ends with a character that is not whitespace. */
  lemma TextLinesTrimmed(ls: seq<Label>, sep: string)
    requires ls != [] && Writable(ls[0]) && Writable(ls[|ls| - 1])
    ensures IsTrimmed(Join(TextLines(ls), sep))
  {
    FirstTextLine(ls);
    LastTextLine(ls);
    TrimmedEnds(TextLines(ls), sep);
  }

  /** Lines starting with `#` and ending in a character that is not whitespace join to trimmed text. */
  lemma TrimmedEnds(t: seq<string>, sep: string)
    requires t != [] && t[0] != [] && t[0][0] == '#'
    requires var last := t[|t| - 1]; last != [] && !IsSpace(last[|last| - 1])
    ensures IsTrimmed(Join(t, sep))
  {
    JoinFirst(t, sep);
    JoinLast(t, sep);
  }

  /** The text `treeToMarkdown` returns for sections `ls`, and the lines the parser splits it into. */
  lemma WrittenText(ls: seq<Label>)
    requires ls != [] && AllWritable(ls)
    ensures Trim(LabelsMarkdown(ls)) == Join(TextLines(ls), "\n")
    ensures Split(Trim(LabelsMarkdown(ls)), '\n') == TextLines(ls)
  {
    var t := TextLines(ls);
    TextLinesLast(ls);
    LinesJoin(ls);
    assert Writable(ls[0]) && Writable(ls[|ls| - 1]);
    TextLinesTrimmed(ls, "\n");
    TextLinesNoBreak(ls);
    TrimmedJoin(t, LabelsMarkdown(ls));
  }

  /** Trimming two trailing empty lines off trimmed lines, and splitting the result again. */
  lemma TrimmedJoin(t: seq<string>, m: string)
    requires t != [] && m == Join(t + [""] + [""], "\n") && IsTrimmed(Join(t, "\n"))
    requires forall k :: 0 <= k < |t| ==> NoChar(t[k], '\n')
    ensures Trim(m) == Join(t, "\n") && Split(Trim(m), '\n') == t
  {
    var text := Join(t, "\n");
    JoinAppend(t, "", "\n");
    JoinAppend(t + [""], "", "\n");
    assert Join(t + [""], "\n") == text + "\n";
    assert m == (text + "\n") + "\n";
    TrimTwoBreaks(text);
    SplitJoin(t, '\n');
  }

  lemma TrimTwoBreaks(text: string)
    requires IsTrimmed(text)
    ensures Trim((text + "\n") + "\n") == text
  {
    TrimPadded([], text, "\n\n");
    assert [] + text + "\n\n" == (text + "\n") + "\n";
  }

  lemma TextLinesNoBreak(ls: seq<Label>)
    requires ls != [] && AllWritable(ls)
    ensures forall k :: 0 <= k < |TextLines(ls)| ==> NoChar(TextLines(ls)[k], '\n')
  {
    var all := Lines(ls);
    LinesNoBreak(ls);
    forall k | 0 <= k < |TextLines(ls)| ensures NoChar(TextLines(ls)[k], '\n') {
      assert TextLines(ls)[k] == all[k];
    }
  }

  lemma {:induction false} LinesNoBreak(ls: seq<Label>)
    requires AllWritable(ls)
    ensures forall k :: 0 <= k < |Lines(ls)| ==> NoChar(Lines(ls)[k], '\n')
  {
    if ls != [] {
      LinesNoBreak(ls[1..]);
      assert Writable(ls[0]);
      BlockNoBreak(ls[0]);
      NoBreakAppend(Block(ls[0]), Lines(ls[1..]), Lines(ls));
    }
  }

  /** No line of a writable section's block holds a line break. */
  lemma BlockNoBreak(l: Label)
    requires Writable(l)
    ensures forall k :: 0 <= k < |Block(l)| ==> NoChar(Block(l)[k], '\n')
  {
    var b := Block(l);
    forall k | 0 <= k < |b| ensures NoChar(b[k], '\n') {
      if k == 0 {
        assert b[0] == Hashes(l.level) + " " + l.title;
      } else if Trim(l.content) != [] && 2 <= k < |b| - 1 {
        assert b[k] == Split(l.content, '\n')[k - 2];
      }
    }
  }

  lemma NoBreakAppend(b: seq<string>, rest: seq<string>, all: seq<string>)
    requires all == b + rest
    requires forall k :: 0 <= k < |b| ==> NoChar(b[k], '\n')
    requires forall k :: 0 <= k < |rest| ==> NoChar(rest[k], '\n')
    ensures forall k :: 0 <= k < |all| ==> NoChar(all[k], '\n')
  {
    forall k | 0 <= k < |all| ensures NoChar(all[k], '\n') {
      if k >= |b| { assert all[k] == rest[k - |b|]; }
      else { assert all[k] == b[k]; }
    }
  }

  // ------------------------------------------------------- reading it back

  /** The sections `parseMarkdownToTree` is expected to find: the same labels, numbered `section-j`. */
  function Renumbered(ls: seq<Label>): (r: seq<Label>)
    ensures |r| == |ls|
  {
    seq(|ls|, j requires 0 <= j < |ls| => Label(SectionId(j), ls[j].title, ls[j].level, ls[j].content))
  }

  /** A block's body lines, trimmed and joined, are the section's content, with or without the last empty line. */
  lemma BlockContent(l: Label)
    requires Writable(l)
    ensures var b := Block(l);
      Trim(Join(b[1..], "\n")) == l.content && Trim(Join(b[1..|b| - 1], "\n")) == l.content
  {
    var b := Block(l);
    if Trim(l.content) != [] {
      TrimOfTrimmed(l.content);
      var ps := Split(l.content, '\n');
      assert b[1..] == [""] + ps + [""];
      assert b[1..|b| - 1] == [""] + ps;
      PaddedContent(l.content);
    } else {
      TrimOfTrimmed(l.content);
      assert b[1..] == [""] && b[1..|b| - 1] == [];
    }
  }

  /** Trimmed content between empty lines reads back as itself. */
  lemma PaddedContent(c: string)
    requires IsTrimmed(c) && c != []
    ensures var ps := Split(c, '\n');
      Trim(Join([""] + ps + [""], "\n")) == c && Trim(Join([""] + ps, "\n")) == c
  {
    var ps := Split(c, '\n');
    JoinSplit(c, '\n');
    JoinCons("", ps, "\n");
    JoinAppend([""] + ps, "", "\n");
    TrimPadded("\n", c, "\n");
    TrimPadded("\n", c, []);
    assert "\n" + c + [] == "" + "\n" + Join(ps, "\n");
    assert "\n" + c + "\n" == Join([""] + ps, "\n") + "\n" + "";
  }

  /** The header indices of the trimmed text's lines are the block starts. */
  lemma TextHeaders(ls: seq<Label>)
    requires ls != [] && AllWritable(ls)
    ensures |Classify(TextLines(ls))| == |TextLines(ls)|
    ensures HeaderIndices(Classify(TextLines(ls))) == Starts(ls)
  {
    var t := TextLines(ls);
    TextLinesLast(ls);
    LinesHeaders(ls);
    ClassifyAppend(t, [""]);
    var heads := Classify(t + [""]);
    assert heads[..|heads| - 1] == Classify(t);
    BlankLineIsNotHeader("");
    assert Classify([""]) == [ClassifyLine("")];
  }

  /** Consecutive blocks: block `j + 1` starts right after block `j`. */
  lemma {:induction false} StartsNext(ls: seq<Label>, j: nat)
    requires j + 1 < |ls|
    ensures Starts(ls)[j + 1] == Starts(ls)[j] + |Block(ls[j])|
  {
    if j > 0 {
      StartsNext(ls[1..], j - 1);
      assert ls[1..][j - 1] == ls[j];
    }
  }

  /** Block `j` lies among the untrimmed lines at its start. */
  lemma BlockInLines(ls: seq<Label>, j: nat)
    requires j < |ls|
    ensures var s := Starts(ls)[j]; var b := Block(ls[j]); var all := Lines(ls);
      s + |b| <= |all| && all == all[..s] + b + Lines(ls[j + 1..])
  {
    StartsAt(ls, j);
    LinesAround(ls, j);
    PrefixOf(Lines(ls), Lines(ls[..j]), Block(ls[j]), Lines(ls[j + 1..]));
  }

  lemma PrefixOf<T>(all: seq<T>, pre: seq<T>, b: seq<T>, post: seq<T>)
    requires all == pre + b + post
    ensures |pre| + |b| <= |all| && all[..|pre|] == pre
  {
  }

  /** Where block `j` lies among the lines of the trimmed text. */
  lemma TextBlockAt(ls: seq<Label>, j: nat)
    requires ls != [] && j < |ls|
    ensures var t := TextLines(ls); var s := Starts(ls)[j]; var b := Block(ls[j]);
      s < |t| && t[s] == b[0] &&
      (j + 1 < |ls| ==> s + |b| <= |t| && t[s + 1..s + |b|] == b[1..]) &&
      (j + 1 == |ls| ==> t[s + 1..] == b[1..|b| - 1])
  {
    if j + 1 < |ls| {
      InnerBlockAt(ls, j);
    } else {
      LastBlockAt(ls, j);
    }
  }

  lemma InnerBlockAt(ls: seq<Label>, j: nat)
    requires j + 1 < |ls|
    ensures var t := TextLines(ls); var s := Starts(ls)[j]; var b := Block(ls[j]);
      s + |b| <= |t| && t[s] == b[0] && t[s + 1..s + |b|] == b[1..]
  {
    var all := Lines(ls);
    var s := Starts(ls)[j];
    var b := Block(ls[j]);
    BlockInLines(ls, j);
    LinesNonEmpty(ls[j + 1..]);
    SliceInside(all[..s], b, Lines(ls[j + 1..]), TextLines(ls), all);
  }

  lemma LinesNonEmpty(ls: seq<Label>)
    requires ls != []
    ensures |Lines(ls)| >= 2
  {
    assert Lines(ls) == Block(ls[0]) + Lines(ls[1..]);
  }

  lemma LastBlockAt(ls: seq<Label>, j: nat)
    requires j + 1 == |ls|
    ensures var t := TextLines(ls); var s := Starts(ls)[j]; var b := Block(ls[j]);
      s < |t| && t[s] == b[0] && t[s + 1..] == b[1..|b| - 1]
  {
    var all := Lines(ls);
    var s := Starts(ls)[j];
    var b := Block(ls[j]);
    BlockInLines(ls, j);
    assert ls[j + 1..] == [];
    assert all == all[..s] + b;
    SliceLast(all[..s], b, TextLines(ls));
  }

  /** The header of section `j` in the trimmed text. */
  lemma TextHeaderAt(ls: seq<Label>, j: nat)
    requires ls != [] && AllWritable(ls) && j < |ls|
    ensures Starts(ls)[j] < |TextLines(ls)|
    ensures ClassifyLine(TextLines(ls)[Starts(ls)[j]]) == Some(Heading(ls[j].level, ls[j].title))
  {
    var l := ls[j];
    assert Writable(l);
    TextBlockAt(ls, j);
    HeaderLineClassified(l);
  }

  /** The content the parser gives section `j` of the trimmed text. */
  lemma TextContentAt(ls: seq<Label>, j: nat)
    requires ls != [] && AllWritable(ls) && j < |ls|
    ensures var t := TextLines(ls); var s := Starts(ls)[j];
      var e := if j + 1 < |ls| then Starts(ls)[j + 1] else |t|;
      s < e <= |t| && Trim(Join(t[s + 1..e], "\n")) == ls[j].content
  {
    assert Writable(ls[j]);
    if j + 1 < |ls| {
      InnerContentAt(ls, j);
    } else {
      LastContentAt(ls, j);
    }
  }

  lemma InnerContentAt(ls: seq<Label>, j: nat)
    requires j + 1 < |ls| && Writable(ls[j])
    ensures var t := TextLines(ls); var s := Starts(ls)[j]; var e := Starts(ls)[j + 1];
      s < e <= |t| && Trim(Join(t[s + 1..e], "\n")) == ls[j].content
  {
    InnerBlockAt(ls, j);
    StartsNext(ls, j);
    InnerBody(TextLines(ls), Starts(ls)[j], Starts(ls)[j + 1], ls[j], Block(ls[j]));
  }

  lemma LastContentAt(ls: seq<Label>, j: nat)
    requires j + 1 == |ls| && Writable(ls[j])
    ensures var t := TextLines(ls); var s := Starts(ls)[j];
      s < |t| && Trim(Join(t[s + 1..|t|], "\n")) == ls[j].content
  {
    LastBlockAt(ls, j);
    LastBody(TextLines(ls), Starts(ls)[j], ls[j], Block(ls[j]));
  }

  lemma InnerBody(t: seq<string>, s: nat, e: nat, l: Label, b: seq<string>)
    requires Writable(l) && b == Block(l) && e == s + |b| <= |t| && t[s + 1..e] == b[1..]
    ensures Trim(Join(t[s + 1..e], "\n")) == l.content
  {
    BlockContent(l);
  }

  lemma LastBody(t: seq<string>, s: nat, l: Label, b: seq<string>)
    requires Writable(l) && b == Block(l) && s < |t| && t[s + 1..] == b[1..|b| - 1]
    ensures Trim(Join(t[s + 1..|t|], "\n")) == l.content
  {
    BlockContent(l);
    assert t[s + 1..|t|] == t[s + 1..];
  }

  /** A section read at header `hs[j]` has that header's level and title and the trimmed body as content. */
  lemma SectionFromParts(t: seq<string>, hs: seq<nat>, ls: seq<Label>, j: nat, e: nat)
    requires hs == HeaderIndices(Classify(t)) && |hs| == |ls| && j < |ls| && hs[j] < e <= |t|
    requires e == if j + 1 < |ls| then hs[j + 1] else |t|
    requires ClassifyLine(t[hs[j]]) == Some(Heading(ls[j].level, ls[j].title))
    requires Trim(Join(t[hs[j] + 1..e], "\n")) == ls[j].content
    ensures |SectionsOf(t)| == |ls| && SectionLabels(SectionsOf(t))[j] == Renumbered(ls)[j]
  {
    var heads := Classify(t);
    assert e == BodyEnd(heads, hs, j);
    ClassifyAt(t, hs[j]);
    assert SectionsOf(t)[j] == SectionAt(t, heads, hs, j);
  }

  /** Section `j` of the trimmed text is section `j` of `ls`, renumbered. */
  lemma TextSectionAt(ls: seq<Label>, j: nat)
    requires ls != [] && AllWritable(ls) && j < |ls|
    ensures |SectionsOf(TextLines(ls))| == |ls|
    ensures SectionLabels(SectionsOf(TextLines(ls)))[j] == Renumbered(ls)[j]
  {
    var t := TextLines(ls);
    var hs := Starts(ls);
    TextHeaders(ls);
    TextHeaderAt(ls, j);
    TextContentAt(ls, j);
    SectionFromParts(t, hs, ls, j, if j + 1 < |ls| then hs[j + 1] else |t|);
  }

  lemma SliceInside(pre: seq<string>, b: seq<string>, post: seq<string>, t: seq<string>, all: seq<string>)
    requires |b| >= 2 && all == pre + b + post && t == all[..|all| - 1]
    requires |pre| + |b| <= |t|
    ensures t[|pre|] == b[0] && t[|pre| + 1..|pre| + |b|] == b[1..]
  {
    assert all[|pre|..|pre| + |b|] == b;
  }

  lemma SliceLast(pre: seq<string>, b: seq<string>, t: seq<string>)
    requires |b| >= 2 && t == pre + b[..|b| - 1]
    ensures t[|pre|] == b[0] && t[|pre| + 1..] == b[1..|b| - 1]
  {
  }

  /** The trimmed text of `ls` splits into exactly the sections of `ls`, renumbered. */
  lemma TextSections(ls: seq<Label>)
    requires ls != [] && AllWritable(ls)
    ensures SectionLabels(SectionsOf(TextLines(ls))) == Renumbered(ls)
  {
    TextSectionAt(ls, 0);
    forall j | 0 <= j < |ls| ensures SectionLabels(SectionsOf(TextLines(ls)))[j] == Renumbered(ls)[j] {
      TextSectionAt(ls, j);
    }
  }

  /**
   * `parseMarkdownToTree(treeToMarkdown(t))`: for a non-empty forest whose
   * sections are all writable, the parser finds exactly the forest's
   * sections in pre-order, with the same titles, levels and contents,
   * numbered `section-0, section-1, ...`, and nests them with its builder.
   */
  lemma ReadBack(f: seq<TreeNode>)
    requires f != [] && AllWritable(Labels(f))
    ensures ParsedTree(TreeMarkdown(f)) == Built(Renumbered(Labels(f)), true)
    ensures Labels(ParsedTree(TreeMarkdown(f))) == Renumbered(Labels(f))
  {
    var ls := Labels(f);
    WrittenFromLabels(f);
    WrittenText(ls);
    TextSections(ls);
    BuiltPreOrder(Renumbered(ls), true);
  }

  /**
   * Writing a built forest and parsing the text gives the same forest back,
   * section for section, up to the `section-j` numbering, when every
   * section is writable.
   */
  lemma ReparseRoundTrip(ss: seq<Label>)
    requires ss != [] && AllWritable(ss)
    ensures ParsedTree(TreeMarkdown(Built(ss, true))) == Built(Renumbered(ss), true)
  {
    BuiltPreOrder(ss, true);
    ReadBack(Built(ss, true));
  }

  /**
   * The re-parsed forest nests like the written one: where section `i` of
   * the built forest hangs under section `j`, node `i` of the re-parsed
   * forest hangs under `section-j`, and roots stay roots.
   */
  lemma ReparseNesting(ss: seq<Label>)
    requires ss != [] && AllWritable(ss)
    ensures var g := ParsedTree(TreeMarkdown(Built(ss, true)));
      |ParentRefs(Built(ss, true))| == |ss| && |ParentRefs(g)| == |ss| &&
      forall i :: 0 <= i < |ss| ==>
        var j := LastBelow(ss[..i], ss[i].level);
        ParentRefs(Built(ss, true))[i] == (if j < 0 then None else Some(ss[j].id)) &&
        ParentRefs(g)[i] == (if j < 0 then None else Some(SectionId(j)))
  {
    ReparseRoundTrip(ss);
    BuiltParentRefs(ss);
    RenumberedParentRefs(ss);
    BothNestings(ss, ParentRefs(Built(ss, true)), ParentRefs(Built(Renumbered(ss), true)));
  }

  lemma BothNestings(ss: seq<Label>, pa: seq<Option<string>>, pb: seq<Option<string>>)
    requires |pa| == |ss| && forall i :: 0 <= i < |ss| ==> pa[i] == ParentOf(ss[..i], ss[i].level)
    requires |pb| == |ss| && forall i :: 0 <= i < |ss| ==>
      var j := LastBelow(ss[..i], ss[i].level); pb[i] == if j < 0 then None else Some(SectionId(j))
    ensures forall i :: 0 <= i < |ss| ==>
      var j := LastBelow(ss[..i], ss[i].level);
      pa[i] == (if j < 0 then None else Some(ss[j].id)) && pb[i] == (if j < 0 then None else Some(SectionId(j)))
  {
    forall i | 0 <= i < |ss|
      ensures var j := LastBelow(ss[..i], ss[i].level); pa[i] == if j < 0 then None else Some(ss[j].id)
    {
      var j := LastBelow(ss[..i], ss[i].level);
      if j >= 0 {
        assert ss[..i][j] == ss[j];
      }
    }
  }

  /** The builder nests the renumbered sections by position, naming each parent `section-j`. */
  lemma RenumberedParentRefs(ss: seq<Label>)
    ensures |ParentRefs(Built(Renumbered(ss), true))| == |ss|
    ensures forall i :: 0 <= i < |ss| ==>
      var j := LastBelow(ss[..i], ss[i].level);
      ParentRefs(Built(Renumbered(ss), true))[i] == if j < 0 then None else Some(SectionId(j))
  {
    BuiltParentRefs(Renumbered(ss));
    forall i | 0 <= i < |ss|
      ensures var j := LastBelow(ss[..i], ss[i].level);
        ParentOf(Renumbered(ss)[..i], Renumbered(ss)[i].level) == if j < 0 then None else Some(SectionId(j))
    {
      RenumberedParent(ss, i);
    }
  }

  lemma RenumberedParent(ss: seq<Label>, i: nat)
    requires i < |ss|
    ensures var j := LastBelow(ss[..i], ss[i].level);
      ParentOf(Renumbered(ss)[..i], Renumbered(ss)[i].level) == if j < 0 then None else Some(SectionId(j))
  {
    var rs := Renumbered(ss);
    LastBelowLevels(rs[..i], ss[..i], ss[i].level);
    var j := LastBelow(ss[..i], ss[i].level);
    if j >= 0 {
      assert rs[..i][j] == rs[j];
    }
  }

  /** Where a section goes depends only on the levels before it. */
  lemma {:induction false} LastBelowLevels(a: seq<Label>, b: seq<Label>, level: int)
    requires |a| == |b| && forall k :: 0 <= k < |a| ==> a[k].level == b[k].level
    ensures LastBelow(a, level) == LastBelow(b, level)
  {
    if a != [] {
      LastBelowLevels(a[..|a| - 1], b[..|b| - 1], level);
    }
  }
}
