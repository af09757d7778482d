/**
 * The stripped-down client (client/src/App-minimal.tsx): `parseToTree`
 * cuts the extracted text into sections at its all-caps lines, and the
 * section list shows each section's title, word count and token estimate.
 */
module MinimalApp {
  import opened Strings

  /** `/^[A-Z\s]{5,50}$/.test(trimmed) && trimmed.length > 3` on a trimmed line. */
  predicate IsHeader(trimmed: string) {
    5 <= |trimmed| <= 50 && AllUpperOrSpace(trimmed) && |trimmed| > 3
  }

  /** The clipboard emoji and space put in front of a header. */
  const Marker: string := "\U{1F4CB} "

  /** The loop's variables: the sections pushed so far and `currentSection`. */
  datatype State = State(sections: seq<string>, current: string)

  /** One pass of the loop body over `line`. */
  function Step(st: State, line: string): State {
    var trimmed := Trim(line);
    if IsHeader(trimmed) then
      State(if st.current != [] then st.sections + [st.current] else st.sections, Marker + trimmed + "\n")
    else if trimmed != [] then State(st.sections, st.current + line + "\n")
    else st
  }

  /** The loop over the remaining `lines`. */
  function Run(st: State, lines: seq<string>): State
    decreases |lines|
  {
    if lines == [] then st else Run(Step(st, lines[0]), lines[1..])
  }

  /** The push after the loop. */
  function Finish(st: State): seq<string> {
    if st.current != [] then st.sections + [st.current] else st.sections
  }

  function Parse(text: string): seq<string> {
    Finish(Run(State([], []), Split(text, '\n')))
  }

  method ParseToTree(text: string) returns (sections: seq<string>)
    ensures sections == Parse(text)
  {
    var lines := Split(text, '\n');
    sections := [];
    var currentSection: string := [];
    for i := 0 to |lines|
      invariant Run(State(sections, currentSection), lines[i..]) == Run(State([], []), lines)
    {
      var line := lines[i];
      var trimmed := Trim(line);
      assert lines[i..][1..] == lines[i + 1..];
      if 5 <= |trimmed| <= 50 && AllUpperOrSpace(trimmed) && |trimmed| > 3 {
        if currentSection != [] {
          sections := sections + [currentSection];
        }
        currentSection := Marker + trimmed + "\n";
      } else if trimmed != [] {
        currentSection := currentSection + line + "\n";
      }
    }
    if currentSection != [] {
      sections := sections + [currentSection];
    }
  }

  // ------------------------------------------------------------ how many

  /** How many lines are headers once trimmed. */
  function Headers(lines: seq<string>): nat {
    if lines == [] then 0 else (if IsHeader(Trim(lines[0])) then 1 else 0) + Headers(lines[1..])
  }

  /** Some non-blank line comes before the first header (or there is no header and some non-blank line). */
  predicate LeadingText(lines: seq<string>) {
    lines != [] && !IsHeader(Trim(lines[0])) && (Trim(lines[0]) != [] || LeadingText(lines[1..]))
  }

  lemma {:induction false} RunCount(st: State, lines: seq<string>)
    ensures |Finish(Run(st, lines))| ==
      |st.sections| + Headers(lines) + (if st.current != [] || LeadingText(lines) then 1 else 0)
    decreases |lines|
  {
    if lines != [] {
      RunCount(Step(st, lines[0]), lines[1..]);
    }
  }

  /**
   * One section per header, and one more for the text before the first
   * header when there is any.
   */
  lemma SectionCount(text: string)
    ensures var lines := Split(text, '\n');
      |Parse(text)| == Headers(lines) + (if LeadingText(lines) then 1 else 0)
  {
    RunCount(State([], []), Split(text, '\n'));
  }

  // ------------------------------------------------------------ what text

  /** What a line contributes to the sections: a marked header, the line itself, or nothing. */
  function Rendered(line: string): string {
    var trimmed := Trim(line);
    if IsHeader(trimmed) then Marker + trimmed + "\n" else if trimmed != [] then line + "\n" else []
  }

  function RenderedAll(lines: seq<string>): string {
    if lines == [] then [] else Rendered(lines[0]) + RenderedAll(lines[1..])
  }

  function Concat(ss: seq<string>): string {
    if ss == [] then [] else Concat(ss[..|ss| - 1]) + ss[|ss| - 1]
  }

  lemma ConcatSnoc(ss: seq<string>, s: string)
    ensures Concat(ss + [s]) == Concat(ss) + s
  {
    assert (ss + [s])[..|ss|] == ss;
  }

  lemma StepText(st: State, line: string)
    ensures var next := Step(st, line);
      Concat(next.sections) + next.current == Concat(st.sections) + st.current + Rendered(line)
  {
    if IsHeader(Trim(line)) && st.current != [] {
      ConcatSnoc(st.sections, st.current);
    }
  }

  lemma Chain(x: string, y: string, a: string, b: string, c: string)
    requires x == y + c && y == a + b
    ensures x == a + (b + c)
  {
  }

  lemma {:induction false} RunText(st: State, lines: seq<string>)
    ensures Concat(Finish(Run(st, lines))) == Concat(st.sections) + st.current + RenderedAll(lines)
    decreases |lines|
  {
    if lines == [] {
      ConcatSnoc(st.sections, st.current);
    } else {
      var next := Step(st, lines[0]);
      RunText(next, lines[1..]);
      StepText(st, lines[0]);
      Chain(Concat(Finish(Run(st, lines))), Concat(next.sections) + next.current,
        Concat(st.sections) + st.current, Rendered(lines[0]), RenderedAll(lines[1..]));
    }
  }

  /**
   * Nothing is lost or reordered: the sections laid end to end are the
   * non-blank lines in order, each header marked and trimmed, every line
   * closed by a newline.
   */
  lemma SectionsKeepText(text: string)
    ensures Concat(Parse(text)) == RenderedAll(Split(text, '\n'))
  {
    RunText(State([], []), Split(text, '\n'));
  }

  // ------------------------------------------------------------ their shape

  /** Every section is non-empty, does not start with a newline and ends with one. */
  predicate WellFormed(section: string) {
    section != [] && section[0] != '\n' && section[|section| - 1] == '\n'
  }

  /** Every section after the first starts with the marker; so does the current one once a section is pushed. */
  predicate Marked(st: State) {
    (forall k :: 0 <= k < |st.sections| ==> WellFormed(st.sections[k])) &&
    (st.current == [] || WellFormed(st.current)) &&
    (forall k :: 0 < k < |st.sections| ==> StartsWith(st.sections[k], Marker)) &&
    (st.sections != [] ==> StartsWith(st.current, Marker))
  }

  lemma StepMarked(st: State, line: string)
    requires Marked(st) && NoChar(line, '\n')
    ensures Marked(Step(st, line))
  {
    var trimmed := Trim(line);
    if IsHeader(trimmed) {
      var h := Marker + trimmed + "\n";
      assert h[0] == '\U{1F4CB}' && h[|h| - 1] == '\n';
      assert h[..|Marker|] == Marker;
    } else if trimmed != [] {
      TrimEndKeepsStart(TrimStart(line));
      var c := st.current + line + "\n";
      assert c[|c| - 1] == '\n';
      if st.current == [] {
        assert c[0] == line[0];
      } else {
        assert c[0] == st.current[0];
        assert c[..|Marker|] == st.current[..|Marker|] by {
          if st.sections != [] {
            assert |Marker| <= |st.current|;
          }
        }
      }
    }
  }

  lemma {:induction false} RunMarked(st: State, lines: seq<string>)
    requires Marked(st) && forall k :: 0 <= k < |lines| ==> NoChar(lines[k], '\n')
    ensures Marked(Run(st, lines))
    decreases |lines|
  {
    if lines != [] {
      StepMarked(st, lines[0]);
      RunMarked(Step(st, lines[0]), lines[1..]);
    }
  }

  /**
   * Every section is well formed, and every one but the first starts with
   * the marker; only text before the first header can form a section
   * without it.
   */
  lemma SectionShape(text: string)
    ensures var r := Parse(text);
      (forall k :: 0 <= k < |r| ==> WellFormed(r[k])) &&
      (forall k :: 0 < k < |r| ==> StartsWith(r[k], Marker))
  {
    RunMarked(State([], []), Split(text, '\n'));
  }

  /** The lines before the first header. */
  function Leading(lines: seq<string>): seq<string> {
    if lines == [] || IsHeader(Trim(lines[0])) then [] else [lines[0]] + Leading(lines[1..])
  }

  lemma {:induction false} LeadingRendered(lines: seq<string>)
    ensures LeadingText(lines) <==> RenderedAll(Leading(lines)) != []
  {
    if lines != [] && !IsHeader(Trim(lines[0])) {
      LeadingRendered(lines[1..]);
      assert ([lines[0]] + Leading(lines[1..]))[1..] == Leading(lines[1..]);
    }
  }

  /** The loop only appends to the pushed sections. */
  lemma {:induction false} RunKeeps(st: State, lines: seq<string>)
    ensures var r := Finish(Run(st, lines)); |st.sections| <= |r| && r[..|st.sections|] == st.sections
    decreases |lines|
  {
    if lines == [] {
      assert (st.sections + [st.current])[..|st.sections|] == st.sections;
    } else {
      var next := Step(st, lines[0]);
      RunKeeps(next, lines[1..]);
      var r := Finish(Run(next, lines[1..]));
      assert r[..|st.sections|] == r[..|next.sections|][..|st.sections|];
      assert next.sections[..|st.sections|] == st.sections;
    }
  }

  lemma MarkedConcat(a: string, b: string)
    requires StartsWith(a, Marker)
    ensures StartsWith(a + b, Marker)
  {
    assert (a + b)[..|Marker|] == a[..|Marker|];
  }

  /** The first section finally pushed, from a state with nothing pushed yet. */
  predicate FirstOk(st: State, lines: seq<string>) {
    var c := st.current + RenderedAll(Leading(lines));
    var r := Finish(Run(st, lines));
    (c != [] ==> r != [] && r[0] == c) && (c == [] ==> r == [] || StartsWith(r[0], Marker))
  }

  lemma {:induction false} RunFirst(st: State, lines: seq<string>)
    requires st.sections == []
    ensures FirstOk(st, lines)
    decreases |lines|
  {
    if lines == [] {
      assert st.current + RenderedAll([]) == st.current;
    } else if IsHeader(Trim(lines[0])) {
      if st.current == [] {
        RunFirst(Step(st, lines[0]), lines[1..]);
      }
      FirstHeaderStep(st, lines);
    } else {
      RunFirst(Step(st, lines[0]), lines[1..]);
      FirstTextStep(st, lines);
    }
  }

  lemma FirstHeaderStep(st: State, lines: seq<string>)
    requires st.sections == [] && lines != [] && IsHeader(Trim(lines[0]))
    requires st.current == [] ==> FirstOk(Step(st, lines[0]), lines[1..])
    ensures FirstOk(st, lines)
  {
    var next := Step(st, lines[0]);
    assert st.current + RenderedAll(Leading(lines)) == st.current;
    if st.current != [] {
      RunKeeps(next, lines[1..]);
    } else {
      assert next.current[..|Marker|] == Marker;
      MarkedConcat(next.current, RenderedAll(Leading(lines[1..])));
    }
  }

  lemma FirstTextStep(st: State, lines: seq<string>)
    requires st.sections == [] && lines != [] && !IsHeader(Trim(lines[0]))
    requires FirstOk(Step(st, lines[0]), lines[1..])
    ensures FirstOk(st, lines)
  {
    var line, rest := lines[0], lines[1..];
    var next := Step(st, line);
    assert Leading(lines) == [line] + Leading(rest);
    assert ([line] + Leading(rest))[1..] == Leading(rest);
    assert next.current == st.current + Rendered(line);
    assert RenderedAll(Leading(lines)) == Rendered(line) + RenderedAll(Leading(rest));
    Assoc(st.current, Rendered(line), RenderedAll(Leading(rest)));
  }

  lemma Assoc(a: string, b: string, c: string)
    ensures a + (b + c) == (a + b) + c
  {
  }

  /**
   * Text before the first header forms the first section, exactly as those
   * lines render; without such text every section, the first included,
   * starts with the marker.
   */
  lemma FirstSection(text: string)
    ensures var lines := Split(text, '\n'); var r := Parse(text);
      (LeadingText(lines) ==> r != [] && r[0] == RenderedAll(Leading(lines))) &&
      (!LeadingText(lines) ==> forall k :: 0 <= k < |r| ==> StartsWith(r[k], Marker))
  {
    var lines := Split(text, '\n');
    RunFirst(State([], []), lines);
    LeadingRendered(lines);
    SectionShape(text);
    assert [] + RenderedAll(Leading(lines)) == RenderedAll(Leading(lines));
  }

  // ------------------------------------------------------------ the display

  /** `Math.ceil(wordCount / 4)`. */
  function TokenEstimate(wordCount: nat): (r: nat)
    ensures 4 * r >= wordCount && 4 * r < wordCount + 4
  {
    (wordCount + 3) / 4
  }

  /** What the list shows for one section. */
  datatype SectionView = SectionView(title: string, content: string, wordCount: nat, tokens: nat)

  /**
   * The first line as the title (`Section <index + 1>` when it is empty),
   * the other lines joined and trimmed as the content, its `' '`-separated
   * pieces as the word count and the ceiling of a quarter of them as tokens.
   */
  function View(section: string, index: nat): (v: SectionView)
    ensures v.wordCount >= 1 && 4 * v.tokens >= v.wordCount && 4 * v.tokens < v.wordCount + 4
    ensures IsTrimmed(v.content) && NoChar(v.title, '\n')
  {
    var lines := Split(section, '\n');
    var title := if lines[0] != [] then lines[0] else "Section " + NatToString(index + 1);
    assert NoChar(NatToString(index + 1), '\n');
    assert NoChar("Section " + NatToString(index + 1), '\n');
    var content := Trim(Join(lines[1..], "\n"));
    var wordCount := |Split(content, ' ')|;
    SectionView(title, content, wordCount, TokenEstimate(wordCount))
  }

  /** `markdown.split(' ').length`, the document's word count. */
  function DocumentWords(markdown: string): (n: nat)
    ensures n >= 1
  {
    |Split(markdown, ' ')|
  }

  /** A parsed section is never shown under the fallback title. */
  lemma TitleNeverFallsBack(section: string, index: nat)
    requires WellFormed(section)
    ensures View(section, index).title == Split(section, '\n')[0] && View(section, index).title != []
  {
  }

  /** A header section is shown under its marked, trimmed header. */
  lemma HeaderTitle(trimmed: string, rest: string, index: nat)
    requires NoChar(trimmed, '\n')
    ensures View(Marker + trimmed + "\n" + rest, index).title == Marker + trimmed
  {
    assert NoChar(Marker + trimmed, '\n') by {
      assert forall i :: |Marker| <= i < |Marker + trimmed| ==> (Marker + trimmed)[i] == trimmed[i - |Marker|];
    }
    assert Marker + trimmed + "\n" + rest == (Marker + trimmed) + ['\n'] + rest;
    SplitPrefix(Marker + trimmed, rest, '\n');
  }
}
