/**
 * The Python parser of parser-to-tree.py: `parse_markdown_to_tree` (the
 * banner skip, the line classifier with its page markers, the first pass
 * that collects sections) and the call of `build_tree_from_sections`, which
 * is the stack builder of `SectionTree` without back-references.
 */
module PyParser {
  import opened Strings
  import opened Tree
  import opened SectionTree
  import opened MarkdownParser

  /** What one line is to the first pass. */
  datatype LineKind = Header(heading: Heading) | PageMarker | Text

  // ------------------------------------------------------------ classifier

  /**
   * `re.match(r'^(#{1,6})\s+(.+)$', line)` with group 1 = `line[..n]` and
   * group 2 = `line[k..]`; Python's `.` is anything but a newline.
   */
  ghost predicate PyExplicitMatch(line: string, n: int, k: int) {
    1 <= n <= 6 && n < k < |line| &&
    (forall i :: 0 <= i < n ==> line[i] == '#') &&
    AllSpace(line[n..k]) && NoChar(line[k..], '\n')
  }

  /** The explicit header test without a search: one to six `#`, whitespace, then at least one more character. */
  function PyExplicitHeading(line: string): (r: Option<Heading>)
    ensures r.Some? ==> 1 <= r.value.level <= 6 && IsTrimmed(r.value.title)
  {
    var n := HashRun(line);
    if 1 <= n <= 6 && n + 1 < |line| && IsSpace(line[n]) then Some(Heading(n, Trim(line[n..]))) else None
  }

  /**
   * On a line without a newline (every line of a `split('\n')`), the test
   * holds exactly when the regular expression matches, and every match
   * gives the same level and, stripped, the same title.
   */
  lemma PyExplicitIff(line: string)
    requires NoChar(line, '\n')
    ensures PyExplicitHeading(line).Some? <==> exists n, k :: PyExplicitMatch(line, n, k)
    ensures forall n, k :: PyExplicitMatch(line, n, k) ==> PyExplicitHeading(line) == Some(Heading(n, Trim(line[k..])))
  {
    var n := HashRun(line);
    if 1 <= n <= 6 && n + 1 < |line| && IsSpace(line[n]) {
      assert PyExplicitMatch(line, n, n + 1);
    }
    forall n', k | PyExplicitMatch(line, n', k)
      ensures PyExplicitHeading(line) == Some(Heading(n', Trim(line[k..])))
    {
      PyMatchHeading(line, n', k);
    }
  }

  lemma PyMatchHeading(line: string, n: int, k: int)
    requires PyExplicitMatch(line, n, k)
    ensures PyExplicitHeading(line) == Some(Heading(n, Trim(line[k..])))
  {
    assert IsSpace(line[n]) by { assert line[n..k][0] == line[n]; }
    HashRunUnique(line, n);
    assert line[n..] == line[n..k] + line[k..];
    TrimStartSpaces(line[n..k], line[k..]);
  }

  predicate AllDigits(s: string) {
    forall i :: 0 <= i < |s| ==> IsDigit(s[i])
  }

  /** `^--- Page \d+ ---$`. */
  predicate IsPageMarker(t: string) {
    |t| >= 14 && t[..9] == "--- Page " && t[|t| - 4..] == " ---" && AllDigits(t[9..|t| - 4])
  }

  /** `^[A-Z\s]{3,50}$` (the extra `len > 2` test adds nothing). */
  predicate PyAllCapsRule(t: string) {
    AllUpperOrSpace(t) && 3 <= |t| <= 50
  }

  /** `^\*\*(.+)\*\*$`. */
  predicate PyBoldRule(t: string) {
    |t| >= 5 && t[..2] == "**" && t[|t| - 2..] == "**" && NoChar(t[2..|t| - 2], '\n')
  }

  /** `is_implicit_header`, on the stripped line; the Title-case rule is the same as the TypeScript one. */
  predicate PyImplicitRule(t: string) {
    PyAllCapsRule(t) || TitleCaseRule(t) || PyBoldRule(t) || IsPageMarker(t)
  }

  /** `rstrip(':')`: every trailing colon removed. */
  function RStripColons(t: string): (r: string)
    ensures |r| <= |t| && r == t[..|r|]
    ensures r == [] || r[|r| - 1] != ':'
    ensures forall i :: |r| <= i < |t| ==> t[i] == ':'
  {
    if t != [] && t[|t| - 1] == ':' then RStripColons(t[..|t| - 1]) else t
  }

  /**
   * The kind of a line: the explicit rule first, then the implicit rules on
   * the stripped line; a page marker is skipped, a line of `[A-Z\s]` only is
   * level 1, a bold line level 2 with the inner text, and the rest level 2
   * with the trailing colons stripped. Titles are stripped.
   */
  function ClassifyPyLine(line: string): (r: LineKind)
    ensures r.Header? ==> 1 <= r.heading.level <= 6 && IsTrimmed(r.heading.title)
  {
    var e := PyExplicitHeading(line);
    var t := Trim(line);
    if e.Some? then Header(e.value)
    else if !PyImplicitRule(t) then Text
    else if IsPageMarker(t) then PageMarker
    else if t != [] && AllUpperOrSpace(t) then Header(Heading(1, Trim(t)))
    else if PyBoldRule(t) then Header(Heading(2, Trim(t[2..|t| - 2])))
    else Header(Heading(2, Trim(RStripColons(t))))
  }

  /** A page marker, whatever whitespace surrounds it, is classified as one and never opens a section. */
  lemma PageMarkerSkipped(line: string)
    requires IsPageMarker(Trim(line))
    ensures ClassifyPyLine(line) == PageMarker
  {
    var t := Trim(line);
    TrimKeepsFirst(line);
    assert t[..9][0] == t[0];
  }

  lemma TrimKeepsFirst(s: string)
    ensures s != [] && !IsSpace(s[0]) ==> Trim(s) != [] && Trim(s)[0] == s[0]
  {
    if s != [] && !IsSpace(s[0]) {
      TrimStartOfNonSpace(s);
      TrimEndKeepsStart(s);
      TrimEndSplit(s);
    }
  }

  /** A blank line is plain text, which the first pass then drops. */
  lemma BlankLineIsText(line: string)
    requires AllSpace(line)
    ensures ClassifyPyLine(line) == Text && Trim(line) == []
  {
    TrimAllSpace(line);
    if line != [] {
      assert IsSpace(line[0]);
    }
  }

  /**
   * Any line of 3 to 79 `[A-Z\s]` characters that is no explicit header and reaches the
   * implicit branch is level 1, also when it is 51 to 79 characters long and
   * only the Title-case rule let it in.
   */
  lemma PyAllCapsIsLevelOne(line: string)
    requires PyExplicitHeading(line).None?
    requires var t := Trim(line); AllUpperOrSpace(t) && 3 <= |t| < 80
    ensures ClassifyPyLine(line) == Header(Heading(1, Trim(line)))
  {
    var t := Trim(line);
    TrimOfTrimmed(t);
    if 5 < |t| {
      assert TitleCasePattern(t) by {
        assert AllLetterOrSpace(t[1..]);
      }
    }
    assert !IsPageMarker(t) by {
      if |t| >= 14 { assert t[..9][0] == t[0]; }
    }
  }

  /**
   * On a Title-case line `rstrip(':')` removes the one colon the pattern
   * allows, so it agrees with the TypeScript parser's `replace(/:$/, '')`.
   */
  lemma ColonStripsAgree(t: string)
    requires TitleCasePattern(t) && IsTrimmed(t)
    ensures RStripColons(t) == DropTrailingColon(t)
  {
    if t[|t| - 1] == ':' {
      var u := t[..|t| - 1];
      assert !AllLetterOrSpace(t[1..]) by { assert t[1..][|t| - 2] == t[|t| - 1]; }
      var j :| 2 <= j < |t| && t[j] == ':' && AllLetterOrSpace(t[1..j]) && AllSpace(t[j + 1..]);
      LastInSpaces(t, j);
      assert t[1..j][|t| - 3] == t[|t| - 2];
      assert u[|u| - 1] != ':';
    }
  }

  lemma LastInSpaces(t: string, j: int)
    requires 0 <= j
    ensures j + 1 < |t| && AllSpace(t[j + 1..]) ==> IsSpace(t[|t| - 1])
  {
    if j + 1 < |t| && AllSpace(t[j + 1..]) {
      assert t[j + 1..][|t| - 2 - j] == t[|t| - 1];
    }
  }

  // ------------------------------------------------------ first pass: sections

  /** `'\n'.join(lines).strip()`. */
  function Finish(body: seq<string>): string {
    Trim(Join(body, "\n"))
  }

  /** `sections[-1]['content'] = ...`, done only when there is a section. */
  function PatchLast(sections: seq<Label>, content: string): (r: seq<Label>)
    ensures |r| == |sections|
  {
    if sections == [] then [] else sections[|sections| - 1 := sections[|sections| - 1].(content := content)]
  }

  /** The lists the loop keeps: the sections found and `current_content`. */
  datatype PyScanState = PyScanState(sections: seq<Label>, current: seq<string>)

  /**
   * One line of the loop: a header or page marker first stores the
   * collected lines as the last section's content; a header then opens a
   * section with empty content and clears the lines; any other line is
   * collected when it is not blank.
   */
  function PyStep(s: PyScanState, line: string): PyScanState {
    PyStepKind(s, ClassifyPyLine(line), line)
  }

  function PyStepKind(s: PyScanState, kind: LineKind, line: string): PyScanState {
    match kind
    case Header(h) =>
      PyScanState(PatchLast(s.sections, Finish(s.current)) + [Label(SectionId(|s.sections|), h.title, h.level, "")], [])
    case PageMarker => PyScanState(PatchLast(s.sections, Finish(s.current)), s.current)
    case Text => if Trim(line) != [] then PyScanState(s.sections, s.current + [line]) else s
  }

  function PyScan(lines: seq<string>): PyScanState {
    if lines == [] then PyScanState([], [])
    else PyStep(PyScan(lines[..|lines| - 1]), lines[|lines| - 1])
  }

  /** The sections after the loop and the final store of the collected lines. */
  function PySections(lines: seq<string>): seq<Label> {
    var s := PyScan(lines);
    if s.sections != [] && s.current != [] then PatchLast(s.sections, Finish(s.current)) else s.sections
  }

  /** The first loop of `parse_markdown_to_tree`. */
  method CollectSections(lines: seq<string>) returns (sections: seq<Label>)
    ensures sections == PySections(lines)
  {
    sections := [];
    var current: seq<string> := [];
    var sectionId: nat := 0;
    for i := 0 to |lines|
      invariant PyScanState(sections, current) == PyScan(lines[..i])
      invariant sectionId == |sections|
    {
      var line := lines[i];
      var kind := ClassifyPyLine(line);
      if kind.Header? || kind.PageMarker? {
        if |sections| > 0 {
          sections := sections[|sections| - 1 := sections[|sections| - 1].(content := Finish(current))];
        }
        if kind.Header? {
          sections := sections + [Label(SectionId(sectionId), kind.heading.title, kind.heading.level, "")];
          sectionId := sectionId + 1;
          current := [];
        }
      } else if Trim(line) != [] {
        current := current + [line];
      }
      ScanUnfold(lines, i);
    }
    assert lines[..|lines|] == lines;
    if |sections| > 0 && |current| > 0 {
      sections := sections[|sections| - 1 := sections[|sections| - 1].(content := Finish(current))];
    }
  }

  lemma ScanUnfold(lines: seq<string>, i: nat)
    requires i < |lines|
    ensures PyScan(lines[..i + 1]) == PyStepKind(PyScan(lines[..i]), ClassifyPyLine(lines[i]), lines[i])
  {
    assert lines[..i + 1][..i] == lines[..i];
  }

  // ------------------------------------------- what the first pass computes

  /** A header and the non-blank text lines that follow it up to the next header. */
  datatype Group = Group(heading: Heading, body: seq<string>)

  /** A line the first pass collects as content. */
  predicate IsBodyLine(line: string) {
    ClassifyPyLine(line).Text? && Trim(line) != []
  }

  /**
   * The grouping of the lines: every header opens a group, every body line
   * joins the open group, page markers and blank lines join nothing, and
   * body lines before the first header belong to no group.
   */
  function Groups(lines: seq<string>): seq<Group> {
    if lines == [] then []
    else
      var line := lines[|lines| - 1];
      GroupStep(Groups(lines[..|lines| - 1]), ClassifyPyLine(line), line)
  }

  function GroupStep(gs: seq<Group>, kind: LineKind, line: string): seq<Group> {
    match kind
    case Header(h) => gs + [Group(h, [])]
    case PageMarker => gs
    case Text =>
      if Trim(line) != [] && gs != [] then gs[|gs| - 1 := gs[|gs| - 1].(body := gs[|gs| - 1].body + [line])] else gs
  }

  /** The `k`-th section made from the `k`-th group. */
  function SectionOf(k: nat, g: Group): Label {
    Label(SectionId(k), g.heading.title, g.heading.level, Finish(g.body))
  }

  function Rendered(gs: seq<Group>): (r: seq<Label>)
    ensures |r| == |gs|
  {
    seq(|gs|, k requires 0 <= k < |gs| => SectionOf(k, gs[k]))
  }

  /** The headings of the header lines, in order. */
  function HeadingsOf(lines: seq<string>): seq<Heading> {
    if lines == [] then []
    else
      var hs := HeadingsOf(lines[..|lines| - 1]);
      var kind := ClassifyPyLine(lines[|lines| - 1]);
      if kind.Header? then hs + [kind.heading] else hs
  }

  /** The body lines, in order. */
  function BodyLines(lines: seq<string>): seq<string> {
    if lines == [] then []
    else
      var line := lines[|lines| - 1];
      BodyStep(BodyLines(lines[..|lines| - 1]), ClassifyPyLine(line), line)
  }

  function BodyStep(bs: seq<string>, kind: LineKind, line: string): seq<string> {
    if kind.Text? && Trim(line) != [] then bs + [line] else bs
  }

  function GroupHeadings(gs: seq<Group>): (r: seq<Heading>)
    ensures |r| == |gs|
  {
    seq(|gs|, k requires 0 <= k < |gs| => gs[k].heading)
  }

  /** All group bodies, one after the other. */
  function Flatten(gs: seq<Group>): seq<string> {
    if gs == [] then [] else Flatten(gs[..|gs| - 1]) + gs[|gs| - 1].body
  }

  /** The loop state tells the groups so far: storing the open lines gives their sections. */
  predicate Agrees(s: PyScanState, gs: seq<Group>) {
    (gs == [] ==> s.sections == []) &&
    (gs != [] ==> s.current == gs[|gs| - 1].body) &&
    PatchLast(s.sections, Finish(s.current)) == Rendered(gs) &&
    (s.current == [] ==> PatchLast(s.sections, "") == s.sections)
  }

  lemma FinishEmpty()
    ensures Finish([]) == ""
  {
    TrimAllSpace("");
  }

  lemma PatchTwice(sections: seq<Label>, a: string, b: string)
    ensures PatchLast(PatchLast(sections, a), b) == PatchLast(sections, b)
  {
  }

  lemma RenderedSnoc(gs: seq<Group>, g: Group)
    ensures Rendered(gs + [g]) == Rendered(gs) + [SectionOf(|gs|, g)]
  {
    var l, r := Rendered(gs + [g]), Rendered(gs) + [SectionOf(|gs|, g)];
    forall k | 0 <= k < |l| ensures l[k] == r[k] {
      if k < |gs| { assert (gs + [g])[k] == gs[k]; }
    }
  }

  lemma RenderedPatch(gs: seq<Group>, body: seq<string>)
    requires gs != []
    ensures PatchLast(Rendered(gs), Finish(body)) == Rendered(gs[|gs| - 1 := gs[|gs| - 1].(body := body)])
  {
    var gs' := gs[|gs| - 1 := gs[|gs| - 1].(body := body)];
    var l, r := PatchLast(Rendered(gs), Finish(body)), Rendered(gs');
    forall k | 0 <= k < |l| ensures l[k] == r[k] {
    }
  }

  lemma HeaderAgrees(s: PyScanState, gs: seq<Group>, h: Heading)
    requires Agrees(s, gs)
    ensures Agrees(PyScanState(PatchLast(s.sections, Finish(s.current)) + [Label(SectionId(|s.sections|), h.title, h.level, "")], []),
                   gs + [Group(h, [])])
  {
    FinishEmpty();
    RenderedSnoc(gs, Group(h, []));
  }

  lemma MarkerAgrees(s: PyScanState, gs: seq<Group>)
    requires Agrees(s, gs)
    ensures Agrees(PyScanState(PatchLast(s.sections, Finish(s.current)), s.current), gs)
  {
    PatchTwice(s.sections, Finish(s.current), Finish(s.current));
    FinishEmpty();
  }

  lemma TextAgrees(s: PyScanState, gs: seq<Group>, line: string)
    requires Agrees(s, gs) && gs != []
    ensures Agrees(PyScanState(s.sections, s.current + [line]), gs[|gs| - 1 := gs[|gs| - 1].(body := gs[|gs| - 1].body + [line])])
  {
    PatchTwice(s.sections, Finish(s.current), Finish(s.current + [line]));
    RenderedPatch(gs, s.current + [line]);
  }

  lemma {:induction false} ScanAgrees(lines: seq<string>)
    ensures Agrees(PyScan(lines), Groups(lines))
  {
    if lines != [] {
      var init := lines[..|lines| - 1];
      var line := lines[|lines| - 1];
      ScanAgrees(init);
      var s, gs := PyScan(init), Groups(init);
      match ClassifyPyLine(line)
      case Header(h) => HeaderAgrees(s, gs, h);
      case PageMarker => MarkerAgrees(s, gs);
      case Text =>
        if Trim(line) != [] && gs != [] {
          TextAgrees(s, gs, line);
        }
    }
  }

  /**
   * The sections are the groups: section `k` is `section-k` with the `k`-th
   * header's level and title and, as content, the stripped `\n`-join of the
   * non-blank text lines after that header up to the next one.
   */
  lemma SectionsAreGroups(lines: seq<string>)
    ensures PySections(lines) == Rendered(Groups(lines))
  {
    ScanAgrees(lines);
    FinishEmpty();
  }

  /** One group per header line, with that line's heading, so page markers never become sections. */
  lemma {:induction false} GroupsFollowHeaders(lines: seq<string>)
    ensures GroupHeadings(Groups(lines)) == HeadingsOf(lines)
  {
    if lines != [] {
      var init := lines[..|lines| - 1];
      GroupsFollowHeaders(init);
      var gs := Groups(init);
      var gs' := Groups(lines);
      var kind := ClassifyPyLine(lines[|lines| - 1]);
      if kind.Header? {
        assert GroupHeadings(gs') == GroupHeadings(gs) + [kind.heading];
      } else {
        assert GroupHeadings(gs') == GroupHeadings(gs);
      }
    }
  }

  /** Exactly the documents without a header line have no section. */
  lemma NoSectionsIffNoHeader(lines: seq<string>)
    ensures PySections(lines) == [] <==> HeadingsOf(lines) == []
  {
    SectionsAreGroups(lines);
    GroupsFollowHeaders(lines);
  }

  lemma FlattenPatch(gs: seq<Group>, line: string)
    requires gs != []
    ensures Flatten(gs[|gs| - 1 := gs[|gs| - 1].(body := gs[|gs| - 1].body + [line])]) == Flatten(gs) + [line]
  {
    var gs' := gs[|gs| - 1 := gs[|gs| - 1].(body := gs[|gs| - 1].body + [line])];
    assert gs'[..|gs'| - 1] == gs[..|gs| - 1];
  }

  lemma FlattenSnoc(gs: seq<Group>, g: Group)
    ensures Flatten(gs + [g]) == Flatten(gs) + g.body
  {
    assert (gs + [g])[..|gs|] == gs;
  }

  /**
   * When the text starts with a header, the group bodies together are
   * exactly its body lines in order: no collected line is lost, repeated or
   * moved, and no blank line, header or page marker is collected.
   */
  lemma {:induction false} BodiesAreBodyLines(lines: seq<string>)
    requires lines != [] && ClassifyPyLine(lines[0]).Header?
    ensures Flatten(Groups(lines)) == BodyLines(lines)
  {
    if |lines| == 1 {
      BodiesOfHeader(lines);
    } else {
      var init := lines[..|lines| - 1];
      assert init[0] == lines[0];
      BodiesAreBodyLines(init);
      assert Groups(init) != [] by {
        GroupsFollowHeaders(init);
        HeadingsNonEmpty(init);
      }
      BodiesStep(lines);
    }
  }

  lemma BodiesOfHeader(lines: seq<string>)
    requires |lines| == 1 && ClassifyPyLine(lines[0]).Header?
    ensures Flatten(Groups(lines)) == BodyLines(lines)
  {
    assert lines[..0] == [];
    assert Groups(lines) == [Group(ClassifyPyLine(lines[0]).heading, [])];
    assert Flatten(Groups(lines)) == Flatten([]) + [];
  }

  lemma BodiesStep(lines: seq<string>)
    requires lines != []
    requires var init := lines[..|lines| - 1]; Flatten(Groups(init)) == BodyLines(init) && Groups(init) != []
    ensures Flatten(Groups(lines)) == BodyLines(lines)
  {
    var line := lines[|lines| - 1];
    BodiesStepKind(Groups(lines[..|lines| - 1]), ClassifyPyLine(line), line);
  }

  lemma BodiesStepKind(gs: seq<Group>, kind: LineKind, line: string)
    requires gs != []
    ensures Flatten(GroupStep(gs, kind, line)) == BodyStep(Flatten(gs), kind, line)
  {
    match kind
    case Header(h) => FlattenSnoc(gs, Group(h, []));
    case PageMarker =>
    case Text =>
      if Trim(line) != [] {
        FlattenPatch(gs, line);
      }
  }

  lemma {:induction false} HeadingsNonEmpty(lines: seq<string>)
    requires lines != [] && ClassifyPyLine(lines[0]).Header?
    ensures HeadingsOf(lines) != []
  {
    if |lines| > 1 {
      assert lines[..|lines| - 1][0] == lines[0];
      HeadingsNonEmpty(lines[..|lines| - 1]);
    }
  }

  /**
   * Text before the first header is lost: with a header-free preamble in
   * front, a text that starts with a header yields the same sections.
   */
  lemma PreambleDropped(pre: seq<string>, rest: seq<string>)
    requires HeadingsOf(pre) == []
    requires rest != [] && ClassifyPyLine(rest[0]).Header?
    ensures PySections(pre + rest) == PySections(rest)
  {
    GroupsAfterPreamble(pre, rest);
    SectionsAreGroups(pre + rest);
    SectionsAreGroups(rest);
  }

  lemma {:induction false} GroupsAfterPreamble(pre: seq<string>, rest: seq<string>)
    requires HeadingsOf(pre) == []
    requires rest != [] && ClassifyPyLine(rest[0]).Header?
    ensures Groups(pre + rest) == Groups(rest)
    decreases |rest|
  {
    var init := rest[..|rest| - 1];
    var line := rest[|rest| - 1];
    SnocSplit(pre, rest);
    SnocSplit([], rest);
    GroupsSnoc(pre + init, line);
    GroupsSnoc(init, line);
    if |rest| == 1 {
      assert pre + init == pre && init == [];
      GroupsFollowHeaders(pre);
    } else {
      assert init[0] == rest[0];
      GroupsAfterPreamble(pre, init);
    }
  }

  lemma SnocSplit<T>(a: seq<T>, b: seq<T>)
    requires b != []
    ensures a + b == (a + b[..|b| - 1]) + [b[|b| - 1]]
  {
  }

  lemma GroupsSnoc(a: seq<string>, line: string)
    ensures Groups(a + [line]) == GroupStep(Groups(a), ClassifyPyLine(line), line)
  {
    assert (a + [line])[..|a|] == a;
  }

  // ------------------------------------------------------------- the tree

  /** `'=' * 50`, the line that ends a parser banner. */
  function Banner(): (r: string)
    ensures |r| == 50
  {
    Repeat('=', 50)
  }

  /** `s.find(t)`: the first position where `t` occurs in `s`, or `None` (Python's `-1`). */
  function Find(s: string, t: string): (r: Option<nat>)
    ensures r.Some? ==> OccursAt(s, t, r.value) && forall i :: 0 <= i < r.value ==> !OccursAt(s, t, i)
    ensures r.None? <==> !Contains(s, t)
    decreases |s|
  {
    if StartsWith(s, t) then
      assert OccursAt(s, t, 0);
      Some(0)
    else if s == [] then None
    else
      var r := Find(s[1..], t);
      assert forall i :: 1 <= i ==> (OccursAt(s, t, i) <==> OccursAt(s[1..], t, i - 1));
      if r.Some? then Some(r.value + 1) else None
  }

  /**
   * The text that is parsed: with a banner, everything before its first
   * occurrence and the 52 characters from its start on are dropped (all of
   * the text if fewer remain); without one, the whole text.
   */
  function AfterBanner(content: string): (r: string)
    ensures EndsWith(content, r)
    ensures Find(content, Banner()).None? ==> r == content
    ensures Find(content, Banner()).Some? ==>
      var i := Find(content, Banner()).value; |r| == if i + 52 <= |content| then |content| - i - 52 else 0
  {
    var i := Find(content, Banner());
    if i.None? then content
    else if i.value + 52 <= |content| then content[i.value + 52..]
    else []
  }

  /** The single node returned when no line is a header. */
  function PyFallbackNode(text: string, parserName: string): TreeNode {
    TreeNode("section-0", ToUpper(parserName) + " Content", 1, Trim(text), [], None)
  }

  /** What `parse_markdown_to_tree` returns. */
  function PyParsedTree(content: string, parserName: string): seq<TreeNode> {
    var text := AfterBanner(content);
    var sections := PySections(Split(text, '\n'));
    if sections == [] then [PyFallbackNode(text, parserName)] else Built(sections, false)
  }

  /** `parse_markdown_to_tree`: the banner skip, the first loop, then `build_tree_from_sections`. */
  method ParseMarkdownToTree(content: string, parserName: string) returns (tree: seq<TreeNode>)
    ensures tree == PyParsedTree(content, parserName)
  {
    var text := content;
    var contentStart := Find(content, Banner());
    if contentStart.Some? {
      text := if contentStart.value + 52 <= |content| then content[contentStart.value + 52..] else [];
    }
    var lines := Split(text, '\n');
    var sections := CollectSections(lines);
    if |sections| == 0 {
      return [TreeNode("section-0", ToUpper(parserName) + " Content", 1, Trim(text), [], None)];
    }
    tree := BuildTreeFromSections(sections, false);
  }

  /**
   * Without a header line the result is the one fallback node named after
   * the parser; otherwise the forest lists the sections in pre-order, every
   * child is deeper than its parent, and no node carries a back-reference.
   */
  lemma PyParsedShape(content: string, parserName: string)
    ensures var text := AfterBanner(content); var lines := Split(text, '\n'); var f := PyParsedTree(content, parserName);
      (HeadingsOf(lines) == [] ==> f == [PyFallbackNode(text, parserName)]) &&
      (HeadingsOf(lines) != [] ==>
        Labels(f) == Rendered(Groups(lines)) && WellNested(f) && ParentLinks(f, None, false))
  {
    var lines := Split(AfterBanner(content), '\n');
    NoSectionsIffNoHeader(lines);
    SectionsAreGroups(lines);
    var sections := PySections(lines);
    BuiltPreOrder(sections, false);
    BuiltWellNested(sections, false);
    BuiltParentLinks(sections, false);
  }
}
