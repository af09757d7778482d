/**
 * The TypeScript parser that turns Markdown text into a section tree
 * (deployments/local-selfhosted/client/src/utils/markdownParser.ts):
 * the line-by-line header classifier, the first pass that collects the
 * sections, the stack-based tree builder, and `parseMarkdownToTree`.
 */
module MarkdownParser {
  import opened Strings
  import opened Tree
  import opened SectionTree

  /** A header line's level and title. */
  datatype Heading = Heading(level: int, title: string)

  /** A detected section, before the tree is built (`ParsedSection`). */
  datatype Section = Section(
    id: string,
    title: string,
    level: int,
    content: string,
    startIndex: int,
    endIndex: int)

  // ------------------------------------------------------------ classifier

  /** `.` in a JavaScript regular expression without the `s` flag: not a line terminator. */
  predicate IsJsDot(c: char) { c != '\n' && c != '\r' }

  predicate AllJsDot(s: string) {
    forall i :: 0 <= i < |s| ==> IsJsDot(s[i])
  }

  /**
   * `/^(#{1,6})\s+(.+)$/` matches `line` with group 1 = `line[..n]` and
   * group 2 = `line[k..]`. The test is on the untrimmed line.
   */
  ghost predicate ExplicitMatch(line: string, n: int, k: int) {
    1 <= n <= 6 && n < k < |line| &&
    (forall i :: 0 <= i < n ==> line[i] == '#') &&
    AllSpace(line[n..k]) && AllJsDot(line[k..])
  }

  ghost predicate IsExplicitHeader(line: string) {
    exists n, k :: ExplicitMatch(line, n, k)
  }

  /** Length of the leading run of `#`. */
  function HashRun(s: string): (n: nat)
    ensures n <= |s|
    ensures forall i :: 0 <= i < n ==> s[i] == '#'
    ensures n == |s| || s[n] != '#'
  {
    if s != [] && s[0] == '#' then 1 + HashRun(s[1..]) else 0
  }

  lemma HashRunUnique(s: string, n: nat)
    requires n < |s| && s[n] != '#'
    requires forall i :: 0 <= i < n ==> s[i] == '#'
    ensures HashRun(s) == n
  {
  }

  /** Where group 2 starts when `\s+` takes as much whitespace as it can. */
  function TitleStart(line: string): int {
    var n := HashRun(line);
    var w := |line| - n - |TrimStart(line[n..])|;
    if n + w < |line| then n + w else |line| - 1
  }

  /** The explicit-header regular expression matches, as `RegExp.test` applies it. */
  predicate ExplicitGuard(line: string) {
    var n := HashRun(line);
    var k := TitleStart(line);
    1 <= n <= 6 && n < k && AllJsDot(line[k..])
  }

  lemma ExplicitGuardSound(line: string)
    requires ExplicitGuard(line)
    ensures ExplicitMatch(line, HashRun(line), TitleStart(line))
  {
    var n := HashRun(line);
    var k := TitleStart(line);
    var rest := line[n..];
    var w := |rest| - |TrimStart(rest)|;
    TrimStartSplit(rest);
    assert line[n..k] == rest[..w][..k - n];
  }

  lemma {:induction false} LeadingSpaceBound(s: string, m: nat)
    requires m <= |s| && AllSpace(s[..m])
    ensures |s| - |TrimStart(s)| >= m
  {
    if m > 0 {
      assert IsSpace(s[0]);
      assert s[1..][..m - 1] == s[1..m];
      LeadingSpaceBound(s[1..], m - 1);
    }
  }

  lemma ExplicitMatchComplete(line: string, n: int, k: int)
    requires ExplicitMatch(line, n, k)
    ensures ExplicitGuard(line) && n == HashRun(line)
    ensures Trim(line[k..]) == Trim(line[n..])
  {
    ExplicitMatchGuard(line, n, k);
    ExplicitMatchTitle(line, n, k);
  }

  /** Any match has `n` the run of `#` and the guard's group 2 within group 2. */
  lemma ExplicitMatchGuard(line: string, n: int, k: int)
    requires ExplicitMatch(line, n, k)
    ensures ExplicitGuard(line) && n == HashRun(line)
  {
    assert IsSpace(line[n]) by { assert line[n..k][0] == line[n]; }
    HashRunUnique(line, n);
    var rest := line[n..];
    assert rest[..k - n] == line[n..k];
    LeadingSpaceBound(rest, k - n);
    var t := TitleStart(line);
    assert line[t..] == line[k..][t - k..];
  }

  /** The whitespace a match gives to `\s+` is trimmed off the title anyway. */
  lemma ExplicitMatchTitle(line: string, n: int, k: int)
    requires ExplicitMatch(line, n, k)
    ensures Trim(line[k..]) == Trim(line[n..])
  {
    assert line[n..] == line[n..k] + line[k..];
    TrimStartSpaces(line[n..k], line[k..]);
  }

  /** The guard holds exactly when the regular expression matches. */
  lemma ExplicitGuardIff(line: string)
    ensures ExplicitGuard(line) <==> IsExplicitHeader(line)
  {
    if ExplicitGuard(line) {
      ExplicitGuardSound(line);
    }
    if IsExplicitHeader(line) {
      var n, k :| ExplicitMatch(line, n, k);
      ExplicitMatchComplete(line, n, k);
    }
  }

  /** Every match has the same level and, once trimmed, the same title. */
  lemma ExplicitMatchesAgree(line: string)
    ensures forall n, k :: ExplicitMatch(line, n, k) ==>
      n == HashRun(line) && Trim(line[k..]) == Trim(line[HashRun(line)..])
  {
    forall n, k | ExplicitMatch(line, n, k)
      ensures n == HashRun(line) && Trim(line[k..]) == Trim(line[HashRun(line)..])
    {
      ExplicitMatchComplete(line, n, k);
    }
  }

  /**
   * Executable form of the explicit-header test: the level is the number of
   * `#` and the title is group 2 trimmed, whichever split of the whitespace
   * the regular expression picks.
   */
  function ExplicitHeading(line: string): (r: Option<Heading>)
    ensures r.Some? <==> IsExplicitHeader(line)
    ensures forall n, k :: ExplicitMatch(line, n, k) ==> r == Some(Heading(n, Trim(line[k..])))
  {
    ExplicitGuardIff(line);
    ExplicitMatchesAgree(line);
    if ExplicitGuard(line) then Some(Heading(HashRun(line), Trim(line[HashRun(line)..]))) else None
  }

  /** `/^[A-Z\s]{3,}$/` plus the length bounds `> 2` and `< 50`. */
  predicate AllCapsRule(t: string) {
    AllUpperOrSpace(t) && 2 < |t| < 50
  }

  /** `/^[A-Z][A-Za-z\s]+:?\s*$/`. */
  predicate TitleCasePattern(t: string) {
    |t| >= 2 && IsUpper(t[0]) &&
    (AllLetterOrSpace(t[1..]) ||
     exists j :: 2 <= j < |t| && t[j] == ':' && AllLetterOrSpace(t[1..j]) && AllSpace(t[j + 1..]))
  }

  /** The Title-case rule with its length bounds `> 5` and `< 80`. */
  predicate TitleCaseRule(t: string) {
    TitleCasePattern(t) && 5 < |t| < 80
  }

  /** `/^\*\*(.+)\*\*$/`. */
  predicate BoldRule(t: string) {
    |t| >= 5 && t[..2] == "**" && t[|t| - 2..] == "**" && AllJsDot(t[2..|t| - 2])
  }

  /** The implicit-header test, on the trimmed line. */
  predicate IsImplicitHeader(t: string) {
    AllCapsRule(t) || TitleCaseRule(t) || BoldRule(t)
  }

  /** `replace(/:$/, '')`: one trailing colon removed. */
  function DropTrailingColon(t: string): string {
    if t != [] && t[|t| - 1] == ':' then t[..|t| - 1] else t
  }

  /**
   * Level and title of an implicit header `t` (already trimmed): level 1 for
   * a line of `[A-Z\s]` only, level 2 with the `**` stripped for a bold line,
   * and level 2 with one trailing colon removed otherwise.
   */
  function ImplicitHeading(t: string): (r: Option<Heading>)
    ensures r.Some? <==> IsImplicitHeader(t)
    ensures r.Some? ==> r.value.level in {1, 2} && IsTrimmed(r.value.title)
  {
    if !IsImplicitHeader(t) then None
    else if |t| > 0 && AllUpperOrSpace(t) then Some(Heading(1, Trim(t)))
    else if BoldRule(t) then Some(Heading(2, Trim(t[2..|t| - 2])))
    else Some(Heading(2, Trim(DropTrailingColon(t))))
  }

  /**
   * Whether a line is a section header, and if so its level and its final
   * (trimmed) title; the explicit rule is tried first.
   */
  function ClassifyLine(line: string): (r: Option<Heading>)
    ensures r.Some? ==> 1 <= r.value.level <= 6 && IsTrimmed(r.value.title)
  {
    var e := ExplicitHeading(line);
    if e.Some? then
      assert 1 <= e.value.level <= 6 by {
        var n, k :| ExplicitMatch(line, n, k);
      }
      Some(Heading(e.value.level, Trim(e.value.title)))
    else ImplicitHeading(Trim(line))
  }

  predicate IsHeaderLine(line: string) {
    ClassifyLine(line).Some?
  }

  /** A line is a header exactly when the explicit regular expression or an implicit rule matches. */
  lemma HeaderLineIff(line: string)
    ensures IsHeaderLine(line) <==> IsExplicitHeader(line) || IsImplicitHeader(Trim(line))
  {
  }

  /** An explicit header's level is its number of `#` and its title the trimmed rest. */
  lemma ExplicitHeaderClassified(line: string, n: int, k: int)
    requires ExplicitMatch(line, n, k)
    ensures ClassifyLine(line) == Some(Heading(n, Trim(line[k..])))
  {
    TrimOfTrimmed(Trim(line[k..]));
  }

  /**
   * Any line whose trimmed text is 3 to 79 characters of `[A-Z\s]` only gets
   * level 1 and that text as title, including lines of 50 to 79 characters
   * that only qualify through the Title-case rule.
   */
  lemma AllCapsHeaderIsLevelOne(line: string)
    requires !IsExplicitHeader(line)
    requires var t := Trim(line); 3 <= |t| < 80 && AllUpperOrSpace(t)
    ensures ClassifyLine(line) == Some(Heading(1, Trim(line)))
  {
    var t := Trim(line);
    TrimOfTrimmed(t);
    if 5 < |t| {
      assert TitleCasePattern(t) by {
        assert AllLetterOrSpace(t[1..]);
      }
    }
  }

  /** A bold line that is not an explicit header is a level-2 header titled by its inner text. */
  lemma BoldHeaderClassified(line: string)
    requires !IsExplicitHeader(line) && BoldRule(Trim(line))
    ensures var t := Trim(line); ClassifyLine(line) == Some(Heading(2, Trim(t[2..|t| - 2])))
  {
    var t := Trim(line);
    assert !IsUpper(t[0]) && !IsSpace(t[0]) by { assert t[..2][0] == t[0]; }
  }

  /** The remaining implicit headers are Title-case lines: level 2, one trailing colon removed. */
  lemma TitleCaseHeaderClassified(line: string)
    requires !IsExplicitHeader(line)
    requires var t := Trim(line); TitleCaseRule(t) && !AllUpperOrSpace(t)
    ensures ClassifyLine(line) == Some(Heading(2, Trim(DropTrailingColon(Trim(line)))))
  {
    var t := Trim(line);
    assert !BoldRule(t) by { assert t[..2][0] == t[0]; }
  }

  /** All-caps lines of 80 or more characters are never implicit headers. */
  lemma LongAllCapsIsNotImplicit(t: string)
    requires AllUpperOrSpace(t) && |t| >= 80
    ensures !IsImplicitHeader(t)
  {
    if |t| >= 5 {
      assert t[..2][0] == t[0];
    }
  }

  /** A blank line is never a header. */
  lemma BlankLineIsNotHeader(line: string)
    requires AllSpace(line)
    ensures !IsHeaderLine(line)
  {
    TrimAllSpace(line);
  }

  // ------------------------------------------------------ first pass: sections

  /** The classification of every line, in order. */
  function Classify(lines: seq<string>): (r: seq<Option<Heading>>)
    ensures |r| == |lines|
  {
    if lines == [] then [] else [ClassifyLine(lines[0])] + Classify(lines[1..])
  }

  lemma {:induction false} ClassifyAt(lines: seq<string>, k: nat)
    requires k < |lines|
    ensures Classify(lines)[k] == ClassifyLine(lines[k])
  {
    if k > 0 {
      ClassifyAt(lines[1..], k - 1);
    }
  }

  /** `hs` lists, in increasing order, positions of `heads` that are headers. */
  ghost predicate HeaderList(heads: seq<Option<Heading>>, hs: seq<nat>) {
    (forall a, b :: 0 <= a < b < |hs| ==> hs[a] < hs[b]) &&
    (forall a :: 0 <= a < |hs| ==> hs[a] < |heads| && heads[hs[a]].Some?)
  }

  /** Every header position of `heads` is listed in `hs`. */
  ghost predicate AllHeadersListed(heads: seq<Option<Heading>>, hs: seq<nat>) {
    forall k: nat :: k < |heads| && heads[k].Some? ==> k in hs
  }

  /** The indices of the header lines, in increasing order. */
  function HeaderIndices(heads: seq<Option<Heading>>): (r: seq<nat>)
    ensures HeaderList(heads, r) && AllHeadersListed(heads, r)
  {
    if heads == [] then []
    else
      var r := HeaderIndices(heads[..|heads| - 1]);
      assert forall k :: 0 <= k < |heads| - 1 ==> heads[..|heads| - 1][k] == heads[k];
      if heads[|heads| - 1].Some? then r + [|heads| - 1] else r
  }

  function SectionId(j: nat): string {
    "section-" + NatToString(j)
  }

  /** The line index just past the body of the `j`-th section. */
  function BodyEnd(heads: seq<Option<Heading>>, hs: seq<nat>, j: nat): nat
    requires j < |hs|
  {
    if j + 1 < |hs| then hs[j + 1] else |heads|
  }

  /**
   * The `j`-th section: id `section-j`, the header's level and title, and as
   * content the trimmed `\n`-join of every line after its header up to the
   * next header (or the end).
   */
  function SectionAt(lines: seq<string>, heads: seq<Option<Heading>>, hs: seq<nat>, j: nat): Section
    requires |heads| == |lines| && HeaderList(heads, hs) && j < |hs|
  {
    var start := hs[j];
    var end := BodyEnd(heads, hs, j);
    assert start < end;
    var h := heads[start].value;
    Section(SectionId(j), h.title, h.level, Trim(Join(lines[start + 1..end], "\n")), start, end - 1)
  }

  /** The sections of `lines` given their classification, one per header. */
  function SectionsFrom(lines: seq<string>, heads: seq<Option<Heading>>): (r: seq<Section>)
    requires |heads| == |lines|
    ensures |r| == |HeaderIndices(heads)|
  {
    var hs := HeaderIndices(heads);
    seq(|hs|, j requires 0 <= j < |hs| => SectionAt(lines, heads, hs, j))
  }

  /** The sections of a document, one per header line. */
  function SectionsOf(lines: seq<string>): seq<Section> {
    SectionsFrom(lines, Classify(lines))
  }

  /** A section just opened at its header, before its content is known. */
  function OpenedSection(heads: seq<Option<Heading>>, hs: seq<nat>, j: nat): Section
    requires HeaderList(heads, hs) && j < |hs|
  {
    var h := heads[hs[j]].value;
    Section(SectionId(j), h.title, h.level, "", hs[j], hs[j])
  }

  /** The state of the first pass: the sections opened so far and the lines since the last header. */
  datatype ScanState = ScanState(sections: seq<Section>, body: seq<string>)

  /**
   * Closing the open section, as done at each header and at the end: the
   * last section gets the trimmed `\n`-join of `body` as content and ends
   * before line `e`; with no section yet, nothing changes.
   */
  function Patch(sections: seq<Section>, body: seq<string>, e: int): (r: seq<Section>)
    ensures |r| == |sections|
  {
    if sections == [] then []
    else
      var last := |sections| - 1;
      sections[last := sections[last].(content := Trim(Join(body, "\n")), endIndex := e - 1)]
  }

  /** One line `i` of the first pass, given its classification `h`. */
  function ScanStep(s: ScanState, line: string, h: Option<Heading>, i: nat): ScanState {
    if h.Some? then
      ScanState(Patch(s.sections, s.body, i) + [Section(SectionId(|s.sections|), h.value.title, h.value.level, "", i, i)], [])
    else ScanState(s.sections, s.body + [line])
  }

  /** The state of the first pass after the lines before `i`. */
  function Scan(lines: seq<string>, heads: seq<Option<Heading>>, i: nat): ScanState
    requires |heads| == |lines| && i <= |lines|
  {
    if i == 0 then ScanState([], []) else ScanStep(Scan(lines, heads, i - 1), lines[i - 1], heads[i - 1], i - 1)
  }

  /**
   * What the first pass knows after the lines before `i`: one section opened
   * per header seen, all but the last complete, and the body the lines since
   * the last header (or since the start).
   */
  ghost predicate Scanned(lines: seq<string>, heads: seq<Option<Heading>>, hs: seq<nat>, s: ScanState, i: nat)
    requires |heads| == |lines| && hs == HeaderIndices(heads)
  {
    Positioned(hs, |s.sections|, i, |lines|) && Completed(lines, heads, hs, s.sections) &&
    BodySince(lines, hs, |s.sections|, s.body, i)
  }

  /** Exactly the first `c` headers lie before line `i`, and `i` is at most `n`. */
  ghost predicate Positioned(hs: seq<nat>, c: nat, i: nat, n: nat) {
    c <= |hs| && i <= n && (forall a :: 0 <= a < c ==> hs[a] < i) && (c < |hs| ==> hs[c] >= i)
  }

  /** All sections but the last are complete; the last is as opened at its header. */
  ghost predicate Completed(lines: seq<string>, heads: seq<Option<Heading>>, hs: seq<nat>, sections: seq<Section>)
    requires |heads| == |lines| && hs == HeaderIndices(heads)
  {
    var c := |sections|;
    c <= |hs| &&
    (c > 0 ==> sections[..c - 1] == SectionsFrom(lines, heads)[..c - 1] &&
               sections[c - 1] == OpenedSection(heads, hs, c - 1))
  }

  /** `body` holds the lines after the `c`-th header (or from the start) up to line `i`. */
  ghost predicate BodySince(lines: seq<string>, hs: seq<nat>, c: nat, body: seq<string>, i: nat)
    requires c <= |hs| && i <= |lines|
  {
    var from := if c > 0 then hs[c - 1] + 1 else 0;
    from <= i && body == lines[from..i]
  }

  /**
   * Scanning the lines in order with `c` headers seen so far, line `i` is a
   * header exactly when it is the `c`-th header, and passing it moves on to
   * `c + 1` headers seen.
   */
  lemma NextHeader(heads: seq<Option<Heading>>, hs: seq<nat>, c: nat, i: nat)
    requires hs == HeaderIndices(heads) && i < |heads| && Positioned(hs, c, i, |heads|)
    ensures heads[i].Some? <==> c < |hs| && hs[c] == i
    ensures heads[i].Some? ==> Positioned(hs, c + 1, i + 1, |heads|)
    ensures heads[i].None? ==> Positioned(hs, c, i + 1, |heads|)
  {
    if heads[i].Some? {
      assert i in hs;
    }
  }

  /** Patching an opened section with the lines up to the next header completes it. */
  lemma PatchCompletes(lines: seq<string>, heads: seq<Option<Heading>>, hs: seq<nat>, j: nat, body: seq<string>)
    requires |heads| == |lines| && HeaderList(heads, hs) && j < |hs|
    requires body == lines[hs[j] + 1..BodyEnd(heads, hs, j)]
    ensures OpenedSection(heads, hs, j).(content := Trim(Join(body, "\n")), endIndex := BodyEnd(heads, hs, j) - 1)
      == SectionAt(lines, heads, hs, j)
  {
  }

  /** One line of the first pass keeps `Scanned`. */
  lemma StepScanned(lines: seq<string>, heads: seq<Option<Heading>>, hs: seq<nat>, s: ScanState, i: nat)
    requires |heads| == |lines| && hs == HeaderIndices(heads) && i < |lines| && Scanned(lines, heads, hs, s, i)
    ensures Scanned(lines, heads, hs, ScanStep(s, lines[i], heads[i], i), i + 1)
  {
    NextHeader(heads, hs, |s.sections|, i);
    if heads[i].Some? {
      HeaderStep(lines, heads, hs, s, i);
    } else {
      PlainStep(lines, hs, s, i);
    }
  }

  /** At the `c`-th header the open section is closed and the next one opened. */
  lemma HeaderStep(lines: seq<string>, heads: seq<Option<Heading>>, hs: seq<nat>, s: ScanState, i: nat)
    requires |heads| == |lines| && hs == HeaderIndices(heads) && i < |lines| && Scanned(lines, heads, hs, s, i)
    requires |s.sections| < |hs| && hs[|s.sections|] == i && Positioned(hs, |s.sections| + 1, i + 1, |lines|)
    ensures Scanned(lines, heads, hs, ScanStep(s, lines[i], heads[i], i), i + 1)
  {
    ClosedBefore(lines, heads, hs, s, i);
    HeaderCompleted(lines, heads, hs, s, i);
    assert lines[i + 1..i + 1] == [];
  }

  /** At the `c`-th header, closing the open section makes the first `c` sections complete. */
  lemma ClosedBefore(lines: seq<string>, heads: seq<Option<Heading>>, hs: seq<nat>, s: ScanState, i: nat)
    requires |heads| == |lines| && hs == HeaderIndices(heads) && i < |lines| && Scanned(lines, heads, hs, s, i)
    requires |s.sections| < |hs| && hs[|s.sections|] == i
    ensures Patch(s.sections, s.body, i) == SectionsFrom(lines, heads)[..|s.sections|]
  {
    var c := |s.sections|;
    if c > 0 {
      assert BodyEnd(heads, hs, c - 1) == i;
      PatchLast(lines, heads, hs, s.sections, s.body);
    }
  }

  /** Patching the open section with its whole body completes the first `|sections|` sections. */
  lemma PatchLast(lines: seq<string>, heads: seq<Option<Heading>>, hs: seq<nat>, sections: seq<Section>, body: seq<string>)
    requires |heads| == |lines| && hs == HeaderIndices(heads) && 0 < |sections| <= |hs|
    requires Completed(lines, heads, hs, sections)
    requires body == lines[hs[|sections| - 1] + 1..BodyEnd(heads, hs, |sections| - 1)]
    ensures Patch(sections, body, BodyEnd(heads, hs, |sections| - 1)) == SectionsFrom(lines, heads)[..|sections|]
  {
    var c := |sections|;
    PatchCompletes(lines, heads, hs, c - 1, body);
    UpdateExtendsPrefix(sections, SectionsFrom(lines, heads), c - 1, SectionAt(lines, heads, hs, c - 1));
  }

  /** Setting the last element of `p`, which agrees with `all` before it, to `all[k]` gives a prefix of `all`. */
  lemma UpdateExtendsPrefix<T>(p: seq<T>, all: seq<T>, k: nat, v: T)
    requires |p| == k + 1 && k < |all| && p[..k] == all[..k] && v == all[k]
    ensures p[k := v] == all[..k + 1]
  {
    assert forall j :: 0 <= j < k ==> p[..k][j] == p[j];
  }

  /** Closing the open section and opening the next one keeps every section but the new one complete. */
  lemma HeaderCompleted(lines: seq<string>, heads: seq<Option<Heading>>, hs: seq<nat>, s: ScanState, i: nat)
    requires |heads| == |lines| && hs == HeaderIndices(heads) && i < |lines|
    requires |s.sections| < |hs| && hs[|s.sections|] == i
    requires Patch(s.sections, s.body, i) == SectionsFrom(lines, heads)[..|s.sections|]
    ensures Completed(lines, heads, hs, ScanStep(s, lines[i], heads[i], i).sections)
  {
    var c := |s.sections|;
    var next := ScanStep(s, lines[i], heads[i], i).sections;
    assert next == Patch(s.sections, s.body, i) + [OpenedSection(heads, hs, c)];
    assert next[..c] == Patch(s.sections, s.body, i);
  }

  /** A line that is not a header joins the body. */
  lemma PlainStep(lines: seq<string>, hs: seq<nat>, s: ScanState, i: nat)
    requires |s.sections| <= |hs| && i < |lines| && BodySince(lines, hs, |s.sections|, s.body, i)
    ensures BodySince(lines, hs, |s.sections|, s.body + [lines[i]], i + 1)
  {
    var from := if |s.sections| > 0 then hs[|s.sections| - 1] + 1 else 0;
    assert lines[from..i + 1] == lines[from..i] + [lines[i]];
  }

  /** The first pass keeps `Scanned` at every line. */
  lemma {:induction false} ScanScanned(lines: seq<string>, heads: seq<Option<Heading>>, i: nat)
    requires |heads| == |lines| && i <= |lines|
    ensures Scanned(lines, heads, HeaderIndices(heads), Scan(lines, heads, i), i)
  {
    if i > 0 {
      ScanScanned(lines, heads, i - 1);
      StepScanned(lines, heads, HeaderIndices(heads), Scan(lines, heads, i - 1), i - 1);
    }
  }

  /** Closing the last section after the whole first pass gives one section per header. */
  lemma FinalPatch(lines: seq<string>, heads: seq<Option<Heading>>, hs: seq<nat>, s: ScanState)
    requires |heads| == |lines| && hs == HeaderIndices(heads)
    requires Scanned(lines, heads, hs, s, |lines|)
    ensures Patch(s.sections, s.body, |lines|) == SectionsFrom(lines, heads)
  {
    var c := |s.sections|;
    assert c == |hs|;
    if c > 0 {
      assert BodyEnd(heads, hs, c - 1) == |lines|;
      PatchLast(lines, heads, hs, s.sections, s.body);
      assert SectionsFrom(lines, heads)[..c] == SectionsFrom(lines, heads);
    }
  }

  /** The first pass, closed at the end, gives the sections of the document. */
  lemma ScanSections(lines: seq<string>)
    ensures var s := Scan(lines, Classify(lines), |lines|);
      Patch(s.sections, s.body, |lines|) == SectionsOf(lines)
  {
    var heads := Classify(lines);
    ScanScanned(lines, heads, |lines|);
    FinalPatch(lines, heads, HeaderIndices(heads), Scan(lines, heads, |lines|));
  }

  /**
   * The first pass of `parseMarkdownToTree`: split into lines, open a section
   * at every header line and patch the previous section's content and end
   * index when the next header (or the end of the text) is reached.
   */
  method ParseSections(markdown: string) returns (sections: seq<Section>)
    ensures sections == SectionsOf(Split(markdown, '\n'))
  {
    var lines := Split(markdown, '\n');
    ghost var heads := Classify(lines);
    sections := [];
    var currentContent: seq<string> := [];
    for i := 0 to |lines|
      invariant ScanState(sections, currentContent) == Scan(lines, heads, i)
    {
      var line := lines[i];
      var heading := ClassifyLine(line);
      ClassifyAt(lines, i);
      if heading.Some? {
        sections := Patch(sections, currentContent, i);
        sections := sections + [Section(SectionId(|sections|), heading.value.title, heading.value.level, "", i, i)];
        currentContent := [];
      } else {
        currentContent := currentContent + [line];
      }
    }
    sections := Patch(sections, currentContent, |lines|);
    ScanSections(lines);
  }

  // ------------------------------------------------------ properties of sections

  /** Every section has the id of its position and its header's level and title. */
  lemma SectionsOfAt(lines: seq<string>, j: nat)
    requires j < |SectionsOf(lines)|
    ensures var hs := HeaderIndices(Classify(lines));
      var s := SectionsOf(lines)[j];
      hs[j] < |lines| && ClassifyLine(lines[hs[j]]) == Some(Heading(s.level, s.title)) &&
      s.id == SectionId(j) && s.startIndex == hs[j] && 1 <= s.level <= 6
  {
    var hs := HeaderIndices(Classify(lines));
    ClassifyAt(lines, hs[j]);
  }

  /** Some line is a header. */
  ghost predicate HasHeaderLine(lines: seq<string>) {
    exists k :: 0 <= k < |lines| && IsHeaderLine(lines[k])
  }

  /** There are no sections exactly when no line is a header. */
  lemma NoSectionsIffNoHeader(lines: seq<string>)
    ensures SectionsOf(lines) == [] <==> !HasHeaderLine(lines)
  {
    var heads := Classify(lines);
    var hs := HeaderIndices(heads);
    if hs != [] {
      ClassifyAt(lines, hs[0]);
    }
    forall k | 0 <= k < |lines| && IsHeaderLine(lines[k])
      ensures hs != []
    {
      ClassifyAt(lines, k);
      assert k in hs;
    }
  }

  /**
   * The sections tile the lines from the first header on: each starts at its
   * header, ends just before the next one, and the last ends at the last line.
   */
  lemma SectionsTile(lines: seq<string>)
    ensures Tiles(SectionsOf(lines), |lines|)
  {
    var ss := SectionsOf(lines);
    var hs := HeaderIndices(Classify(lines));
    forall j | 0 <= j < |ss| ensures |ss| == |hs| && Spans(ss, hs, |lines|, j) {
      SectionSpan(lines, j);
    }
    SpansTile(ss, hs, |lines|);
  }

  /** Consecutive sections meet, the last ends at line `n - 1`, and none is empty. */
  ghost predicate Tiles(ss: seq<Section>, n: int) {
    (forall j :: 0 <= j < |ss| - 1 ==> ss[j].endIndex + 1 == ss[j + 1].startIndex) &&
    (ss != [] ==> ss[|ss| - 1].endIndex == n - 1) &&
    (forall j :: 0 <= j < |ss| ==> ss[j].startIndex <= ss[j].endIndex)
  }

  /** Section `j` runs from header `j` to just before header `j + 1`, or to line `n - 1`. */
  ghost predicate Spans(ss: seq<Section>, hs: seq<nat>, n: int, j: nat)
    requires j < |ss| == |hs|
  {
    ss[j].startIndex == hs[j] && ss[j].startIndex <= ss[j].endIndex &&
    ss[j].endIndex + 1 == (if j + 1 < |hs| then hs[j + 1] else n)
  }

  lemma SpansTile(ss: seq<Section>, hs: seq<nat>, n: int)
    requires |ss| == |hs| && forall j :: 0 <= j < |ss| ==> Spans(ss, hs, n, j)
    ensures Tiles(ss, n)
  {
    forall j | 0 <= j < |ss| - 1 ensures ss[j].endIndex + 1 == ss[j + 1].startIndex {
      assert Spans(ss, hs, n, j) && Spans(ss, hs, n, j + 1);
    }
    if ss != [] {
      assert Spans(ss, hs, n, |ss| - 1);
    }
    forall j | 0 <= j < |ss| ensures ss[j].startIndex <= ss[j].endIndex {
      assert Spans(ss, hs, n, j);
    }
  }

  /** Section `j` starts at its header and ends just before the next header, or at the last line. */
  lemma SectionSpan(lines: seq<string>, j: nat)
    requires j < |SectionsOf(lines)|
    ensures var hs := HeaderIndices(Classify(lines));
      |SectionsOf(lines)| == |hs| && Spans(SectionsOf(lines), hs, |lines|, j)
  {
    var heads := Classify(lines);
    var hs := HeaderIndices(heads);
    assert SectionsOf(lines)[j] == SectionAt(lines, heads, hs, j);
  }

  /** The nodes' labels, in section order. */
  function SectionLabels(sections: seq<Section>): (r: seq<Label>)
    ensures |r| == |sections|
    ensures forall i :: 0 <= i < |r| ==>
      r[i] == Label(sections[i].id, sections[i].title, sections[i].level, sections[i].content)
  {
    seq(|sections|, i requires 0 <= i < |sections| =>
      Label(sections[i].id, sections[i].title, sections[i].level, sections[i].content))
  }

  /** The single node returned when the text has no header. */
  function FallbackNode(markdown: string): TreeNode {
    TreeNode("section-0", "Document Content", 1, Trim(markdown), [], None)
  }

  /** The forest `parseMarkdownToTree` returns. */
  function ParsedTree(markdown: string): seq<TreeNode> {
    var sections := SectionsOf(Split(markdown, '\n'));
    if sections == [] then [FallbackNode(markdown)] else Built(SectionLabels(sections), true)
  }

  /** `parseMarkdownToTree`: the two passes, or the fallback node when there is no header. */
  method ParseMarkdownToTree(markdown: string) returns (tree: seq<TreeNode>)
    ensures tree == ParsedTree(markdown)
  {
    var sections := ParseSections(markdown);
    if |sections| == 0 {
      return [TreeNode("section-0", "Document Content", 1, Trim(markdown), [], None)];
    }
    tree := BuildTreeFromSections(SectionLabels(sections), true);
  }

  /** Without any header line the result is the one fallback node. */
  lemma ParsedWithoutHeaders(markdown: string)
    requires !HasHeaderLine(Split(markdown, '\n'))
    ensures ParsedTree(markdown) == [FallbackNode(markdown)]
  {
    NoSectionsIffNoHeader(Split(markdown, '\n'));
  }

  /**
   * With at least one header, the forest lists the sections in pre-order,
   * every child is deeper than its parent, children point back to their
   * parent and roots to nothing.
   */
  lemma ParsedWithHeaders(markdown: string)
    requires HasHeaderLine(Split(markdown, '\n'))
    ensures var f := ParsedTree(markdown);
      Labels(f) == SectionLabels(SectionsOf(Split(markdown, '\n'))) &&
      WellNested(f) && ParentLinks(f, None, true)
  {
    var labels := SectionLabels(SectionsOf(Split(markdown, '\n')));
    NoSectionsIffNoHeader(Split(markdown, '\n'));
    BuiltPreOrder(labels, true);
    BuiltWellNested(labels, true);
    BuiltParentLinks(labels, true);
  }

  /** The ids of the parsed forest are `section-0, section-1, ...` in pre-order, hence distinct. */
  lemma ParsedIds(markdown: string)
    ensures var f := ParsedTree(markdown);
      UniqueIds(f) && forall k :: 0 <= k < |Ids(f)| ==> Ids(f)[k] == SectionId(k)
  {
    var lines := Split(markdown, '\n');
    var ss := SectionsOf(lines);
    var f := ParsedTree(markdown);
    if ss != [] {
      var labels := SectionLabels(ss);
      BuiltPreOrder(labels, true);
      IdsAreLabelIds(f);
      forall k | 0 <= k < |Ids(f)| ensures Ids(f)[k] == SectionId(k) {
        SectionsOfAt(lines, k);
      }
    } else {
      assert Ids(f) == ["section-0"];
      assert SectionId(0) == "section-0";
    }
    forall i, j | 0 <= i < j < |Ids(f)| ensures Ids(f)[i] != Ids(f)[j] {
      if Ids(f)[i] == Ids(f)[j] {
        NumberedInjective("section-", i, j);
      }
    }
  }

  /**
   * With at least one header, section `i` hangs under `section-j` for the
   * last earlier section `j` with a smaller level, and is a root when no
   * earlier section has a smaller level.
   */
  lemma ParsedNesting(markdown: string)
    requires HasHeaderLine(Split(markdown, '\n'))
    ensures var labels := SectionLabels(SectionsOf(Split(markdown, '\n')));
      var f := ParsedTree(markdown);
      |ParentRefs(f)| == |labels| &&
      forall i :: 0 <= i < |labels| ==>
        var j := LastBelow(labels[..i], labels[i].level);
        ParentRefs(f)[i] == if j < 0 then None else Some(SectionId(j))
  {
    var lines := Split(markdown, '\n');
    var labels := SectionLabels(SectionsOf(lines));
    NoSectionsIffNoHeader(lines);
    assert ParsedTree(markdown) == Built(labels, true);
    BuiltParentRefs(labels);
    forall i | 0 <= i < |labels|
      ensures var j := LastBelow(labels[..i], labels[i].level);
        ParentOf(labels[..i], labels[i].level) == if j < 0 then None else Some(SectionId(j))
    {
      ParentIsNumbered(lines, i);
    }
  }

  /** The parent of section `i` is named by its position. */
  lemma ParentIsNumbered(lines: seq<string>, i: nat)
    requires i < |SectionsOf(lines)|
    ensures var labels := SectionLabels(SectionsOf(lines));
      var j := LastBelow(labels[..i], labels[i].level);
      ParentOf(labels[..i], labels[i].level) == if j < 0 then None else Some(SectionId(j))
  {
    var labels := SectionLabels(SectionsOf(lines));
    var j := LastBelow(labels[..i], labels[i].level);
    if j >= 0 {
      SectionsOfAt(lines, j);
      assert labels[..i][j] == labels[j];
    }
  }
}
