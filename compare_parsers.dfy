/**
 * The structure counts of compare-parsers.py (`analyze_structure`): each
 * stripped line may be an all-caps header, a bullet or a quoted definition;
 * the lines not starting with `---` are counted as clean, the blank ones as
 * spacing, and the first three headers and definitions are kept as samples.
 */
module CompareParsers {
  import opened Strings

  /** `^[A-Z\s]{5,50}$` on a stripped line. */
  predicate IsHeaderLine(t: string) {
    5 <= |t| <= 50 && AllUpperOrSpace(t)
  }

  /** `startswith(('•', '-', '*', '◦'))`. */
  predicate IsBulletLine(t: string) {
    t != [] && (t[0] == '\U{2022}' || t[0] == '-' || t[0] == '*' || t[0] == '\U{25E6}')
  }

  /** `startswith('"') and endswith('"')`, so a lone `"` counts. */
  predicate IsDefinitionLine(t: string) {
    t != [] && t[0] == '"' && t[|t| - 1] == '"'
  }

  datatype Kind = Header | Bullet | Definition

  predicate IsKind(k: Kind, t: string) {
    match k
    case Header => IsHeaderLine(t)
    case Bullet => IsBulletLine(t)
    case Definition => IsDefinitionLine(t)
  }

  /** What line `line` adds to the list of kind `k`: its stripped form when that is non-blank and of the kind. */
  function Contribution(k: Kind, line: string): seq<string> {
    var t := Trim(line);
    if t != [] && IsKind(k, t) then [t] else []
  }

  /** The `headers`, `bullets` or `definitions` list after the lines `lines`. */
  function Collect(lines: seq<string>, k: Kind): seq<string> {
    if lines == [] then [] else Collect(lines[..|lines| - 1], k) + Contribution(k, lines[|lines| - 1])
  }

  /** How many lines are non-blank after stripping. */
  function NonBlank(lines: seq<string>): (r: nat)
    ensures r <= |lines|
  {
    if lines == [] then 0 else NonBlank(lines[..|lines| - 1]) + (if Trim(lines[|lines| - 1]) != [] then 1 else 0)
  }

  /** `clean_lines`: non-blank lines whose unstripped text does not start with `---`. */
  function CleanLines(lines: seq<string>): (r: nat)
    ensures r <= NonBlank(lines)
  {
    if lines == [] then 0
    else
      var l := lines[|lines| - 1];
      CleanLines(lines[..|lines| - 1]) + (if Trim(l) != [] && !StartsWith(l, "---") then 1 else 0)
  }

  /** The first three items, or all of them when there are fewer. */
  function Take3(xs: seq<string>): (r: seq<string>)
    ensures |r| <= |xs| && |r| <= 3 && r == xs[..|r|]
    ensures |r| == |xs| || |r| == 3
  {
    if |xs| <= 3 then xs else xs[..3]
  }

  /**
   * What `analyze_structure` returns. `spacing_quality` is the float
   * `blankLines / lineCount`; the two integers are kept instead.
   */
  datatype Structure = Structure(
    headers: nat,
    bullets: nat,
    definitions: nat,
    cleanLines: nat,
    blankLines: nat,
    lineCount: nat,
    sampleHeaders: seq<string>,
    sampleDefinitions: seq<string>)

  method AnalyzeStructure(content: string, libraryName: string) returns (r: Structure)
    ensures var lines := Split(content, '\n');
      r.headers == |Collect(lines, Header)| && r.bullets == |Collect(lines, Bullet)| &&
      r.definitions == |Collect(lines, Definition)| &&
      r.cleanLines == CleanLines(lines) && r.blankLines == |lines| - NonBlank(lines) && r.lineCount == |lines| &&
      r.sampleHeaders == Take3(Collect(lines, Header)) && r.sampleDefinitions == Take3(Collect(lines, Definition))
  {
    var lines := Split(content, '\n');
    var headers: seq<string> := [];
    var bullets: seq<string> := [];
    var definitions: seq<string> := [];
    for i := 0 to |lines|
      invariant headers == Collect(lines[..i], Header)
      invariant bullets == Collect(lines[..i], Bullet)
      invariant definitions == Collect(lines[..i], Definition)
    {
      var line := Trim(lines[i]);
      CollectStep(lines, i);
      if line == [] {
        continue;
      }
      if 5 <= |line| <= 50 && AllUpperOrSpace(line) {
        headers := headers + [line];
      }
      if line[0] == '\U{2022}' || line[0] == '-' || line[0] == '*' || line[0] == '\U{25E6}' {
        bullets := bullets + [line];
      }
      if line[0] == '"' && line[|line| - 1] == '"' {
        definitions := definitions + [line];
      }
    }
    assert lines[..|lines|] == lines;
    var lineCount := if |lines| > 1 then |lines| else 1;
    r := Structure(|headers|, |bullets|, |definitions|, CleanLines(lines), |lines| - NonBlank(lines), lineCount,
      Take3(headers), Take3(definitions));
  }

  lemma CollectStep(lines: seq<string>, i: nat)
    requires i < |lines|
    ensures forall k :: Collect(lines[..i + 1], k) == Collect(lines[..i], k) + Contribution(k, lines[i])
  {
    assert lines[..i + 1][..i] == lines[..i];
  }

  // ------------------------------------------------------------ the lemmas

  /**
   * The three categories never share a line: a header begins with a capital
   * letter (it is stripped and at least five long), a bullet with one of
   * its four marks, a definition with a quote.
   */
  lemma KindsDisjoint(t: string)
    requires IsTrimmed(t)
    ensures !(IsHeaderLine(t) && IsBulletLine(t))
    ensures !(IsHeaderLine(t) && IsDefinitionLine(t))
    ensures !(IsBulletLine(t) && IsDefinitionLine(t))
  {
  }

  /** Every collected line is a stripped, non-blank line of its kind. */
  lemma {:induction false} CollectedOfKind(lines: seq<string>, k: Kind)
    ensures forall j :: 0 <= j < |Collect(lines, k)| ==>
      Collect(lines, k)[j] != [] && IsTrimmed(Collect(lines, k)[j]) && IsKind(k, Collect(lines, k)[j])
  {
    if lines != [] {
      CollectedOfKind(lines[..|lines| - 1], k);
    }
  }

  /** Each line adds to at most one list, so the three counts fit in the non-blank lines. */
  lemma {:induction false} CountsFit(lines: seq<string>)
    ensures |Collect(lines, Header)| + |Collect(lines, Bullet)| + |Collect(lines, Definition)| <= NonBlank(lines)
  {
    if lines != [] {
      CountsFit(lines[..|lines| - 1]);
      KindsDisjoint(Trim(lines[|lines| - 1]));
    }
  }

  /** A blank line adds to no list. */
  lemma BlankContributesNothing(line: string, k: Kind)
    requires AllSpace(line)
    ensures Contribution(k, line) == []
  {
    TrimAllSpace(line);
  }
}
