/**
 * The content check of document-parser-poc.py: `analyze_content_quality`,
 * its structure flags and its score, and the ranking of the successful
 * parse results by that score in the summary report.
 */
module ContentQuality {
  import opened Strings
  import opened Tree

  // ------------------------------------------------------------------ flags

  /** `str.isupper()` on ASCII: some capital letter and no small letter. */
  predicate PyIsUpper(s: string) {
    (exists i :: 0 <= i < |s| && IsUpper(s[i])) && (forall i :: 0 <= i < |s| ==> !IsLower(s[i]))
  }

  /** The `has_headers` test for one line. */
  predicate HeaderLike(line: string) {
    PyIsUpper(Trim(line)) && |Trim(line)| > 3
  }

  /** `has_headers`: `any(...)` over the lines. */
  function HasHeaders(lines: seq<string>): (b: bool)
    ensures b <==> exists i :: 0 <= i < |lines| && HeaderLike(lines[i])
  {
    if lines == [] then false
    else
      assert forall i :: 0 < i < |lines| ==> lines[i] == lines[1..][i - 1];
      HeaderLike(lines[0]) || HasHeaders(lines[1..])
  }

  /** `has_bullets`: a bullet mark, a star or a dash anywhere. */
  predicate HasBullets(content: string) {
    ContainsChar(content, '\U{2022}') || ContainsChar(content, '*') || ContainsChar(content, '-')
  }

  /** `has_numbers`: some ASCII digit anywhere. */
  function HasNumbers(content: string): (b: bool)
    ensures b <==> exists i :: 0 <= i < |content| && IsDigit(content[i])
  {
    if content == [] then false
    else
      assert forall i :: 0 < i < |content| ==> content[i] == content[1..][i - 1];
      IsDigit(content[0]) || HasNumbers(content[1..])
  }

  /** `has_formatting`: `**`, `__` or `#` anywhere. */
  predicate HasFormatting(content: string) {
    Contains(content, "**") || Contains(content, "__") || ContainsChar(content, '#')
  }

  // ------------------------------------------------------------------ score

  /** The points before the cap: 30 for more than 50 words, 25 for headers, 15 for each other flag. */
  function Points(manyWords: bool, headers: bool, bullets: bool, numbers: bool, formatting: bool): nat {
    (if manyWords then 30 else 0) + (if headers then 25 else 0) + (if bullets then 15 else 0) +
    (if numbers then 15 else 0) + (if formatting then 15 else 0)
  }

  /**
   * The points are a multiple of 5 that never exceed 100: all five tests
   * passing give exactly 100, so the `min` that caps the score never
   * lowers it.
   */
  lemma PointsRange(manyWords: bool, headers: bool, bullets: bool, numbers: bool, formatting: bool)
    ensures var p := Points(manyWords, headers, bullets, numbers, formatting);
      p <= 100 && p % 5 == 0 && (p == 100 <==> manyWords && headers && bullets && numbers && formatting)
  {
  }

  /** What `analyze_content_quality` returns: the short answer for no content, or the full analysis. */
  datatype Quality =
    | NoContent
    | Analysed(wordCount: nat, lineCount: nat, hasHeaders: bool, hasBullets: bool, hasFormatting: bool, qualityScore: nat)

  function QualityScore(q: Quality): nat {
    if q.NoContent? then 0 else q.qualityScore
  }

  /** `len([l for l in lines if l.strip()])`. */
  function NonBlankCount(lines: seq<string>): (r: nat)
    ensures r <= |lines|
  {
    if lines == [] then 0 else (if Trim(lines[0]) != [] then 1 else 0) + NonBlankCount(lines[1..])
  }

  /**
   * `analyze_content_quality`: `None` and the empty text get all zeros;
   * otherwise the words, the non-blank lines, the flags and the score.
   */
  method AnalyzeContentQuality(content: Option<string>, libraryName: string) returns (q: Quality)
    ensures content.None? || content.value == [] <==> q.NoContent?
    ensures q.Analysed? ==>
      var c := content.value;
      var lines := Split(c, '\n');
      q.wordCount == WordCount(c) && q.lineCount == NonBlankCount(lines) &&
      q.hasHeaders == HasHeaders(lines) && q.hasBullets == HasBullets(c) && q.hasFormatting == HasFormatting(c) &&
      q.qualityScore == Points(WordCount(c) > 50, HasHeaders(lines), HasBullets(c), HasNumbers(c), HasFormatting(c))
  {
    if content.None? || content.value == [] {
      return NoContent;
    }
    var c := content.value;
    var lines := Split(c, '\n');
    var words := Words(c);
    var hasHeaders := HasHeaders(lines);
    var hasBullets := HasBullets(c);
    var hasNumbers := HasNumbers(c);
    var hasFormatting := HasFormatting(c);
    var qualityScore := 0;
    if |words| > 50 {
      qualityScore := qualityScore + 30;
    }
    if hasHeaders {
      qualityScore := qualityScore + 25;
    }
    if hasBullets {
      qualityScore := qualityScore + 15;
    }
    if hasNumbers {
      qualityScore := qualityScore + 15;
    }
    if hasFormatting {
      qualityScore := qualityScore + 15;
    }
    var capped := if qualityScore < 100 then qualityScore else 100;
    PointsRange(|words| > 50, hasHeaders, hasBullets, hasNumbers, hasFormatting);
    q := Analysed(|words|, NonBlankCount(lines), hasHeaders, hasBullets, hasFormatting, capped);
  }

  /** Every reported score lies in 0..100 and is a multiple of 5. */
  lemma ScoreRange(content: string)
    ensures var lines := Split(content, '\n');
      var p := Points(WordCount(content) > 50, HasHeaders(lines), HasBullets(content), HasNumbers(content), HasFormatting(content));
      p <= 100 && p % 5 == 0
  {
    var lines := Split(content, '\n');
    PointsRange(WordCount(content) > 50, HasHeaders(lines), HasBullets(content), HasNumbers(content), HasFormatting(content));
  }

  // ---------------------------------------------------------------- ranking

  /** One entry of `results`: the library, whether it parsed, and its analysis when it did. */
  datatype ParseResult = ParseResult(library: string, success: bool, analysis: Option<Quality>)

  /** `x.get('analysis', {}).get('quality_score', 0)`. */
  function Key(r: ParseResult): nat {
    if r.analysis.Some? then QualityScore(r.analysis.value) else 0
  }

  /** `[r for r in results if r['success']]`. */
  function Successful(results: seq<ParseResult>): seq<ParseResult> {
    if results == [] then []
    else (if results[0].success then [results[0]] else []) + Successful(results[1..])
  }

  /** Highest score first. */
  predicate Descending(l: seq<ParseResult>) {
    forall i, j :: 0 <= i < j < |l| ==> Key(l[i]) >= Key(l[j])
  }

  /** Puts `x` after every entry scoring at least as much, so equal scores keep their order. */
  function Insert(x: ParseResult, l: seq<ParseResult>): seq<ParseResult> {
    if l == [] then [x]
    else if Key(l[0]) >= Key(x) then [l[0]] + Insert(x, l[1..])
    else [x] + l
  }

  /** `sort(key=quality_score, reverse=True)`: a stable sort, highest score first. */
  function SortByScore(rs: seq<ParseResult>): seq<ParseResult> {
    if rs == [] then [] else Insert(rs[|rs| - 1], SortByScore(rs[..|rs| - 1]))
  }

  /** The entries with score `s`, in order. */
  function WithScore(l: seq<ParseResult>, s: nat): seq<ParseResult> {
    if l == [] then [] else (if Key(l[0]) == s then [l[0]] else []) + WithScore(l[1..], s)
  }

  /** The ranking of the summary report. */
  function Ranked(results: seq<ParseResult>): seq<ParseResult> {
    SortByScore(Successful(results))
  }

  /** No entry scores above `k`. */
  predicate AtMost(l: seq<ParseResult>, k: nat) {
    forall i :: 0 <= i < |l| ==> Key(l[i]) <= k
  }

  lemma {:induction false} InsertPermutes(x: ParseResult, l: seq<ParseResult>)
    ensures multiset(Insert(x, l)) == multiset(l) + multiset{x}
  {
    if l != [] && Key(l[0]) >= Key(x) {
      InsertPermutes(x, l[1..]);
      assert l == [l[0]] + l[1..];
    }
  }

  lemma {:induction false} InsertAtMost(x: ParseResult, l: seq<ParseResult>, k: nat)
    requires AtMost(l, k) && Key(x) <= k
    ensures AtMost(Insert(x, l), k)
  {
    if l != [] && Key(l[0]) >= Key(x) {
      InsertAtMost(x, l[1..], k);
      ConsAtMost(l[0], Insert(x, l[1..]), k);
    }
  }

  lemma ConsAtMost(a: ParseResult, t: seq<ParseResult>, k: nat)
    requires Key(a) <= k && AtMost(t, k)
    ensures AtMost([a] + t, k)
  {
    assert forall i :: 0 < i < |[a] + t| ==> ([a] + t)[i] == t[i - 1];
  }

  lemma ConsDescending(a: ParseResult, t: seq<ParseResult>)
    requires Descending(t) && AtMost(t, Key(a))
    ensures Descending([a] + t)
  {
    assert forall i :: 0 < i < |[a] + t| ==> ([a] + t)[i] == t[i - 1];
  }

  lemma DescendingTail(l: seq<ParseResult>)
    requires Descending(l) && l != []
    ensures Descending(l[1..]) && AtMost(l[1..], Key(l[0]))
  {
    assert forall i :: 0 <= i < |l[1..]| ==> l[1..][i] == l[i + 1];
  }

  /** Inserting into a ranking gives a ranking. */
  lemma {:induction false} InsertDescending(x: ParseResult, l: seq<ParseResult>)
    requires Descending(l)
    ensures Descending(Insert(x, l))
  {
    if l == [] {
    } else if Key(l[0]) >= Key(x) {
      DescendingTail(l);
      InsertDescending(x, l[1..]);
      InsertAtMost(x, l[1..], Key(l[0]));
      ConsDescending(l[0], Insert(x, l[1..]));
    } else {
      DescendingTail(l);
      ConsAtMost(l[0], l[1..], Key(x));
      ConsDescending(x, l);
      assert l == [l[0]] + l[1..];
    }
  }

  /**
   * Inserting into a ranking adds `x` after every entry of its own score,
   * and leaves the entries of every other score as they were.
   */
  lemma {:induction false} InsertWithScore(x: ParseResult, l: seq<ParseResult>, s: nat)
    requires Descending(l)
    ensures WithScore(Insert(x, l), s) == WithScore(l, s) + (if Key(x) == s then [x] else [])
  {
    if l == [] {
      assert WithScore([x], s) == (if Key(x) == s then [x] else []) + WithScore([], s);
    } else if Key(l[0]) >= Key(x) {
      InsertWithScore(x, l[1..], s);
      assert ([l[0]] + Insert(x, l[1..]))[1..] == Insert(x, l[1..]);
    } else {
      assert ([x] + l)[1..] == l;
      AllBelow(l, Key(x));
      if Key(x) == s {
        WithScoreNone(l, s);
      }
    }
  }

  lemma AllBelow(l: seq<ParseResult>, k: nat)
    requires Descending(l) && l != [] && Key(l[0]) < k
    ensures forall i :: 0 <= i < |l| ==> Key(l[i]) < k
  {
  }

  lemma {:induction false} WithScoreNone(l: seq<ParseResult>, s: nat)
    requires forall i :: 0 <= i < |l| ==> Key(l[i]) != s
    ensures WithScore(l, s) == []
  {
    if l != [] {
      WithScoreNone(l[1..], s);
    }
  }

  lemma {:induction false} WithScoreSnoc(l: seq<ParseResult>, x: ParseResult, s: nat)
    ensures WithScore(l + [x], s) == WithScore(l, s) + (if Key(x) == s then [x] else [])
  {
    if l == [] {
      assert [] + [x] == [x];
      assert WithScore([x], s) == (if Key(x) == s then [x] else []) + WithScore([], s);
    } else {
      assert (l + [x])[1..] == l[1..] + [x];
      WithScoreSnoc(l[1..], x, s);
    }
  }

  /**
   * The stable descending sort: highest score first, the same entries, and
   * among entries of equal score the original order.
   */
  lemma {:induction false} SortByScoreFacts(rs: seq<ParseResult>)
    ensures Descending(SortByScore(rs))
    ensures multiset(SortByScore(rs)) == multiset(rs)
    ensures forall s :: WithScore(SortByScore(rs), s) == WithScore(rs, s)
  {
    if rs != [] {
      var init := rs[..|rs| - 1];
      var x := rs[|rs| - 1];
      SortByScoreFacts(init);
      InsertDescending(x, SortByScore(init));
      InsertPermutes(x, SortByScore(init));
      assert rs == init + [x];
      forall s ensures WithScore(SortByScore(rs), s) == WithScore(rs, s) {
        InsertWithScore(x, SortByScore(init), s);
        WithScoreSnoc(init, x, s);
      }
    }
  }

  /** Only successful results are ranked, and every one of them is. */
  lemma {:induction false} SuccessfulFacts(results: seq<ParseResult>)
    ensures forall r :: r in Successful(results) <==> r in results && r.success
  {
    if results != [] {
      SuccessfulFacts(results[1..]);
      assert results == [results[0]] + results[1..];
    }
  }

  /**
   * The summary report's ranking: exactly the successful results, highest
   * score first, ties in the order the libraries ran.
   */
  lemma RankedFacts(results: seq<ParseResult>)
    ensures Descending(Ranked(results))
    ensures multiset(Ranked(results)) == multiset(Successful(results))
    ensures forall r :: r in Ranked(results) <==> r in results && r.success
    ensures forall s :: WithScore(Ranked(results), s) == WithScore(Successful(results), s)
  {
    SortByScoreFacts(Successful(results));
    SuccessfulFacts(results);
    forall r ensures r in Ranked(results) <==> r in Successful(results) {
      assert r in Ranked(results) <==> r in multiset(Ranked(results));
    }
  }
}
