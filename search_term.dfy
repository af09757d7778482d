/**
 * The PDF side panel (client/src/components/SimplePDFViewer.tsx): the search
 * term derived from a section's title, with its fallback to the section's
 * first long content words, and the file-name test that decides whether a
 * preview is offered.
 */
module SearchTerm {
  import opened Strings
  import opened Tree

  // ---------------------------------------------------------- title clean-up

  /** Removes the leading run of `c`. */
  function DropRun(s: string, c: char): (r: string)
    ensures |r| <= |s| && r == s[|s| - |r|..]
    ensures forall i :: 0 <= i < |s| - |r| ==> s[i] == c
    ensures r == [] || r[0] != c
  {
    if s != [] && s[0] == c then DropRun(s[1..], c) else s
  }

  /**
   * `replace(/^#+\s*\/, '')`: a title starting with `#` loses its run of
   * `#` and the whitespace after it; any other title is left alone.
   */
  function DropHeadingMarks(s: string): (r: string)
    ensures s == [] || s[0] != '#' ==> r == s
    ensures s != [] && s[0] == '#' ==> |r| < |s| && r == s[|s| - |r|..] && (r == [] || !IsSpace(r[0]))
    ensures s != [] && s[0] == '#' ==> exists j :: MarksThen(s, r, j)
  {
    if s != [] && s[0] == '#' then
      var t := DropRun(s, '#');
      TrimStartSplit(t);
      SuffixOfSuffix(s, t, TrimStart(t));
      MarksThenAt(s, t, TrimStart(t));
      assert MarksThen(s, TrimStart(t), |s| - |t|);
      TrimStart(t)
    else s
  }

  /**
   * What the regex removes from `s` to leave `r`: a run of `j >= 1` hashes
   * that stops at the first non-`#`, then only whitespace.
   */
  predicate MarksThen(s: string, r: string, j: int) {
    1 <= j <= |s| - |r| &&
    (forall i :: 0 <= i < j ==> s[i] == '#') &&
    AllSpace(s[j..|s| - |r|]) &&
    (j < |s| ==> s[j] != '#')
  }

  lemma MarksThenAt(s: string, t: string, r: string)
    requires s != [] && s[0] == '#'
    requires |t| <= |s| && t == s[|s| - |t|..] && (t == [] || t[0] != '#')
    requires forall i :: 0 <= i < |s| - |t| ==> s[i] == '#'
    requires |r| <= |t| && t == t[..|t| - |r|] + r && AllSpace(t[..|t| - |r|])
    ensures MarksThen(s, r, |s| - |t|)
  {
    var j := |s| - |t|;
    if j < |s| {
      assert s[j] == t[0];
    }
    assert s[j..|s| - |r|] == t[..|t| - |r|];
  }

  lemma SuffixOfSuffix(s: string, t: string, r: string)
    requires |t| <= |s| && t == s[|s| - |t|..]
    requires |r| <= |t| && t == t[..|t| - |r|] + r
    ensures r == s[|s| - |r|..]
  {
    assert r == t[|t| - |r|..];
  }

  /** `replace(/\*\*\/g, '')`: every `**`, matched from the left, removed. */
  function RemoveDoubleStars(s: string): string
    decreases |s|
  {
    if |s| >= 2 && s[0] == '*' && s[1] == '*' then RemoveDoubleStars(s[2..])
    else if s == [] then []
    else [s[0]] + RemoveDoubleStars(s[1..])
  }

  /** `replace(/c/g, '')`: every `c` removed, the rest in order. */
  function RemoveChar(s: string, c: char): (r: string)
    ensures NoChar(r, c)
  {
    if s == [] then []
    else (if s[0] == c then [] else [s[0]]) + RemoveChar(s[1..], c)
  }

  /** `replace(/\s+/g, ' ')`: each run of whitespace becomes one space. */
  function CollapseSpaces(s: string): (r: string)
    ensures r == [] <==> s == []
    ensures r != [] ==> (IsSpace(r[0]) <==> IsSpace(s[0]))
    decreases |s|
  {
    if s == [] then []
    else if IsSpace(s[0]) then [' '] + CollapseSpaces(TrimStart(s[1..]))
    else [s[0]] + CollapseSpaces(s[1..])
  }

  /** The title after the four markdown replacements, the space normalisation and `trim`. */
  function CleanTitle(title: string): string {
    Trim(CollapseSpaces(RemoveChar(RemoveChar(RemoveDoubleStars(DropHeadingMarks(title)), '*'), '_')))
  }

  // ---------------------------------------------------------- the fallback

  /** `filter(word => word.length > 3)`. */
  function LongWords(ws: seq<string>): (r: seq<string>)
    ensures |r| <= |ws|
    ensures forall i :: 0 <= i < |r| ==> |r[i]| > 3 && r[i] in ws
  {
    if ws == [] then []
    else (if |ws[0]| > 3 then [ws[0]] else []) + LongWords(ws[1..])
  }

  /** `slice(0, 3)`. */
  function FirstThree(ws: seq<string>): (r: seq<string>)
    ensures |r| == if |ws| < 3 then |ws| else 3
    ensures r == ws[..|r|]
  {
    if |ws| < 3 then ws else ws[..3]
  }

  /**
   * `getSearchTerm`: the cleaned title; but a cleaned title shorter than
   * five characters, on a section with content, gives way to the first
   * three content words longer than three characters, when there is one.
   */
  function GetSearchTerm(node: TreeNode): (r: string)
    ensures r == CleanTitle(node.title) ||
      (|CleanTitle(node.title)| < 5 && 1 <= |Split(r, ' ')| <= 3 &&
       forall k :: 0 <= k < |Split(r, ' ')| ==> |Split(r, ' ')[k]| > 3 && Split(r, ' ')[k] in Split(node.content, ' '))
  {
    var t := CleanTitle(node.title);
    if |t| < 5 && node.content != [] then
      var contentWords := LongWords(Split(node.content, ' '));
      if |contentWords| > 0 then
        PickedWords(node.content);
        Join(FirstThree(contentWords), " ")
      else t
    else t
  }

  /** The first three long words, joined by spaces, split back into themselves. */
  lemma PickedWords(content: string)
    requires LongWords(Split(content, ' ')) != []
    ensures var ws := Split(content, ' '); Split(Join(FirstThree(LongWords(ws)), " "), ' ') == FirstThree(LongWords(ws))
  {
    var ws := Split(content, ' ');
    var picked := FirstThree(LongWords(ws));
    forall k | 0 <= k < |picked| ensures NoChar(picked[k], ' ') {
      assert picked[k] in ws;
    }
    SplitJoin(picked, ' ');
  }

  /** `originalFilename.toLowerCase().endsWith('.pdf')`: the last four characters are `.pdf` in any case. */
  predicate OffersPreview(originalFilename: string): (r: bool)
    ensures r <==> |originalFilename| >= 4 && ToLower(originalFilename[|originalFilename| - 4..]) == ".pdf"
  {
    LowerTail(originalFilename, 4);
    EndsWith(ToLower(originalFilename), ".pdf")
  }

  lemma LowerTail(s: string, n: nat)
    ensures n <= |s| ==> ToLower(s)[|s| - n..] == ToLower(s[|s| - n..])
  {
  }

  // ------------------------------------------------------------ the lemmas

  /**
   * The bold and the italic step together remove exactly the stars: after
   * both, the title is the original with every `*` dropped.
   */
  lemma {:induction false} StarsRemoved(s: string)
    ensures RemoveChar(RemoveDoubleStars(s), '*') == RemoveChar(s, '*')
    decreases |s|
  {
    if |s| >= 2 && s[0] == '*' && s[1] == '*' {
      StarsRemoved(s[2..]);
      assert s[1..][1..] == s[2..];
    } else if s != [] {
      StarsRemoved(s[1..]);
    }
  }

  /** The non-whitespace characters of `s`, in order. */
  function NonSpace(s: string): string {
    if s == [] then [] else (if IsSpace(s[0]) then [] else [s[0]]) + NonSpace(s[1..])
  }

  lemma {:induction false} NonSpaceOfSpaces(w: string, s: string)
    requires AllSpace(w)
    ensures NonSpace(w + s) == NonSpace(s)
  {
    if w != [] {
      assert (w + s)[0] == w[0] && IsSpace(w[0]);
      assert (w + s)[1..] == w[1..] + s;
      assert AllSpace(w[1..]) by {
        assert forall i :: 0 <= i < |w[1..]| ==> w[1..][i] == w[i + 1];
      }
      NonSpaceOfSpaces(w[1..], s);
      assert NonSpace(w + s) == NonSpace((w + s)[1..]);
    } else {
      assert w + s == s;
    }
  }

  /** Normalising spaces keeps every other character, in order. */
  lemma {:induction false} CollapseKeepsText(s: string)
    ensures NonSpace(CollapseSpaces(s)) == NonSpace(s)
    decreases |s|
  {
    if s != [] {
      if IsSpace(s[0]) {
        var t := TrimStart(s[1..]);
        CollapseKeepsText(t);
        TrimStartSplit(s[1..]);
        NonSpaceOfSpaces(s[1..][..|s[1..]| - |t|], t);
      } else {
        CollapseKeepsText(s[1..]);
      }
    }
  }

  lemma {:induction false} NonSpaceAppend(a: string, b: string)
    ensures NonSpace(a + b) == NonSpace(a) + NonSpace(b)
  {
    if a == [] {
      assert a + b == b;
    } else {
      assert (a + b)[1..] == a[1..] + b;
      NonSpaceAppend(a[1..], b);
    }
  }

  /** `trim` removes only whitespace. */
  lemma TrimKeepsText(s: string)
    ensures NonSpace(Trim(s)) == NonSpace(s)
  {
    var t := TrimStart(s);
    TrimStartSplit(s);
    TrimEndSplit(t);
    NonSpaceAppend(s[..|s| - |t|], t);
    NonSpaceOfSpaces(s[..|s| - |t|], []);
    NonSpaceAppend(Trim(s), t[|Trim(s)|..]);
    NonSpaceOfSpaces(t[|Trim(s)|..], []);
    assert s[..|s| - |t|] + [] == s[..|s| - |t|];
    assert t[|Trim(s)|..] + [] == t[|Trim(s)|..];
  }

  /**
   * On a title that does not start with `#`, cleaning removes only the
   * stars, the underscores and whitespace: every other character survives,
   * in order.
   */
  lemma CleanTitleKeepsText(title: string)
    requires title == [] || title[0] != '#'
    ensures NonSpace(CleanTitle(title)) == NonSpace(RemoveChar(RemoveChar(title, '*'), '_'))
  {
    StarsRemoved(title);
    var s2 := RemoveChar(RemoveChar(RemoveDoubleStars(title), '*'), '_');
    CollapseKeepsText(s2);
    TrimKeepsText(CollapseSpaces(s2));
  }

  /** Single spacing: every whitespace character is a space and no two are adjacent. */
  predicate SingleSpaced(s: string) {
    (forall i :: 0 <= i < |s| && IsSpace(s[i]) ==> s[i] == ' ') &&
    (forall i :: 0 <= i < |s| - 1 ==> !(IsSpace(s[i]) && IsSpace(s[i + 1])))
  }

  lemma {:induction false} CollapseSingleSpaced(s: string)
    ensures SingleSpaced(CollapseSpaces(s))
    decreases |s|
  {
    if s != [] {
      var rest := if IsSpace(s[0]) then TrimStart(s[1..]) else s[1..];
      CollapseSingleSpaced(rest);
      var r := CollapseSpaces(s);
      var tail := CollapseSpaces(rest);
      assert r == [r[0]] + tail;
      assert forall i :: 1 <= i < |r| ==> r[i] == tail[i - 1];
    }
  }

  /** `trim` takes a contiguous piece of the string, starting where `TrimStart` does. */
  lemma TrimIsSlice(s: string)
    ensures var a := |s| - |TrimStart(s)|;
      a + |Trim(s)| <= |s| && Trim(s) == s[a..a + |Trim(s)|]
  {
    var t := TrimStart(s);
    TrimStartSplit(s);
    TrimEndSplit(t);
    var a := |s| - |t|;
    var r := Trim(s);
    assert r == t[..|r|] by {
      assert t == r + t[|r|..];
    }
    assert t == s[a..] by {
      assert s == s[..a] + t;
    }
    assert s[a..][..|r|] == s[a..a + |r|];
  }

  lemma SliceKeeps(s: string, a: int, n: int)
    requires 0 <= a <= a + n <= |s| && SingleSpaced(s) && NoChar(s, '*') && NoChar(s, '_')
    ensures var t := s[a..a + n]; SingleSpaced(t) && NoChar(t, '*') && NoChar(t, '_')
  {
    var t := s[a..a + n];
    assert forall i :: 0 <= i < |t| ==> t[i] == s[a + i];
  }

  lemma {:induction false} TrimStartNoChar(s: string, c: char)
    requires NoChar(s, c)
    ensures NoChar(TrimStart(s), c)
  {
    if s != [] && IsSpace(s[0]) {
      assert NoChar(s[1..], c) by {
        assert forall i :: 0 <= i < |s[1..]| ==> s[1..][i] == s[i + 1];
      }
      TrimStartNoChar(s[1..], c);
    }
  }

  lemma NoCharCons(h: char, t: string, c: char)
    requires h != c && NoChar(t, c)
    ensures NoChar([h] + t, c)
  {
    assert forall i :: 1 <= i < |[h] + t| ==> ([h] + t)[i] == t[i - 1];
  }

  /** Normalising spaces brings in no character other than a space. */
  lemma {:induction false} CollapseNoChar(s: string, c: char)
    requires NoChar(s, c) && c != ' '
    ensures NoChar(CollapseSpaces(s), c)
    decreases |s|
  {
    if s != [] {
      assert NoChar(s[1..], c) by {
        assert forall i :: 0 <= i < |s[1..]| ==> s[1..][i] == s[i + 1];
      }
      if IsSpace(s[0]) {
        TrimStartNoChar(s[1..], c);
        CollapseNoChar(TrimStart(s[1..]), c);
        NoCharCons(' ', CollapseSpaces(TrimStart(s[1..])), c);
      } else {
        CollapseNoChar(s[1..], c);
        NoCharCons(s[0], CollapseSpaces(s[1..]), c);
      }
    }
  }

  lemma RemoveCharKeeps(s: string, c: char, d: char)
    requires NoChar(s, d)
    ensures NoChar(RemoveChar(s, c), d)
  {
    if s != [] {
      RemoveCharKeeps(s[1..], c, d);
    }
  }

  /**
   * A cleaned title has no `*` or `_`, is trimmed, and is single spaced:
   * only plain spaces, never two in a row.
   */
  lemma CleanTitleFacts(title: string)
    ensures var t := CleanTitle(title);
      NoChar(t, '*') && NoChar(t, '_') && IsTrimmed(t) && SingleSpaced(t)
  {
    var s1 := RemoveChar(RemoveDoubleStars(DropHeadingMarks(title)), '*');
    var s2 := RemoveChar(s1, '_');
    RemoveCharKeeps(s1, '_', '*');
    var s3 := CollapseSpaces(s2);
    CollapseNoChar(s2, '*');
    CollapseNoChar(s2, '_');
    CollapseSingleSpaced(s2);
    TrimIsSlice(s3);
    SliceKeeps(s3, |s3| - |TrimStart(s3)|, |Trim(s3)|);
  }

  /** A cleaned title of five or more characters is the term, whatever the content. */
  lemma LongTitleWins(node: TreeNode, content: string)
    requires |CleanTitle(node.title)| >= 5
    ensures GetSearchTerm(node) == CleanTitle(node.title)
    ensures GetSearchTerm(node.(content := content)) == GetSearchTerm(node)
  {
  }

  /** Without content, or without a content word longer than three characters, the title stays. */
  lemma TitleKept(node: TreeNode)
    requires node.content == [] || LongWords(Split(node.content, ' ')) == []
    ensures GetSearchTerm(node) == CleanTitle(node.title)
  {
  }

  /**
   * When the fallback applies, splitting the term on spaces gives back
   * exactly the first (up to) three content words longer than three
   * characters.
   */
  lemma FallbackWords(node: TreeNode)
    requires |CleanTitle(node.title)| < 5 && node.content != []
    requires LongWords(Split(node.content, ' ')) != []
    ensures Split(GetSearchTerm(node), ' ') == FirstThree(LongWords(Split(node.content, ' ')))
  {
    PickedWords(node.content);
  }

  /** The preview test ignores case: a name and its lower-case form get the same answer. */
  lemma {:induction false} PreviewIgnoresCase(name: string)
    ensures OffersPreview(ToLower(name)) == OffersPreview(name)
  {
    LowerIdempotent(name);
  }

  lemma {:induction false} LowerIdempotent(s: string)
    ensures ToLower(ToLower(s)) == ToLower(s)
  {
    forall i | 0 <= i < |s| ensures LowerChar(LowerChar(s[i])) == LowerChar(s[i]) {}
  }
}
