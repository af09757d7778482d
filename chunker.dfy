/**
 * The chunk generator of the export step
 * (deployments/firebase-cloud/client/src/components/ChunkExporter.tsx):
 * `generateChunks` walks the forest in pre-order and pushes token-bounded
 * chunks, splitting an oversized section on sentence ends with a tail of
 * the closed part carried over; plus the option clamps and the token total.
 */
module Chunker {
  import opened Strings
  import opened Tokens
  import opened Tree
  import opened MarkdownWriter

  // ------------------------------------------------------- options

  datatype ChunkingOptions = ChunkingOptions(maxTokens: int, overlapTokens: int, preserveHeaders: bool, includeMetadata: bool)

  /** The initial options. */
  const DefaultOptions := ChunkingOptions(1000, 100, true, true)

  /**
   * `Math.max(100, parseInt(value) || 1000)`: `parsed` is what `parseInt`
   * gives, `None` standing for `NaN`.
   */
  function ClampMaxTokens(parsed: Option<int>): (r: int)
    ensures r >= 100
    ensures parsed.None? || parsed.value == 0 ==> r == 1000
    ensures parsed.Some? && parsed.value != 0 ==> r == if parsed.value < 100 then 100 else parsed.value
  {
    var v := if parsed.None? || parsed.value == 0 then 1000 else parsed.value;
    if v < 100 then 100 else v
  }

  /** `Math.max(0, parseInt(value) || 100)`. */
  function ClampOverlapTokens(parsed: Option<int>): (r: int)
    ensures r >= 0
    ensures parsed.None? || parsed.value == 0 ==> r == 100
    ensures parsed.Some? && parsed.value != 0 ==> r == if parsed.value < 0 then 0 else parsed.value
  {
    var v := if parsed.None? || parsed.value == 0 then 100 else parsed.value;
    if v < 0 then 0 else v
  }

  // ------------------------------------------------------- sentences

  predicate IsSentenceEnd(c: char) {
    c == '.' || c == '!' || c == '?'
  }

  /** Position `i` starts a match of `(?<=[.!?])\s+`. */
  predicate BreakAt(s: string, i: int) {
    0 < i < |s| && IsSentenceEnd(s[i - 1]) && IsSpace(s[i])
  }

  /** The first match position at or after `i`, or `|s|`. */
  function FirstBreak(s: string, i: nat): (k: nat)
    requires i <= |s|
    ensures i <= k <= |s|
    decreases |s| - i
  {
    if i == |s| || BreakAt(s, i) then i else FirstBreak(s, i + 1)
  }

  lemma {:induction false} FirstBreakFirst(s: string, i: nat, j: nat)
    requires i <= |s| && i <= j < FirstBreak(s, i)
    ensures !BreakAt(s, j)
    decreases |s| - i
  {
    if j > i {
      FirstBreakFirst(s, i + 1, j);
    }
  }

  lemma {:induction false} FirstBreakFound(s: string, i: nat)
    requires i <= |s| && FirstBreak(s, i) < |s|
    ensures BreakAt(s, FirstBreak(s, i))
    decreases |s| - i
  {
    if !BreakAt(s, i) {
      FirstBreakFound(s, i + 1);
    }
  }

  /** The end of the whitespace run starting at `i`. */
  function RunEnd(s: string, i: nat): (j: nat)
    requires i <= |s|
    ensures i <= j <= |s|
    decreases |s| - i
  {
    if i < |s| && IsSpace(s[i]) then RunEnd(s, i + 1) else i
  }

  lemma {:induction false} RunEndStops(s: string, i: nat)
    requires i <= |s|
    ensures RunEnd(s, i) < |s| ==> !IsSpace(s[RunEnd(s, i)])
    ensures forall m :: i <= m < RunEnd(s, i) ==> IsSpace(s[m])
    decreases |s| - i
  {
    if i < |s| && IsSpace(s[i]) {
      RunEndStops(s, i + 1);
    }
  }

  /**
   * `s.split(/(?<=[.!?])\s+/)`: cut at every whitespace run that follows a
   * `.`, `!` or `?`, dropping the run; the empty string gives `[""]`.
   */
  function Sentences(s: string): (r: seq<string>)
    ensures |r| >= 1
    decreases |s|
  {
    if s == [] then [s]
    else
      var k := FirstBreak(s, 1);
      if k == |s| then [s] else [s[..k]] + Sentences(s[RunEnd(s, k)..])
  }

  /** Every sentence but the last ends with `.`, `!` or `?`. */
  predicate EndsMarked(r: seq<string>) {
    forall i :: 0 <= i < |r| - 1 ==> r[i] != [] && IsSentenceEnd(r[i][|r[i]| - 1])
  }

  /** No sentence contains a cut position. */
  predicate NoInnerBreak(r: seq<string>) {
    forall i, j :: 0 <= i < |r| && 0 <= j < |r[i]| ==> !BreakAt(r[i], j)
  }

  /** The split leaves no cut inside a sentence, and each sentence but the last ends a sentence. */
  lemma {:induction false} SentencesShape(s: string)
    ensures EndsMarked(Sentences(s)) && NoInnerBreak(Sentences(s))
    decreases |s|
  {
    if s != [] {
      var k := FirstBreak(s, 1);
      if k == |s| {
        forall j | 0 <= j < |s| ensures !BreakAt(s, j) {
          if j >= 1 { FirstBreakFirst(s, 1, j); }
        }
        assert Sentences(s) == [s];
      } else {
        FirstBreakFound(s, 1);
        var t := s[RunEnd(s, k)..];
        SentencesShape(t);
        var head := s[..k];
        forall j | 0 <= j < |head| ensures !BreakAt(head, j) {
          if j >= 1 { FirstBreakFirst(s, 1, j); }
        }
        SentencesCons(head, Sentences(t));
      }
    }
  }

  /** The shape facts carry over to a list with one more sentence in front. */
  lemma SentencesCons(head: string, rest: seq<string>)
    requires head != [] && IsSentenceEnd(head[|head| - 1]) && |rest| >= 1
    requires forall j :: 0 <= j < |head| ==> !BreakAt(head, j)
    requires EndsMarked(rest) && NoInnerBreak(rest)
    ensures EndsMarked([head] + rest) && NoInnerBreak([head] + rest)
  {
    var r := [head] + rest;
    forall i | 0 < i < |r| ensures r[i] == rest[i - 1] {}
  }

  /** On trimmed non-empty content every sentence is non-empty and trimmed. */
  lemma {:induction false} SentencesTrimmed(s: string)
    requires s != [] && IsTrimmed(s)
    ensures forall i :: 0 <= i < |Sentences(s)| ==> Sentences(s)[i] != [] && IsTrimmed(Sentences(s)[i])
    decreases |s|
  {
    var k := FirstBreak(s, 1);
    if k < |s| {
      FirstBreakFound(s, 1);
      RunEndStops(s, k);
      var j := RunEnd(s, k);
      assert j < |s|;
      var t := s[j..];
      SentencesTrimmed(t);
      var r := Sentences(s);
      assert r == [s[..k]] + Sentences(t);
      forall i | 0 <= i < |r| ensures r[i] != [] && IsTrimmed(r[i]) {
        if i > 0 { assert r[i] == Sentences(t)[i - 1]; }
      }
    }
  }

  /** Every cut is a single space: the whitespace after each sentence end is exactly one `' '`. */
  predicate SingleSpaceCuts(s: string) {
    forall i :: 0 < i < |s| && BreakAt(s, i) ==> s[i] == ' ' && (i + 1 == |s| || !IsSpace(s[i + 1]))
  }

  /** When every cut drops exactly one space, joining the sentences with `" "` gives the text back. */
  lemma {:induction false} SentencesJoin(s: string)
    requires SingleSpaceCuts(s)
    ensures Join(Sentences(s), " ") == s
    decreases |s|
  {
    if s != [] {
      var k := FirstBreak(s, 1);
      if k < |s| {
        SingleCut(s, k);
        var t := s[k + 1..];
        SentencesJoin(t);
        JoinBack(s, k, Sentences(t));
      }
    }
  }

  /** At a single-space cut the split continues right after that space, and the rest is single-spaced too. */
  lemma SingleCut(s: string, k: nat)
    requires SingleSpaceCuts(s) && s != [] && k == FirstBreak(s, 1) < |s|
    ensures s[k] == ' ' && Sentences(s) == [s[..k]] + Sentences(s[k + 1..]) && SingleSpaceCuts(s[k + 1..])
  {
    FirstBreakFound(s, 1);
    assert RunEnd(s, k) == k + 1 by {
      assert s[k] == ' ' && (k + 1 == |s| || !IsSpace(s[k + 1]));
      assert RunEnd(s, k) == RunEnd(s, k + 1);
    }
    var t := s[k + 1..];
    forall i | 0 < i < |t| && BreakAt(t, i) ensures t[i] == ' ' && (i + 1 == |t| || !IsSpace(t[i + 1])) {
      assert BreakAt(s, k + 1 + i);
    }
  }

  lemma JoinBack(s: string, k: nat, rest: seq<string>)
    requires k < |s| && s[k] == ' ' && rest != [] && Join(rest, " ") == s[k + 1..]
    ensures Join([s[..k]] + rest, " ") == s
  {
    JoinCons(s[..k], rest, " ");
    assert s == s[..k] + " " + s[k + 1..];
  }

  // ------------------------------------------------------- overlap

  /** `words.slice(-n)`: the last `n` words, and all of them when `n` is 0 (`slice(-0)` is `slice(0)`). */
  function LastWords(ws: seq<string>, n: nat): (r: seq<string>)
    ensures |r| <= |ws| && r == ws[|ws| - |r|..]
    ensures |r| == if n == 0 || n >= |ws| then |ws| else n
  {
    if n == 0 || n >= |ws| then ws else ws[|ws| - n..]
  }

  /** The overlap carried into the next part: the last `floor(overlapTokens / 4)` space-separated words. */
  function Overlap(buffer: string, overlapTokens: int): string {
    if overlapTokens > 0 then Join(LastWords(Split(buffer, ' '), overlapTokens / 4), " ") else ""
  }

  lemma {:induction false} JoinTail(ws: seq<string>, m: nat, sep: string)
    requires m < |ws|
    ensures EndsWith(Join(ws, sep), Join(ws[m..], sep))
    decreases m
  {
    if m > 0 {
      JoinTail(ws[1..], m - 1, sep);
      assert ws[1..][m - 1..] == ws[m..];
      var a, b := Join(ws, sep), Join(ws[1..], sep);
      assert a == ws[0] + sep + b;
      assert a[|a| - |b|..] == b;
    }
  }

  /** The overlap is always a tail of the closed buffer. */
  lemma OverlapIsTail(buffer: string, overlapTokens: int)
    ensures EndsWith(buffer, Overlap(buffer, overlapTokens))
  {
    if overlapTokens > 0 {
      var ws := Split(buffer, ' ');
      JoinSplit(buffer, ' ');
      var r := LastWords(ws, overlapTokens / 4);
      JoinTail(ws, |ws| - |r|, " ");
      assert ws[|ws| - |r|..] == r;
    }
  }

  /** An overlap of 1 to 3 tokens asks for `slice(-0)`, which keeps the whole buffer. */
  lemma OverlapWholeBuffer(buffer: string, overlapTokens: int)
    requires 1 <= overlapTokens <= 3
    ensures Overlap(buffer, overlapTokens) == buffer
  {
    JoinSplit(buffer, ' ');
  }

  /**
   * From 4 tokens up, the overlap's space-separated words are exactly the
   * last `min(floor(overlapTokens / 4), word count)` words of the buffer.
   */
  lemma OverlapWords(buffer: string, overlapTokens: int)
    requires overlapTokens >= 4
    ensures var ws := Split(buffer, ' ');
      var m := if overlapTokens / 4 < |ws| then overlapTokens / 4 else |ws|;
      Split(Overlap(buffer, overlapTokens), ' ') == ws[|ws| - m..]
  {
    var ws := Split(buffer, ' ');
    var r := LastWords(ws, overlapTokens / 4);
    TailNoChar(ws, |ws| - |r|, ' ');
    assert " " == [' '];
    SplitJoin(r, ' ');
  }

  lemma TailNoChar(ws: seq<string>, i: nat, d: char)
    requires i <= |ws| && forall k :: 0 <= k < |ws| ==> NoChar(ws[k], d)
    ensures forall k :: 0 <= k < |ws[i..]| ==> NoChar(ws[i..][k], d)
  {
  }

  // ------------------------------------------------------- the walk

  /** The chunks pushed so far and the next value of the `chunkId` counter. */
  datatype Walk = Walk(chunks: seq<DocumentChunk>, chunkId: nat)

  /** The open part of a section being split: the walk, `currentChunk`, `currentTokens`, `chunkCount`. */
  datatype Buffer = Buffer(w: Walk, current: string, tokens: int, count: nat)

  function ChunkName(k: nat): string {
    "chunk-" + NatToString(k)
  }

  function PartTitle(title: string, k: nat): string {
    title + " (Part " + NatToString(k) + ")"
  }

  function ParentIdOf(parent: Option<DocumentChunk>): Option<string> {
    if parent.Some? then Some(parent.value.id) else None
  }

  function LastChunk(cs: seq<DocumentChunk>): Option<DocumentChunk> {
    if cs == [] then None else Some(cs[|cs| - 1])
  }

  /** `'#'.repeat(level) + ' ' + title` and a blank line, or nothing when headers are not kept. */
  function HeaderText(o: ChunkingOptions, n: TreeNode): string {
    if o.preserveHeaders then Hashes(n.level) + " " + n.title + "\n\n" else ""
  }

  /** `chunks.push({id: 'chunk-' + chunkId++, ...})`. */
  function Emit(w: Walk, title: string, content: string, level: int, tokens: int, parent: Option<DocumentChunk>): Walk {
    Walk(w.chunks + [DocumentChunk(ChunkName(w.chunkId), title, content, level, tokens, ParentIdOf(parent))], w.chunkId + 1)
  }

  /** The test that closes the open part before a sentence. */
  predicate Closes(o: ChunkingOptions, header: string, b: Buffer, sentence: string) {
    b.tokens + EstimateTokens(sentence) > o.maxTokens && Trim(b.current) != Trim(header)
  }

  /** `currentChunk.endsWith(headerText.trim()) ? '' : ' '`. */
  function Separator(current: string, header: string): string {
    if EndsWith(current, Trim(header)) then "" else " "
  }

  /** One pass of the sentence loop. */
  function SentenceStep(o: ChunkingOptions, n: TreeNode, header: string, parent: Option<DocumentChunk>,
                        b: Buffer, sentence: string): Buffer {
    if Closes(o, header, b, sentence) then
      var w := Emit(b.w, PartTitle(n.title, b.count), Trim(b.current), n.level, b.tokens, parent);
      var overlap := Overlap(b.current, o.overlapTokens);
      var next := header + overlap + (if overlap != "" then " " else "") + sentence;
      Buffer(w, next, EstimateTokens(next), b.count + 1)
    else
      Buffer(b.w, b.current + Separator(b.current, header) + sentence, b.tokens + EstimateTokens(sentence), b.count)
  }

  /** The sentence loop over `ss`. */
  function SentenceFold(o: ChunkingOptions, n: TreeNode, header: string, parent: Option<DocumentChunk>,
                        b: Buffer, ss: seq<string>): Buffer {
    if ss == [] then b
    else SentenceStep(o, n, header, parent, SentenceFold(o, n, header, parent, b, ss[..|ss| - 1]), ss[|ss| - 1])
  }

  /** The final push after the loop, when the open part holds more than the header. */
  function FinishSplit(n: TreeNode, header: string, parent: Option<DocumentChunk>, b: Buffer): Walk {
    if Trim(b.current) != Trim(header) then
      Emit(b.w, if b.count > 1 then PartTitle(n.title, b.count) else n.title, Trim(b.current), n.level, b.tokens, parent)
    else b.w
  }

  /** The chunks one node pushes before its children are visited. */
  function NodeOwn(o: ChunkingOptions, n: TreeNode, parent: Option<DocumentChunk>, w: Walk): Walk {
    var header := HeaderText(o, n);
    var full := header + Trim(n.content);
    var tokenCount := EstimateTokens(full);
    if tokenCount <= o.maxTokens then Emit(w, n.title, Trim(full), n.level, tokenCount, parent)
    else
      var start := Buffer(w, header, EstimateTokens(header), 1);
      FinishSplit(n, header, parent, SentenceFold(o, n, header, parent, start, Sentences(Trim(n.content))))
  }

  /**
   * `processNode` on each node of `nodes` in turn, all under `parent`: the
   * node's own chunks, then its children under the last chunk pushed so far.
   */
  function ProcessForest(o: ChunkingOptions, nodes: seq<TreeNode>, parent: Option<DocumentChunk>, w: Walk): Walk
    decreases nodes
  {
    if nodes == [] then w
    else
      var before := ProcessForest(o, nodes[..|nodes| - 1], parent, w);
      var n := nodes[|nodes| - 1];
      var own := NodeOwn(o, n, parent, before);
      ProcessForest(o, n.children, LastChunk(own.chunks), own)
  }

  /** What `generateChunks` returns. */
  function ChunksOf(o: ChunkingOptions, tree: seq<TreeNode>): seq<DocumentChunk> {
    ProcessForest(o, tree, None, Walk([], 1)).chunks
  }

  // ------------------------------------------------------- the methods

  /** `processNode`, with the closure's `chunks` and `chunkId` passed in and out. */
  method ProcessNode(o: ChunkingOptions, node: TreeNode, parentChunk: Option<DocumentChunk>,
                     chunksIn: seq<DocumentChunk>, chunkIdIn: nat)
    returns (chunks: seq<DocumentChunk>, chunkId: nat)
    ensures Walk(chunks, chunkId) == ProcessForest(o, [node], parentChunk, Walk(chunksIn, chunkIdIn))
    decreases node
  {
    chunks, chunkId := chunksIn, chunkIdIn;
    var nodeContent := Trim(node.content);
    var headerText := if o.preserveHeaders then Hashes(node.level) + " " + node.title + "\n\n" else "";
    var fullContent := headerText + nodeContent;
    var tokenCount := EstimateTokens(fullContent);
    var parentId := if parentChunk.Some? then Some(parentChunk.value.id) else None;
    if tokenCount <= o.maxTokens {
      chunks := chunks + [DocumentChunk(ChunkName(chunkId), node.title, Trim(fullContent), node.level, tokenCount, parentId)];
      chunkId := chunkId + 1;
    } else {
      chunks, chunkId := SplitSection(o, node, headerText, parentChunk, chunks, chunkId);
    }
    ghost var own := Walk(chunks, chunkId);
    assert own == NodeOwn(o, node, parentChunk, Walk(chunksIn, chunkIdIn));
    var lastChunk := if |chunks| > 0 then Some(chunks[|chunks| - 1]) else None;
    for i := 0 to |node.children|
      invariant Walk(chunks, chunkId) == ProcessForest(o, node.children[..i], lastChunk, own)
    {
      ghost var before := Walk(chunks, chunkId);
      chunks, chunkId := ProcessNode(o, node.children[i], lastChunk, chunks, chunkId);
      ForestStep(o, node.children, i, lastChunk, own, before);
    }
    assert node.children[..|node.children|] == node.children;
    ForestSingle(o, node, parentChunk, Walk(chunksIn, chunkIdIn));
  }

  /** The branch of `processNode` for a section over the limit: the sentence loop and the final push. */
  method SplitSection(o: ChunkingOptions, node: TreeNode, headerText: string, parentChunk: Option<DocumentChunk>,
                      chunksIn: seq<DocumentChunk>, chunkIdIn: nat)
    returns (chunks: seq<DocumentChunk>, chunkId: nat)
    ensures Walk(chunks, chunkId) == FinishSplit(node, headerText, parentChunk,
      SentenceFold(o, node, headerText, parentChunk, Buffer(Walk(chunksIn, chunkIdIn), headerText, EstimateTokens(headerText), 1),
        Sentences(Trim(node.content))))
  {
    chunks, chunkId := chunksIn, chunkIdIn;
    var parentId := if parentChunk.Some? then Some(parentChunk.value.id) else None;
    var nodeContent := Trim(node.content);
    var sentences := Sentences(nodeContent);
    var currentChunk := headerText;
    var currentTokens := EstimateTokens(headerText);
    var chunkCount: nat := 1;
    ghost var start := Buffer(Walk(chunksIn, chunkIdIn), headerText, currentTokens, 1);
    for i := 0 to |sentences|
      invariant Buffer(Walk(chunks, chunkId), currentChunk, currentTokens, chunkCount) ==
        SentenceFold(o, node, headerText, parentChunk, start, sentences[..i])
    {
      ghost var b := Buffer(Walk(chunks, chunkId), currentChunk, currentTokens, chunkCount);
      var sentence := sentences[i];
      var sentenceTokens := EstimateTokens(sentence);
      if currentTokens + sentenceTokens > o.maxTokens && Trim(currentChunk) != Trim(headerText) {
        chunks := chunks + [DocumentChunk(ChunkName(chunkId), PartTitle(node.title, chunkCount),
          Trim(currentChunk), node.level, currentTokens, parentId)];
        chunkId := chunkId + 1;
        var overlap := if o.overlapTokens > 0
          then Join(LastWords(Split(currentChunk, ' '), o.overlapTokens / 4), " ") else "";
        currentChunk := headerText + overlap + (if overlap != "" then " " else "") + sentence;
        currentTokens := EstimateTokens(currentChunk);
        chunkCount := chunkCount + 1;
        ClosingStep(o, node, headerText, parentChunk, b, sentence, Buffer(Walk(chunks, chunkId), currentChunk, currentTokens, chunkCount));
      } else {
        currentChunk := currentChunk + (if EndsWith(currentChunk, Trim(headerText)) then "" else " ") + sentence;
        currentTokens := currentTokens + sentenceTokens;
        AppendingStep(o, node, headerText, parentChunk, b, sentence, Buffer(Walk(chunks, chunkId), currentChunk, currentTokens, chunkCount));
      }
      FoldStep(o, node, headerText, parentChunk, start, sentences, i, b,
        Buffer(Walk(chunks, chunkId), currentChunk, currentTokens, chunkCount));
    }
    assert sentences[..|sentences|] == sentences;
    if Trim(currentChunk) != Trim(headerText) {
      chunks := chunks + [DocumentChunk(ChunkName(chunkId), if chunkCount > 1 then PartTitle(node.title, chunkCount) else node.title,
        Trim(currentChunk), node.level, currentTokens, parentId)];
      chunkId := chunkId + 1;
    }
  }

  /** A pass of the sentence loop that closes the open part. */
  lemma ClosingStep(o: ChunkingOptions, n: TreeNode, header: string, parent: Option<DocumentChunk>,
                    b: Buffer, sentence: string, b': Buffer)
    requires b.tokens + EstimateTokens(sentence) > o.maxTokens && Trim(b.current) != Trim(header)
    requires b'.w.chunks == b.w.chunks + [DocumentChunk(ChunkName(b.w.chunkId), PartTitle(n.title, b.count),
      Trim(b.current), n.level, b.tokens, ParentIdOf(parent))]
    requires b'.w.chunkId == b.w.chunkId + 1 && b'.count == b.count + 1
    requires var overlap := if o.overlapTokens > 0
      then Join(LastWords(Split(b.current, ' '), o.overlapTokens / 4), " ") else "";
      b'.current == header + overlap + (if overlap != "" then " " else "") + sentence
    requires b'.tokens == EstimateTokens(b'.current)
    ensures b' == SentenceStep(o, n, header, parent, b, sentence)
  {
  }

  /** A pass of the sentence loop that appends to the open part. */
  lemma AppendingStep(o: ChunkingOptions, n: TreeNode, header: string, parent: Option<DocumentChunk>,
                      b: Buffer, sentence: string, b': Buffer)
    requires !(b.tokens + EstimateTokens(sentence) > o.maxTokens && Trim(b.current) != Trim(header))
    requires b'.w == b.w && b'.count == b.count
    requires b'.current == b.current + (if EndsWith(b.current, Trim(header)) then "" else " ") + sentence
    requires b'.tokens == b.tokens + EstimateTokens(sentence)
    ensures b' == SentenceStep(o, n, header, parent, b, sentence)
  {
  }

  /** The loop invariant of the sentence loop survives one sentence. */
  lemma FoldStep(o: ChunkingOptions, n: TreeNode, header: string, parent: Option<DocumentChunk>, start: Buffer,
                 ss: seq<string>, i: int, b: Buffer, b': Buffer)
    requires 0 <= i < |ss|
    requires b == SentenceFold(o, n, header, parent, start, ss[..i])
    requires b' == SentenceStep(o, n, header, parent, b, ss[i])
    ensures b' == SentenceFold(o, n, header, parent, start, ss[..i + 1])
  {
    assert ss[..i + 1][..i] == ss[..i];
  }

  lemma ForestStep(o: ChunkingOptions, nodes: seq<TreeNode>, i: int, parent: Option<DocumentChunk>, w: Walk, before: Walk)
    requires 0 <= i < |nodes|
    requires before == ProcessForest(o, nodes[..i], parent, w)
    ensures ProcessForest(o, [nodes[i]], parent, before) == ProcessForest(o, nodes[..i + 1], parent, w)
  {
    assert nodes[..i + 1][..i] == nodes[..i];
    assert [nodes[i]][..0] == [];
  }

  lemma ForestSingle(o: ChunkingOptions, n: TreeNode, parent: Option<DocumentChunk>, w: Walk)
    ensures var own := NodeOwn(o, n, parent, w);
      ProcessForest(o, [n], parent, w) == ProcessForest(o, n.children, LastChunk(own.chunks), own)
  {
    assert [n][..0] == [];
  }

  /** `generateChunks`: `processNode` on every root, with no parent chunk. */
  method GenerateChunks(o: ChunkingOptions, tree: seq<TreeNode>) returns (chunks: seq<DocumentChunk>)
    ensures chunks == ChunksOf(o, tree)
  {
    chunks := [];
    var chunkId: nat := 1;
    for i := 0 to |tree|
      invariant Walk(chunks, chunkId) == ProcessForest(o, tree[..i], None, Walk([], 1))
    {
      ghost var before := Walk(chunks, chunkId);
      chunks, chunkId := ProcessNode(o, tree[i], None, chunks, chunkId);
      ForestStep(o, tree, i, None, Walk([], 1), before);
    }
    assert tree[..|tree|] == tree;
  }

  // ------------------------------------------------------- walk properties

  /** The chunks are named `chunk-1, chunk-2, ...` in the order they were pushed. */
  predicate IdsInOrder(cs: seq<DocumentChunk>) {
    forall k :: 0 <= k < |cs| ==> cs[k].id == ChunkName(k + 1)
  }

  /** A chunk's parent id, when it has one, is the id of a chunk pushed before it. */
  predicate ParentsEarlier(cs: seq<DocumentChunk>) {
    forall k :: 0 <= k < |cs| && cs[k].parentId.Some? ==> exists j :: 0 <= j < k && cs[j].id == cs[k].parentId.value
  }

  /** The counter is one past the number of chunks, and the two facts above hold. */
  predicate WalkOk(w: Walk) {
    w.chunkId == |w.chunks| + 1 && IdsInOrder(w.chunks) && ParentsEarlier(w.chunks)
  }

  /** The parent chunk handed to `processNode` is one already pushed. */
  predicate ParentIn(parent: Option<DocumentChunk>, cs: seq<DocumentChunk>) {
    parent.Some? ==> parent.value in cs
  }

  predicate Extends(a: seq<DocumentChunk>, b: seq<DocumentChunk>) {
    |a| <= |b| && b[..|a|] == a
  }

  lemma ExtendsTrans(a: seq<DocumentChunk>, b: seq<DocumentChunk>, c: seq<DocumentChunk>, parent: Option<DocumentChunk>)
    requires Extends(a, b) && Extends(b, c)
    ensures Extends(a, c) && (ParentIn(parent, a) ==> ParentIn(parent, b) && ParentIn(parent, c))
  {
    assert c[..|a|] == c[..|b|][..|a|];
    if parent.Some? && parent.value in a {
      var j :| 0 <= j < |a| && a[j] == parent.value;
      assert b[j] == a[j] && c[j] == a[j];
    }
  }

  lemma ExtendsPrefix(a: seq<DocumentChunk>, b: seq<DocumentChunk>, n: nat)
    requires Extends(a, b) && n <= |a|
    ensures forall i :: 0 <= i < n ==> b[i] == a[i]
  {
    forall i | 0 <= i < n ensures b[i] == a[i] {
      assert b[..|a|][i] == b[i];
    }
  }

  lemma EmitOk(w: Walk, title: string, content: string, level: int, tokens: int, parent: Option<DocumentChunk>)
    requires WalkOk(w) && ParentIn(parent, w.chunks)
    ensures var r := Emit(w, title, content, level, tokens, parent);
      WalkOk(r) && Extends(w.chunks, r.chunks)
  {
    var r := Emit(w, title, content, level, tokens, parent);
    var cs := r.chunks;
    assert cs[..|w.chunks|] == w.chunks;
    forall k | 0 <= k < |cs| && cs[k].parentId.Some?
      ensures exists j :: 0 <= j < k && cs[j].id == cs[k].parentId.value
    {
      if k == |w.chunks| {
        var j :| 0 <= j < |w.chunks| && w.chunks[j] == parent.value;
        assert cs[j].id == cs[k].parentId.value;
      } else {
        var j :| 0 <= j < k && w.chunks[j].id == w.chunks[k].parentId.value;
        assert cs[j] == w.chunks[j];
      }
    }
  }

  /**
   * The open part of a split section: the chunks pushed since `w` are the
   * closed parts `title (Part 1)`, `title (Part 2)`, ..., all at the node's
   * level under the parent, and `chunkCount` is one more than their number.
   */
  predicate PartsSoFar(w: Walk, n: TreeNode, parent: Option<DocumentChunk>, b: Buffer) {
    var m := |w.chunks|;
    Extends(w.chunks, b.w.chunks) && |b.w.chunks| == m + b.count - 1 &&
    forall i :: m <= i < |b.w.chunks| ==>
      b.w.chunks[i].title == PartTitle(n.title, i - m + 1) && b.w.chunks[i].level == n.level &&
      b.w.chunks[i].parentId == ParentIdOf(parent)
  }

  lemma StepKeepsParts(o: ChunkingOptions, n: TreeNode, header: string, parent: Option<DocumentChunk>,
                       w: Walk, b: Buffer, sentence: string)
    requires PartsSoFar(w, n, parent, b) && WalkOk(b.w) && ParentIn(parent, b.w.chunks)
    ensures var b' := SentenceStep(o, n, header, parent, b, sentence);
      PartsSoFar(w, n, parent, b') && WalkOk(b'.w) && Extends(b.w.chunks, b'.w.chunks)
  {
    var b' := SentenceStep(o, n, header, parent, b, sentence);
    if Closes(o, header, b, sentence) {
      assert b'.w == Emit(b.w, PartTitle(n.title, b.count), Trim(b.current), n.level, b.tokens, parent);
      assert b'.count == b.count + 1;
      ClosedPart(w, n, parent, b, Trim(b.current), b'.current, b'.tokens);
    } else {
      assert b'.w == b.w && b'.count == b.count;
      assert b.w.chunks[..|b.w.chunks|] == b.w.chunks;
    }
  }

  /** Appending one more `(Part k)` chunk, at the node's level under the parent, extends the parts. */
  lemma PartsAppend(w: Walk, n: TreeNode, parent: Option<DocumentChunk>, b: Buffer, c: DocumentChunk, b': Buffer)
    requires PartsSoFar(w, n, parent, b)
    requires c.title == PartTitle(n.title, b.count) && c.level == n.level && c.parentId == ParentIdOf(parent)
    requires b'.w.chunks == b.w.chunks + [c] && b'.count == b.count + 1
    ensures PartsSoFar(w, n, parent, b')
  {
    var m := |w.chunks|;
    assert b'.w.chunks[..m] == b.w.chunks[..m];
    forall i | m <= i < |b'.w.chunks|
      ensures b'.w.chunks[i].title == PartTitle(n.title, i - m + 1) && b'.w.chunks[i].level == n.level &&
        b'.w.chunks[i].parentId == ParentIdOf(parent)
    {
      if i < |b.w.chunks| {
        assert b'.w.chunks[i] == b.w.chunks[i];
      } else {
        assert b'.w.chunks[i] == c;
      }
    }
  }

  /** Pushing the next `(Part k)` chunk keeps the parts in order. */
  lemma ClosedPart(w: Walk, n: TreeNode, parent: Option<DocumentChunk>, b: Buffer, content: string, next: string, tokens: int)
    requires PartsSoFar(w, n, parent, b) && WalkOk(b.w) && ParentIn(parent, b.w.chunks)
    ensures var w' := Emit(b.w, PartTitle(n.title, b.count), content, n.level, b.tokens, parent);
      PartsSoFar(w, n, parent, Buffer(w', next, tokens, b.count + 1)) && WalkOk(w') && Extends(b.w.chunks, w'.chunks)
  {
    var w' := Emit(b.w, PartTitle(n.title, b.count), content, n.level, b.tokens, parent);
    EmitOk(b.w, PartTitle(n.title, b.count), content, n.level, b.tokens, parent);
    var c := DocumentChunk(ChunkName(b.w.chunkId), PartTitle(n.title, b.count), content, n.level, b.tokens, ParentIdOf(parent));
    PartsAppend(w, n, parent, b, c, Buffer(w', next, tokens, b.count + 1));
  }

  lemma {:induction false} FoldKeepsParts(o: ChunkingOptions, n: TreeNode, header: string, parent: Option<DocumentChunk>,
                                          w: Walk, b: Buffer, ss: seq<string>)
    requires PartsSoFar(w, n, parent, b) && WalkOk(b.w) && ParentIn(parent, b.w.chunks)
    ensures var b' := SentenceFold(o, n, header, parent, b, ss);
      PartsSoFar(w, n, parent, b') && WalkOk(b'.w) && Extends(b.w.chunks, b'.w.chunks)
  {
    if ss == [] {
      assert b.w.chunks[..|b.w.chunks|] == b.w.chunks;
    } else {
      var mid := SentenceFold(o, n, header, parent, b, ss[..|ss| - 1]);
      FoldKeepsParts(o, n, header, parent, w, b, ss[..|ss| - 1]);
      ExtendsTrans(b.w.chunks, mid.w.chunks, mid.w.chunks, parent);
      StepKeepsParts(o, n, header, parent, w, mid, ss[|ss| - 1]);
      ExtendsTrans(b.w.chunks, mid.w.chunks, SentenceFold(o, n, header, parent, b, ss).w.chunks, None);
    }
  }

  /** The titles of the chunks of a split section. */
  predicate SplitTitles(own: seq<DocumentChunk>, title: string) {
    (|own| == 1 && own[0].title == title) || forall i :: 0 <= i < |own| ==> own[i].title == PartTitle(title, i + 1)
  }

  /**
   * The chunks one node pushes: a section within the limit gives exactly one
   * chunk with its own title, the trimmed text and its estimate; a larger
   * one gives parts numbered from 1, with the final part numbered only when
   * there is more than one. All of them sit at the node's level under the
   * given parent, after the chunks pushed before.
   */
  lemma NodeOwnShape(o: ChunkingOptions, n: TreeNode, parent: Option<DocumentChunk>, w: Walk)
    requires WalkOk(w) && ParentIn(parent, w.chunks)
    ensures var r := NodeOwn(o, n, parent, w);
      WalkOk(r) && Extends(w.chunks, r.chunks)
    ensures var r := NodeOwn(o, n, parent, w); var m := |w.chunks|;
      forall i :: m <= i < |r.chunks| ==> r.chunks[i].level == n.level && r.chunks[i].parentId == ParentIdOf(parent)
    ensures var full := HeaderText(o, n) + Trim(n.content); var r := NodeOwn(o, n, parent, w);
      EstimateTokens(full) <= o.maxTokens ==>
        r.chunks[|w.chunks|..] == [DocumentChunk(ChunkName(w.chunkId), n.title, Trim(full), n.level, EstimateTokens(full), ParentIdOf(parent))]
    ensures var full := HeaderText(o, n) + Trim(n.content); var r := NodeOwn(o, n, parent, w);
      EstimateTokens(full) > o.maxTokens ==> SplitTitles(r.chunks[|w.chunks|..], n.title)
  {
    var header := HeaderText(o, n);
    var full := header + Trim(n.content);
    if EstimateTokens(full) <= o.maxTokens {
      EmitOk(w, n.title, Trim(full), n.level, EstimateTokens(full), parent);
    } else {
      var start := Buffer(w, header, EstimateTokens(header), 1);
      assert w.chunks[..|w.chunks|] == w.chunks;
      var b := SentenceFold(o, n, header, parent, start, Sentences(Trim(n.content)));
      FoldKeepsParts(o, n, header, parent, w, start, Sentences(Trim(n.content)));
      ExtendsTrans(w.chunks, w.chunks, b.w.chunks, parent);
      FinishShape(w, n, header, parent, b);
    }
  }

  /** The final push of a split section keeps the part titles, numbering the last one only after others. */
  lemma FinishShape(w: Walk, n: TreeNode, header: string, parent: Option<DocumentChunk>, b: Buffer)
    requires PartsSoFar(w, n, parent, b) && WalkOk(b.w) && ParentIn(parent, b.w.chunks)
    ensures var r := FinishSplit(n, header, parent, b);
      WalkOk(r) && Extends(w.chunks, r.chunks) && SplitTitles(r.chunks[|w.chunks|..], n.title)
    ensures var r := FinishSplit(n, header, parent, b); var m := |w.chunks|;
      forall i :: m <= i < |r.chunks| ==> r.chunks[i].level == n.level && r.chunks[i].parentId == ParentIdOf(parent)
  {
    if Trim(b.current) != Trim(header) {
      var title := if b.count > 1 then PartTitle(n.title, b.count) else n.title;
      assert FinishSplit(n, header, parent, b) == Emit(b.w, title, Trim(b.current), n.level, b.tokens, parent);
      FinalPart(w, n, parent, b, Trim(b.current));
    } else {
      assert FinishSplit(n, header, parent, b) == b.w;
      OnlyParts(w, n, parent, b);
    }
  }

  lemma FinalPart(w: Walk, n: TreeNode, parent: Option<DocumentChunk>, b: Buffer, content: string)
    requires PartsSoFar(w, n, parent, b) && WalkOk(b.w) && ParentIn(parent, b.w.chunks)
    ensures var r := Emit(b.w, if b.count > 1 then PartTitle(n.title, b.count) else n.title, content, n.level, b.tokens, parent);
      WalkOk(r) && Extends(w.chunks, r.chunks) && SplitTitles(r.chunks[|w.chunks|..], n.title)
    ensures var r := Emit(b.w, if b.count > 1 then PartTitle(n.title, b.count) else n.title, content, n.level, b.tokens, parent);
      forall i :: |w.chunks| <= i < |r.chunks| ==> r.chunks[i].level == n.level && r.chunks[i].parentId == ParentIdOf(parent)
  {
    var title := if b.count > 1 then PartTitle(n.title, b.count) else n.title;
    var r := Emit(b.w, title, content, n.level, b.tokens, parent);
    EmitOk(b.w, title, content, n.level, b.tokens, parent);
    ExtendsTrans(w.chunks, b.w.chunks, r.chunks, None);
    FinalPartOwn(w, n, parent, b, DocumentChunk(ChunkName(b.w.chunkId), title, content, n.level, b.tokens, ParentIdOf(parent)));
  }

  lemma FinalPartOwn(w: Walk, n: TreeNode, parent: Option<DocumentChunk>, b: Buffer, c: DocumentChunk)
    requires PartsSoFar(w, n, parent, b)
    requires c.level == n.level && c.parentId == ParentIdOf(parent)
    requires c.title == if b.count > 1 then PartTitle(n.title, b.count) else n.title
    ensures var cs := b.w.chunks + [c];
      SplitTitles(cs[|w.chunks|..], n.title) &&
      forall i :: |w.chunks| <= i < |cs| ==> cs[i].level == n.level && cs[i].parentId == ParentIdOf(parent)
  {
    var m := |w.chunks|;
    var cs := b.w.chunks + [c];
    var own := cs[m..];
    if b.count > 1 {
      forall i | 0 <= i < |own| ensures own[i].title == PartTitle(n.title, i + 1) {
        assert own[i] == cs[m + i];
      }
    } else {
      assert own == [c];
    }
    forall i | m <= i < |cs| ensures cs[i].level == n.level && cs[i].parentId == ParentIdOf(parent) {
      if i < |b.w.chunks| { assert cs[i] == b.w.chunks[i]; }
    }
  }

  lemma OnlyParts(w: Walk, n: TreeNode, parent: Option<DocumentChunk>, b: Buffer)
    requires PartsSoFar(w, n, parent, b) && WalkOk(b.w)
    ensures WalkOk(b.w) && Extends(w.chunks, b.w.chunks) && SplitTitles(b.w.chunks[|w.chunks|..], n.title)
    ensures forall i :: |w.chunks| <= i < |b.w.chunks| ==> b.w.chunks[i].level == n.level && b.w.chunks[i].parentId == ParentIdOf(parent)
  {
    var m := |w.chunks|;
    var own := b.w.chunks[m..];
    forall i | 0 <= i < |own| ensures own[i].title == PartTitle(n.title, i + 1) {
      assert own[i] == b.w.chunks[m + i];
    }
  }

  // ------------------------------------------------------- closed parts

  /**
   * The positions in `ss` of the sentences that closed a part: the ones
   * met while the open part held more than the header and would have gone
   * over the limit with them.
   */
  function Closers(o: ChunkingOptions, n: TreeNode, header: string, parent: Option<DocumentChunk>,
                   b: Buffer, ss: seq<string>): (r: seq<nat>)
    ensures forall k :: 0 <= k < |r| ==> r[k] < |ss|
  {
    if ss == [] then []
    else
      var p := ss[..|ss| - 1];
      Closers(o, n, header, parent, b, p) + if Closes(o, header, SentenceFold(o, n, header, parent, b, p), ss[|ss| - 1]) then [|ss| - 1] else []
  }

  /** A closed part holds more than the header, and the sentence after it would have taken it over the limit. */
  predicate ClosedBefore(o: ChunkingOptions, header: string, c: DocumentChunk, sentence: string) {
    c.content != Trim(header) && c.tokenCount + EstimateTokens(sentence) > o.maxTokens
  }

  /** Increasing positions. */
  predicate Increasing(cl: seq<nat>) {
    forall k :: 0 < k < |cl| ==> cl[k - 1] < cl[k]
  }

  /** `cs` is `base` and one closed part per position in `cl`, each closed before sentence `ss[cl[k]]`. */
  predicate PartsClosed(o: ChunkingOptions, header: string, base: seq<DocumentChunk>, cs: seq<DocumentChunk>,
                        ss: seq<string>, cl: seq<nat>) {
    Extends(base, cs) && |cs| == |base| + |cl| && Increasing(cl) &&
    forall k :: 0 <= k < |cl| ==> cl[k] < |ss| && ClosedBefore(o, header, cs[|base| + k], ss[cl[k]])
  }

  /**
   * The sentence loop pushes exactly one chunk per closing sentence, in
   * order, and each closed part holds more than the header and is full:
   * its estimate plus that of the sentence that starts the next part is
   * over `maxTokens`.
   */
  lemma {:induction false} FoldClosedParts(o: ChunkingOptions, n: TreeNode, header: string, parent: Option<DocumentChunk>,
                                           b: Buffer, ss: seq<string>)
    ensures PartsClosed(o, header, b.w.chunks, SentenceFold(o, n, header, parent, b, ss).w.chunks, ss,
      Closers(o, n, header, parent, b, ss))
  {
    if ss == [] {
      assert b.w.chunks[..|b.w.chunks|] == b.w.chunks;
    } else {
      var p := ss[..|ss| - 1];
      var mid := SentenceFold(o, n, header, parent, b, p);
      var cl := Closers(o, n, header, parent, b, p);
      FoldClosedParts(o, n, header, parent, b, p);
      PartsClosedLonger(o, header, b.w.chunks, mid.w.chunks, ss, cl);
      var r := SentenceFold(o, n, header, parent, b, ss);
      assert r == SentenceStep(o, n, header, parent, mid, ss[|ss| - 1]);
      if Closes(o, header, mid, ss[|ss| - 1]) {
        assert Closers(o, n, header, parent, b, ss) == cl + [|ss| - 1];
        PartsClosedPush(o, header, b.w.chunks, mid.w.chunks, ss, cl,
          DocumentChunk(ChunkName(mid.w.chunkId), PartTitle(n.title, mid.count), Trim(mid.current), n.level, mid.tokens, ParentIdOf(parent)));
      } else {
        assert Closers(o, n, header, parent, b, ss) == cl;
      }
    }
  }

  /** The closed parts of a prefix of the sentences are closed parts of the whole list. */
  lemma PartsClosedLonger(o: ChunkingOptions, header: string, base: seq<DocumentChunk>, cs: seq<DocumentChunk>,
                          ss: seq<string>, cl: seq<nat>)
    requires ss != [] && PartsClosed(o, header, base, cs, ss[..|ss| - 1], cl)
    ensures PartsClosed(o, header, base, cs, ss, cl) && forall k :: 0 <= k < |cl| ==> cl[k] < |ss| - 1
  {
    forall k | 0 <= k < |cl| ensures cl[k] < |ss| - 1 && ss[cl[k]] == ss[..|ss| - 1][cl[k]] {}
  }

  /** One more part, closed before the last sentence, extends the closed parts. */
  lemma PartsClosedPush(o: ChunkingOptions, header: string, base: seq<DocumentChunk>, cs: seq<DocumentChunk>,
                        ss: seq<string>, cl: seq<nat>, c: DocumentChunk)
    requires ss != [] && PartsClosed(o, header, base, cs, ss, cl) && forall k :: 0 <= k < |cl| ==> cl[k] < |ss| - 1
    requires ClosedBefore(o, header, c, ss[|ss| - 1])
    ensures PartsClosed(o, header, base, cs + [c], ss, cl + [|ss| - 1])
  {
    var cs', cl' := cs + [c], cl + [|ss| - 1];
    assert cs'[..|base|] == cs[..|base|];
    forall k | 0 <= k < |cl'| ensures cl'[k] < |ss| && ClosedBefore(o, header, cs'[|base| + k], ss[cl'[k]]) {
      if k < |cl| {
        assert cs'[|base| + k] == cs[|base| + k] && cl'[k] == cl[k];
      }
    }
    assert Increasing(cl');
  }

  /**
   * `cs` is `base`, then the closed parts, one per position in `cl`, each
   * full up to its closing sentence, then at most one final part; every
   * chunk after `base` holds more than the header.
   */
  predicate PartsThenFinal(o: ChunkingOptions, header: string, base: seq<DocumentChunk>, cs: seq<DocumentChunk>,
                           ss: seq<string>, cl: seq<nat>) {
    Extends(base, cs) && |base| + |cl| <= |cs| <= |base| + |cl| + 1 && Increasing(cl) &&
    (forall k :: 0 <= k < |cl| ==> cl[k] < |ss| && ClosedBefore(o, header, cs[|base| + k], ss[cl[k]])) &&
    forall i :: |base| <= i < |cs| ==> cs[i].content != Trim(header)
  }

  /**
   * A section over the limit is cut where the sentence loop closes parts:
   * the chunks it pushes are the closed parts in order, each full up to its
   * closing sentence, then at most one final part, and every one of them
   * holds more than the header.
   */
  lemma SplitPartsFull(o: ChunkingOptions, n: TreeNode, parent: Option<DocumentChunk>, w: Walk)
    requires EstimateTokens(HeaderText(o, n) + Trim(n.content)) > o.maxTokens
    ensures var header := HeaderText(o, n); var ss := Sentences(Trim(n.content));
      PartsThenFinal(o, header, w.chunks, NodeOwn(o, n, parent, w).chunks, ss,
        Closers(o, n, header, parent, Buffer(w, header, EstimateTokens(header), 1), ss))
  {
    var header := HeaderText(o, n);
    var ss := Sentences(Trim(n.content));
    var start := Buffer(w, header, EstimateTokens(header), 1);
    var b := SentenceFold(o, n, header, parent, start, ss);
    assert NodeOwn(o, n, parent, w) == FinishSplit(n, header, parent, b);
    FoldClosedParts(o, n, header, parent, start, ss);
    FinishPart(o, n, header, parent, w, b, ss, Closers(o, n, header, parent, start, ss));
  }

  /** The final push adds at most one chunk, and only one holding more than the header. */
  lemma FinishPart(o: ChunkingOptions, n: TreeNode, header: string, parent: Option<DocumentChunk>, w: Walk, b: Buffer,
                   ss: seq<string>, cl: seq<nat>)
    requires PartsClosed(o, header, w.chunks, b.w.chunks, ss, cl)
    ensures PartsThenFinal(o, header, w.chunks, FinishSplit(n, header, parent, b).chunks, ss, cl)
  {
    var m := |w.chunks|;
    var r := FinishSplit(n, header, parent, b);
    forall i | m <= i < |b.w.chunks| ensures b.w.chunks[i].content != Trim(header) {
      assert ClosedBefore(o, header, b.w.chunks[m + (i - m)], ss[cl[i - m]]);
    }
    if Trim(b.current) != Trim(header) {
      assert r.chunks[..|b.w.chunks|] == b.w.chunks;
      ExtendsTrans(w.chunks, b.w.chunks, r.chunks, None);
      ExtendsPrefix(b.w.chunks, r.chunks, |b.w.chunks|);
    } else {
      assert r == b.w;
    }
  }

  /** Walking a list of nodes keeps the walk well formed and only ever appends. */
  lemma {:induction false} ForestOk(o: ChunkingOptions, nodes: seq<TreeNode>, parent: Option<DocumentChunk>, w: Walk)
    requires WalkOk(w) && ParentIn(parent, w.chunks)
    ensures var r := ProcessForest(o, nodes, parent, w);
      WalkOk(r) && Extends(w.chunks, r.chunks)
    decreases nodes
  {
    if nodes == [] {
      assert w.chunks[..|w.chunks|] == w.chunks;
    } else {
      var before := ProcessForest(o, nodes[..|nodes| - 1], parent, w);
      ForestOk(o, nodes[..|nodes| - 1], parent, w);
      ExtendsTrans(w.chunks, before.chunks, before.chunks, parent);
      var n := nodes[|nodes| - 1];
      var own := NodeOwn(o, n, parent, before);
      NodeOwnShape(o, n, parent, before);
      var last := LastChunk(own.chunks);
      assert ParentIn(last, own.chunks);
      ForestOk(o, n.children, last, own);
      ExtendsTrans(w.chunks, before.chunks, own.chunks, None);
      ExtendsTrans(w.chunks, own.chunks, ProcessForest(o, nodes, parent, w).chunks, None);
    }
  }

  /** Walking `a + b` is walking `a`, then `b` from where `a` left off. */
  lemma {:induction false} ForestSplit(o: ChunkingOptions, a: seq<TreeNode>, b: seq<TreeNode>, parent: Option<DocumentChunk>, w: Walk)
    ensures ProcessForest(o, a + b, parent, w) == ProcessForest(o, b, parent, ProcessForest(o, a, parent, w))
    decreases b
  {
    if b == [] {
      assert a + b == a;
    } else {
      var ab := a + b;
      assert ab[..|ab| - 1] == a + b[..|b| - 1];
      assert ab[|ab| - 1] == b[|b| - 1];
      ForestSplit(o, a, b[..|b| - 1], parent, w);
      ForestLast(o, ab, b, parent, w, ProcessForest(o, a, parent, w));
    }
  }

  /** Two lists that end in the same node after walks reaching the same walk end in the same walk. */
  lemma ForestLast(o: ChunkingOptions, x: seq<TreeNode>, y: seq<TreeNode>, parent: Option<DocumentChunk>, w: Walk, v: Walk)
    requires x != [] && y != [] && x[|x| - 1] == y[|y| - 1]
    requires ProcessForest(o, x[..|x| - 1], parent, w) == ProcessForest(o, y[..|y| - 1], parent, v)
    ensures ProcessForest(o, x, parent, w) == ProcessForest(o, y, parent, v)
  {
  }

  /**
   * Node `i` of a list walked under `parent`: its own chunks come right
   * after those of the nodes before it, all carry the parent's id, stay in
   * the final result unchanged, and its children are then walked under the
   * last chunk pushed so far.
   */
  lemma NodeUnder(o: ChunkingOptions, nodes: seq<TreeNode>, parent: Option<DocumentChunk>, w: Walk, i: nat)
    requires WalkOk(w) && ParentIn(parent, w.chunks) && i < |nodes|
    ensures var before := ProcessForest(o, nodes[..i], parent, w); var own := NodeOwn(o, nodes[i], parent, before);
      WalkOk(own) && Extends(before.chunks, own.chunks) && Extends(own.chunks, ProcessForest(o, nodes, parent, w).chunks) &&
      forall k :: |before.chunks| <= k < |own.chunks| ==> own.chunks[k].parentId == ParentIdOf(parent)
    ensures var before := ProcessForest(o, nodes[..i], parent, w); var own := NodeOwn(o, nodes[i], parent, before);
      ProcessForest(o, nodes[..i + 1], parent, w) == ProcessForest(o, nodes[i].children, LastChunk(own.chunks), own)
  {
    var before := ProcessForest(o, nodes[..i], parent, w);
    ForestOk(o, nodes[..i], parent, w);
    ExtendsTrans(w.chunks, before.chunks, before.chunks, parent);
    var own := NodeOwn(o, nodes[i], parent, before);
    NodeOwnShape(o, nodes[i], parent, before);
    var after := ProcessForest(o, nodes[..i + 1], parent, w);
    ForestStep(o, nodes, i, parent, w, before);
    ForestSingle(o, nodes[i], parent, before);
    assert ParentIn(LastChunk(own.chunks), own.chunks);
    ForestOk(o, nodes[i].children, LastChunk(own.chunks), own);
    ExtendsTrans(w.chunks, before.chunks, own.chunks, parent);
    ForestTail(o, nodes, parent, w, i);
    ExtendsTrans(own.chunks, after.chunks, ProcessForest(o, nodes, parent, w).chunks, None);
  }

  /** Walking the nodes after `i` only appends. */
  lemma ForestTail(o: ChunkingOptions, nodes: seq<TreeNode>, parent: Option<DocumentChunk>, w: Walk, i: nat)
    requires WalkOk(w) && ParentIn(parent, w.chunks) && i < |nodes|
    ensures Extends(ProcessForest(o, nodes[..i + 1], parent, w).chunks, ProcessForest(o, nodes, parent, w).chunks)
  {
    var after := ProcessForest(o, nodes[..i + 1], parent, w);
    ForestOk(o, nodes[..i + 1], parent, w);
    ExtendsTrans(w.chunks, after.chunks, after.chunks, parent);
    ForestOk(o, nodes[i + 1..], parent, after);
    ForestSplit(o, nodes[..i + 1], nodes[i + 1..], parent, w);
    TakeDrop(nodes, i + 1);
  }

  lemma TakeDrop<T>(s: seq<T>, i: nat)
    requires i <= |s|
    ensures s[..i] + s[i..] == s
  {
  }

  /** The chunks a root section pushes itself have no parent id, and stay in the result unchanged. */
  lemma RootChunks(o: ChunkingOptions, tree: seq<TreeNode>, i: nat)
    requires i < |tree|
    ensures var before := ProcessForest(o, tree[..i], None, Walk([], 1)); var own := NodeOwn(o, tree[i], None, before);
      var cs := ChunksOf(o, tree);
      Extends(own.chunks, cs) && forall k :: |before.chunks| <= k < |own.chunks| ==> cs[k].parentId.None?
  {
    NodeUnder(o, tree, None, Walk([], 1), i);
    var before := ProcessForest(o, tree[..i], None, Walk([], 1));
    ExtendsPrefix(NodeOwn(o, tree[i], None, before).chunks, ChunksOf(o, tree), |NodeOwn(o, tree[i], None, before).chunks|);
  }

  /**
   * The chunks that child `j` of root `i` pushes itself carry the id of
   * the last chunk pushed once root `i`'s own chunks were out (none when
   * nothing was pushed yet), and stay in the result unchanged; `NodeUnder`
   * gives the same one level down at every depth.
   */
  lemma ChildChunks(o: ChunkingOptions, tree: seq<TreeNode>, i: nat, j: nat)
    requires i < |tree| && j < |tree[i].children|
    ensures var own := NodeOwn(o, tree[i], None, ProcessForest(o, tree[..i], None, Walk([], 1)));
      var last := LastChunk(own.chunks); var kids := tree[i].children;
      var before := ProcessForest(o, kids[..j], last, own); var mine := NodeOwn(o, kids[j], last, before);
      var cs := ChunksOf(o, tree);
      Extends(mine.chunks, cs) && forall k :: |before.chunks| <= k < |mine.chunks| ==> cs[k].parentId == ParentIdOf(last)
  {
    var start := Walk([], 1);
    NodeUnder(o, tree, None, start, i);
    var own := NodeOwn(o, tree[i], None, ProcessForest(o, tree[..i], None, start));
    var last := LastChunk(own.chunks);
    var kids := tree[i].children;
    var after := ProcessForest(o, tree[..i + 1], None, start);
    assert ParentIn(last, own.chunks);
    NodeUnder(o, kids, last, own, j);
    var mine := NodeOwn(o, kids[j], last, ProcessForest(o, kids[..j], last, own));
    ForestTail(o, tree, None, start, i);
    ExtendsTrans(mine.chunks, after.chunks, ChunksOf(o, tree), None);
    ExtendsPrefix(mine.chunks, ChunksOf(o, tree), |mine.chunks|);
  }

  /**
   * The chunks of a forest are named `chunk-1, chunk-2, ...` in emission
   * order, hence all distinct, and every parent id names a chunk emitted
   * earlier; so the first chunk has none.
   */
  lemma ChunksWellFormed(o: ChunkingOptions, tree: seq<TreeNode>)
    ensures var cs := ChunksOf(o, tree);
      IdsInOrder(cs) && ParentsEarlier(cs) && (cs != [] ==> cs[0].parentId.None?)
    ensures var cs := ChunksOf(o, tree);
      forall i, j :: 0 <= i < j < |cs| ==> cs[i].id != cs[j].id
  {
    ForestOk(o, tree, None, Walk([], 1));
    IdsDistinct(ChunksOf(o, tree));
  }

  lemma IdsDistinct(cs: seq<DocumentChunk>)
    requires IdsInOrder(cs)
    ensures forall i, j :: 0 <= i < j < |cs| ==> cs[i].id != cs[j].id
  {
    forall i, j | 0 <= i < j < |cs| ensures cs[i].id != cs[j].id {
      ChunkNameInjective(i + 1, j + 1);
    }
  }

  lemma ChunkNameInjective(a: nat, b: nat)
    ensures ChunkName(a) == ChunkName(b) ==> a == b
  {
    if ChunkName(a) == ChunkName(b) {
      NumberedInjective("chunk-", a, b);
    }
  }

  /** Without headers the separator test `endsWith('')` always succeeds, so sentences are glued with nothing between. */
  lemma GluedWithoutHeaders(o: ChunkingOptions, n: TreeNode, current: string)
    requires !o.preserveHeaders
    ensures Separator(current, HeaderText(o, n)) == ""
  {
    assert Trim("") == "" by {
      TrimOfTrimmed("");
    }
    assert current[|current|..] == "";
  }

  // ------------------------------------------------------- token total

  /** `chunks.reduce((sum, chunk) => sum + chunk.tokenCount, 0)`. */
  function TotalTokens(cs: seq<DocumentChunk>): int {
    if cs == [] then 0 else TotalTokens(cs[..|cs| - 1]) + cs[|cs| - 1].tokenCount
  }

  /** The total of two runs of chunks is the sum of their totals. */
  lemma {:induction false} TotalTokensAppend(a: seq<DocumentChunk>, b: seq<DocumentChunk>)
    ensures TotalTokens(a + b) == TotalTokens(a) + TotalTokens(b)
  {
    if b == [] {
      assert a + b == a;
    } else {
      TotalTokensAppend(a, b[..|b| - 1]);
      assert (a + b)[..|a + b| - 1] == a + b[..|b| - 1];
    }
  }
}
