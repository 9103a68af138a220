/** The chunking loop of the abstractive summarizer: sentences are packed
    greedily, in order, into chunks of about `MaxChars` characters, and each
    chunk is summarized on its own. */
module Chunking {
  import opened Text

  /** `MAX_CHARS`: the longest preselected text summarized in one piece, and the
      budget that decides when a chunk is closed. */
  const MaxChars: nat := 3000

  /** The summarization model: text, `max_length`, `min_length` to `summary_text`. */
  type Model = (string, int, int) -> string

  /** `max_length` for one chunk: `min(200, int(len(chunk) * 0.5))`. */
  function ChunkMaxLength(chunkLength: nat): (m: nat)
    ensures m <= 200 && m <= chunkLength / 2
    ensures chunkLength < 400 ==> m == chunkLength / 2
    ensures chunkLength >= 400 ==> m == 200
  {
    Min(200, chunkLength / 2)
  }

  /** `min_length` for one chunk. */
  const ChunkMinLength: nat := 50

  /** What the loop stores for one chunk: the model's summary of it. */
  function SummarizeChunk(model: Model, chunk: string): string {
    model(chunk, ChunkMaxLength(|chunk|), ChunkMinLength)
  }

  /** The text `current_chunk += " " + sent` builds from `start`, taking the
      sentences of `g` one at a time. */
  function Extend(start: string, g: seq<string>): string {
    if g == [] then start else Extend(start, g[..|g| - 1]) + " " + g[|g| - 1]
  }

  /** The text of a chunk holding the sentences `g`: the first chunk grows from
      the empty string, so it starts with a space; every later one starts with
      its first sentence. */
  function ChunkText(g: seq<string>, first: bool): string {
    if first then Extend("", g) else if g == [] then "" else Extend(g[0], g[1..])
  }

  /** The grouping of the sentences seen so far: the chunks already closed and
      the one being filled. */
  datatype Packing = Packing(closed: seq<seq<string>>, open: seq<string>)

  /** The grouping after the loop has read `sents`: a sentence closes the open
      chunk exactly when the chunk's text length plus the sentence's length
      exceeds `MaxChars`; the joining space is not counted. */
  function Pack(sents: seq<string>): Packing {
    if sents == [] then Packing([], [])
    else
      var p := Pack(sents[..|sents| - 1]);
      var s := sents[|sents| - 1];
      if |ChunkText(p.open, p.closed == [])| + |s| > MaxChars then Packing(p.closed + [p.open], [s])
      else Packing(p.closed, p.open + [s])
  }

  function ClosedTexts(closed: seq<seq<string>>): seq<string> {
    seq(|closed|, k requires 0 <= k < |closed| => ChunkText(closed[k], k == 0))
  }

  /** The chunk texts handed to the model, in order: every closed chunk, then
      the last one unless it is blank (`if current_chunk.strip()`). */
  function ChunkTexts(sents: seq<string>): seq<string> {
    var p := Pack(sents);
    var last := ChunkText(p.open, p.closed == []);
    ClosedTexts(p.closed) + (if Strip(last) != [] then [last] else [])
  }

  /** `chunks` holds the summaries of the closed chunks, in order. */
  predicate Summarizes(model: Model, chunks: seq<string>, closed: seq<seq<string>>) {
    && |chunks| == |closed|
    && forall k :: 0 <= k < |chunks| ==> chunks[k] == SummarizeChunk(model, ChunkText(closed[k], k == 0))
  }

  /** The loop of `abstractive_summarize` over the sentences of the preselected
      text: it returns the summaries of the chunks, in order. */
  method SummarizeChunks(sents: seq<string>, model: Model) returns (chunks: seq<string>)
    ensures var texts := ChunkTexts(sents);
      && |chunks| == |texts|
      && forall k :: 0 <= k < |chunks| ==> chunks[k] == SummarizeChunk(model, texts[k])
  {
    chunks := [];
    var current := "";
    for i := 0 to |sents|
      invariant var p := Pack(sents[..i]);
        Summarizes(model, chunks, p.closed) && current == ChunkText(p.open, p.closed == [])
    {
      var sent := sents[i];
      if |current| + |sent| > MaxChars {
        var chunkSummary := model(current, Min(200, |current| / 2), 50);
        CloseStep(sents, i, model, chunks, current);
        chunks := chunks + [chunkSummary];
        current := sent;
      } else {
        ExtendStep(sents, i, model, chunks, current);
        current := current + " " + sent;
      }
    }
    assert sents[..|sents|] == sents;
    SummarizesTexts(model, chunks, sents);
    if Strip(current) != [] {
      var chunkSummary := model(current, Min(200, |current| / 2), 50);
      chunks := chunks + [chunkSummary];
    }
  }

  /** A turn of the loop that closes the chunk keeps the loop invariant. */
  lemma CloseStep(sents: seq<string>, i: nat, model: Model, chunks: seq<string>, current: string)
    requires i < |sents|
    requires var q := Pack(sents[..i]);
      Summarizes(model, chunks, q.closed) && current == ChunkText(q.open, q.closed == [])
    requires |current| + |sents[i]| > MaxChars
    ensures var p := Pack(sents[..i + 1]);
      && Summarizes(model, chunks + [model(current, Min(200, |current| / 2), 50)], p.closed)
      && sents[i] == ChunkText(p.open, p.closed == [])
  {
    var q := Pack(sents[..i]);
    PackStep(sents, i);
    SummarizesClose(model, chunks, q.closed, q.open);
  }

  /** A turn of the loop that extends the chunk keeps the loop invariant. */
  lemma ExtendStep(sents: seq<string>, i: nat, model: Model, chunks: seq<string>, current: string)
    requires i < |sents|
    requires var q := Pack(sents[..i]);
      Summarizes(model, chunks, q.closed) && current == ChunkText(q.open, q.closed == [])
    requires |current| + |sents[i]| <= MaxChars
    ensures var p := Pack(sents[..i + 1]);
      && Summarizes(model, chunks, p.closed)
      && current + " " + sents[i] == ChunkText(p.open, p.closed == [])
  {
    var q := Pack(sents[..i]);
    PackStep(sents, i);
    ChunkTextAppend(q.open, q.closed == [], sents[i]);
  }

  /** Closing the open chunk appends its summary. */
  lemma SummarizesClose(model: Model, chunks: seq<string>, closed: seq<seq<string>>, open: seq<string>)
    requires Summarizes(model, chunks, closed)
    ensures Summarizes(model, chunks + [SummarizeChunk(model, ChunkText(open, closed == []))], closed + [open])
  {
  }

  /** After the loop and the final blank test, `chunks` summarizes the chunk
      texts. */
  lemma SummarizesTexts(model: Model, done: seq<string>, sents: seq<string>)
    requires Summarizes(model, done, Pack(sents).closed)
    ensures var p := Pack(sents);
      var last := ChunkText(p.open, p.closed == []);
      var chunks := done + (if Strip(last) != [] then [SummarizeChunk(model, last)] else []);
      var texts := ChunkTexts(sents);
      && |chunks| == |texts|
      && forall k :: 0 <= k < |chunks| ==> chunks[k] == SummarizeChunk(model, texts[k])
  {
  }

  /** One turn of the loop: the grouping after one more sentence. */
  lemma PackStep(sents: seq<string>, i: nat)
    requires i < |sents|
    ensures var q, s := Pack(sents[..i]), sents[i];
      Pack(sents[..i + 1]) ==
        if |ChunkText(q.open, q.closed == [])| + |s| > MaxChars then Packing(q.closed + [q.open], [s])
        else Packing(q.closed, q.open + [s])
  {
    assert sents[..i + 1][..i] == sents[..i];
  }

  /** Adding a sentence to a chunk appends a space and the sentence. */
  lemma ChunkTextAppend(g: seq<string>, first: bool, s: string)
    requires first || g != []
    ensures ChunkText(g + [s], first) == ChunkText(g, first) + " " + s
  {
    assert (g + [s])[..|g|] == g;
    if !first {
      assert (g + [s])[1..] == g[1..] + [s];
      assert (g[1..] + [s])[..|g| - 1] == g[1..];
    }
  }

  lemma {:induction false} PackOpenNonEmpty(sents: seq<string>)
    ensures Pack(sents).closed != [] ==> Pack(sents).open != []
  {
    if sents != [] {
      PackOpenNonEmpty(sents[..|sents| - 1]);
    }
  }

  /** The concatenation of the groups, in order. */
  function Flatten(groups: seq<seq<string>>): seq<string> {
    if groups == [] then [] else Flatten(groups[..|groups| - 1]) + groups[|groups| - 1]
  }

  lemma {:induction false} PackFlatten(sents: seq<string>)
    ensures Flatten(Pack(sents).closed) + Pack(sents).open == sents
  {
    if sents != [] {
      var init := sents[..|sents| - 1];
      var s := sents[|sents| - 1];
      PackFlatten(init);
      var q := Pack(init);
      assert sents == init + [s];
      if |ChunkText(q.open, q.closed == [])| + |s| > MaxChars {
        assert (q.closed + [q.open])[..|q.closed|] == q.closed;
      } else {
        assert Flatten(q.closed) + (q.open + [s]) == (Flatten(q.closed) + q.open) + [s];
      }
    }
  }

  lemma {:induction false} PackLaterGroupsNonEmpty(sents: seq<string>)
    ensures forall k :: 1 <= k < |Pack(sents).closed| ==> Pack(sents).closed[k] != []
  {
    if sents != [] {
      var init := sents[..|sents| - 1];
      PackLaterGroupsNonEmpty(init);
      PackOpenNonEmpty(init);
    }
  }

  /** Every sentence lands in exactly one chunk, in order: the closed chunks and
      the open one, put back together, are the input. Only the very first chunk
      can be empty, and the open chunk is empty only while nothing was closed. */
  lemma PackPartition(sents: seq<string>)
    ensures var p := Pack(sents);
      && Flatten(p.closed) + p.open == sents
      && (forall k :: 1 <= k < |p.closed| ==> p.closed[k] != [])
      && (p.closed != [] ==> p.open != [])
  {
    PackFlatten(sents);
    PackLaterGroupsNonEmpty(sents);
    PackOpenNonEmpty(sents);
  }

  /** Every sentence after the first of a chunk (after none, for the very first
      chunk) was added because it fitted: the chunk's text so far plus the
      sentence is at most `MaxChars` characters. */
  predicate Fits(g: seq<string>, first: bool) {
    forall j :: (if first then 0 else 1) <= j < |g| ==> |ChunkText(g[..j], first)| + |g[j]| <= MaxChars
  }

  /** The sentence that follows closed chunk `k`: the first of the next chunk. */
  function NextGroup(p: Packing, k: nat): seq<string>
    requires k < |p.closed|
  {
    if k + 1 < |p.closed| then p.closed[k + 1] else p.open
  }

  /** The flush rule: every chunk holds only sentences that fitted, and a chunk
      was closed only because the next sentence did not fit. */
  lemma {:induction false} PackRule(sents: seq<string>)
    ensures var p := Pack(sents);
      && (forall k :: 0 <= k < |p.closed| ==> Fits(p.closed[k], k == 0))
      && Fits(p.open, p.closed == [])
      && (forall k :: 0 <= k < |p.closed| ==>
            NextGroup(p, k) != [] && |ChunkText(p.closed[k], k == 0)| + |NextGroup(p, k)[0]| > MaxChars)
  {
    if sents != [] {
      var init := sents[..|sents| - 1];
      var s := sents[|sents| - 1];
      PackRule(init);
      PackPartition(init);
      var q := Pack(init);
      var first := q.closed == [];
      if |ChunkText(q.open, first)| + |s| > MaxChars {
        var p := Pack(sents);
        assert p == Packing(q.closed + [q.open], [s]);
        forall k | 0 <= k < |p.closed|
          ensures Fits(p.closed[k], k == 0)
          ensures NextGroup(p, k) != [] && |ChunkText(p.closed[k], k == 0)| + |NextGroup(p, k)[0]| > MaxChars
        {
          if k < |q.closed| {
            assert p.closed[k] == q.closed[k];
            assert NextGroup(p, k) == NextGroup(q, k);
          }
        }
      } else {
        FitsAppend(q.open, first, s);
      }
    }
  }

  lemma FitsAppend(g: seq<string>, first: bool, s: string)
    requires Fits(g, first) && |ChunkText(g, first)| + |s| <= MaxChars
    ensures Fits(g + [s], first)
  {
    var h := g + [s];
    forall j | (if first then 0 else 1) <= j < |h|
      ensures |ChunkText(h[..j], first)| + |h[j]| <= MaxChars
    {
      assert h[..j] == g[..j];
      if j == |g| { assert g[..j] == g; }
    }
  }

  /** A chunk of two or more sentences, or the first chunk, is at most
      `MaxChars + 1` characters long: the last sentence fitted, and only the
      space joining it was not counted. */
  lemma ChunkLengthBound(g: seq<string>, first: bool)
    requires Fits(g, first) && (first || |g| >= 2)
    ensures |ChunkText(g, first)| <= MaxChars + 1
  {
    if g != [] {
      var j := |g| - 1;
      assert g == g[..j] + [g[j]];
      ChunkTextAppend(g[..j], first, g[j]);
    }
  }

  /** Every chunk handed to the model is at most `MaxChars + 1` characters long,
      unless it is a single sentence that was too long on its own. */
  lemma ChunkTextsBound(sents: seq<string>)
    ensures forall c :: c in ChunkTexts(sents) ==> |c| <= MaxChars + 1 || c in sents
  {
    var p := Pack(sents);
    PackRule(sents);
    PackPartition(sents);
    var closedTexts := ClosedTexts(p.closed);
    forall c | c in ChunkTexts(sents) ensures |c| <= MaxChars + 1 || c in sents {
      if c in closedTexts {
        var k :| 0 <= k < |closedTexts| && closedTexts[k] == c;
        GroupBound(p.closed, p.open, p.closed[k], k == 0);
      } else {
        GroupBound(p.closed, p.open, p.open, p.closed == []);
      }
    }
  }

  /** The bound for one chunk of a grouping. */
  lemma GroupBound(closed: seq<seq<string>>, open: seq<string>, g: seq<string>, first: bool)
    requires (g in closed || g == open) && Fits(g, first) && (first || g != [])
    ensures |ChunkText(g, first)| <= MaxChars + 1 || ChunkText(g, first) in Flatten(closed) + open
  {
    if first || |g| >= 2 {
      ChunkLengthBound(g, first);
    } else {
      InFlatten(closed, open, g);
    }
  }

  /** A one-sentence group's sentence is one of the input sentences. */
  lemma InFlatten(closed: seq<seq<string>>, open: seq<string>, g: seq<string>)
    requires g in closed || g == open
    requires |g| == 1
    ensures g[0] in Flatten(closed) + open
  {
    if g in closed {
      FlattenContains(closed, g);
    }
  }

  lemma {:induction false} FlattenContains(groups: seq<seq<string>>, g: seq<string>)
    requires g in groups && g != []
    ensures g[0] in Flatten(groups)
  {
    var last := groups[|groups| - 1];
    if g != last {
      assert g in groups[..|groups| - 1];
      FlattenContains(groups[..|groups| - 1], g);
    }
  }

  /** The closed chunks only grow: those after a prefix of the input are a
      prefix of those after all of it. */
  lemma {:induction false} PackClosedGrows(sents: seq<string>, i: nat)
    requires i <= |sents|
    ensures Pack(sents[..i]).closed <= Pack(sents).closed
    decreases |sents| - i
  {
    if i < |sents| {
      var init := sents[..|sents| - 1];
      assert init[..i] == sents[..i];
      PackClosedGrows(init, i);
    } else {
      assert sents[..i] == sents;
    }
  }

  /** If the very first sentence alone exceeds `MaxChars`, the empty initial
      chunk is closed and handed to the model as the first chunk text. */
  lemma EmptyFirstChunk(sents: seq<string>)
    requires sents != [] && |sents[0]| > MaxChars
    ensures ChunkTexts(sents) != [] && ChunkTexts(sents)[0] == ""
  {
    PackClosedGrows(sents, 1);
    assert sents[..1][..0] == [];
    assert Pack(sents[..1]).closed == [[]];
  }

  /** Two sentences of 1499 and 1500 characters fill one chunk of 3001
      characters: one more than `MaxChars`. */
  lemma ChunkCanExceedBudget(a: string, b: string)
    requires |a| == 1499 && |b| == 1500 && !AllSpace(a)
    ensures ChunkTexts([a, b]) == [" " + a + " " + b]
    ensures |ChunkTexts([a, b])[0]| == MaxChars + 1
  {
    var sents := [a, b];
    assert sents[..1] == [a] && [a][..0] == [];
    assert Pack([a]) == Packing([], [a]);
    assert sents[..1] + [b] == sents;
    assert Pack(sents) == Packing([], [a, b]);
    var text := ChunkText([a, b], true);
    assert [a, b][..1] == [a];
    assert text == " " + a + " " + b;
    if AllSpace(text) {
      assert forall j :: 0 <= j < |a| ==> a[j] == text[j + 1];
    }
  }

  /** A chunk shorter than 100 characters gets a `max_length` below its
      `min_length` of 50. */
  lemma ShortChunkLengthsInverted(chunkLength: nat)
    requires chunkLength < 100
    ensures ChunkMaxLength(chunkLength) < ChunkMinLength
  {
  }
}
