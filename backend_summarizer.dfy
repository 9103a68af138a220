/** The text pipeline of `backend/summarizer.py`: cleaning, preselection of the
    longest sentences, the length parameters and the chunked abstractive
    summary. The sentence splitters and the summarization model are opaque and
    come in as function parameters. */
module BackendSummarizer {
  import opened Text
  import opened Regex
  import KeySentences
  import opened Chunking

  /** `clean_text`: drop citation numbers, collapse whitespace, drop page
      markers and links, then strip. */
  function CleanText(text: string): string {
    var noCitations := DeleteAll(Citation, text);
    var collapsed := CollapseSpaces(noCitations);
    var noPages := DeleteAll(PageMarker, collapsed);
    var noLinks := DeleteAll(Url, noPages);
    Strip(noLinks)
  }

  /** The cleaned text has no leading or trailing whitespace, and every
      whitespace character left in it is a plain space: collapsing turned each
      run into `' '`, and the later steps only delete. */
  lemma CleanTextShape(text: string)
    ensures var r := CleanText(text);
      && (r == [] || (!IsSpace(r[0]) && !IsSpace(r[|r| - 1])))
      && OnlyPlainSpaces(r)
  {
    var collapsed := CollapseSpaces(DeleteAll(Citation, text));
    var noPages := DeleteAll(PageMarker, collapsed);
    var noLinks := DeleteAll(Url, noPages);
    CollapseShape(DeleteAll(Citation, text));
    assert OnlyPlainSpaces(collapsed);
    DeleteKeepsPlainSpaces(PageMarker, collapsed);
    DeleteKeepsPlainSpaces(Url, noPages);
    StripKeepsPlainSpaces(noLinks);
  }

  /** A text without `[` holds no citation. */
  lemma NoBracketNoCitation(s: string)
    requires '[' !in s
    ensures NoMatch(Citation, s)
  {
    forall i | 0 <= i < |s| ensures MatchLen(Citation, s[i..]) == 0 {
    }
  }

  /** The text of a page marker with page number `d1` and page count `d2`,
      where `sep` stands between the page number and `of`. */
  function PageText(d1: string, sep: string, d2: string): string {
    "Page " + (d1 + (sep + ("of " + d2)))
  }

  /** `Page <d1> of <d2>` with two digit strings is a page marker. */
  lemma PageTextIsMarker(d1: string, d2: string)
    requires d1 != [] && AllDigits(d1) && d2 != [] && AllDigits(d2)
    ensures IsPageMarker(PageText(d1, " ", d2))
  {
    var m := PageText(d1, " ", d2);
    var a := |d1|;
    var x := d1 + (" " + ("of " + d2));
    assert m[..5] == "Page " && m[5..] == x;
    assert x[..a] == d1 && x[a..] == " " + ("of " + d2);
    assert x[a..][..4] == " of " && x[a..][4..] == d2;
    MarkerFromParts(m, a);
  }

  /** The marker check, read off the pieces of `m`. */
  lemma MarkerFromParts(m: string, a: nat)
    requires |m| > 9 + a && m[..5] == "Page " && a > 0
    requires AllDigits(m[5..][..a]) && m[5..][a..][..4] == " of " && AllDigits(m[5..][a..][4..])
    ensures IsPageMarker(m)
  {
    var x := m[5..];
    assert x[a] == x[a..][..4][0] == ' ';
    DigitRunIs(x, a);
    assert m[5 + a..9 + a] == x[a..][..4];
    assert m[9 + a..] == x[a..][4..];
  }

  /** A page marker as it may stand in a document before the whitespace is
      collapsed: `w0`, `w1` and `w2` are the whitespace runs after `Page`,
      before `of` and after `of`, line breaks say. */
  function BrokenPageText(w0: string, d1: string, w1: string, w2: string, d2: string): string {
    "Page" + (w0 + (d1 + (w1 + ("of" + (w2 + d2)))))
  }

  /** With single spaces the broken form is the marker itself. */
  lemma BrokenPageCanonical(d1: string, d2: string)
    ensures BrokenPageText(" ", d1, " ", " ", d2) == PageText(d1, " ", d2)
  {
  }

  /** The runs around `of` collapse to single spaces. */
  lemma CollapseBrokenTail(w1: string, w2: string, d2: string)
    requires w1 != [] && AllSpace(w1) && w2 != [] && AllSpace(w2)
    requires d2 != [] && AllDigits(d2)
    ensures CollapseSpaces(w1 + ("of" + (w2 + d2))) == " " + ("of" + (" " + d2))
  {
    CollapseNoSpace(d2);
    CollapseLeadingRun(w2, d2);
    CollapseNoSpace("of");
    CollapseSplit("of", w2 + d2);
    var t := "of" + (w2 + d2);
    assert t[0] == 'o';
    CollapseLeadingRun(w1, t);
  }

  /** The page number and everything after it, broken at two runs. */
  lemma CollapseBrokenNumbers(d1: string, w1: string, w2: string, d2: string)
    requires d1 != [] && AllDigits(d1) && d2 != [] && AllDigits(d2)
    requires w1 != [] && AllSpace(w1) && w2 != [] && AllSpace(w2)
    ensures CollapseSpaces(d1 + (w1 + ("of" + (w2 + d2)))) == d1 + (" " + ("of" + (" " + d2)))
  {
    var tail := w1 + ("of" + (w2 + d2));
    CollapseBrokenTail(w1, w2, d2);
    CollapseNoSpace(d1);
    assert IsDigit(d1[|d1| - 1]);
    CollapseSplit(d1, tail);
  }

  /** Every whitespace run inside a page marker, a line break say, collapses
      to the one space the pattern expects. */
  lemma CollapseBrokenPage(w0: string, d1: string, w1: string, w2: string, d2: string)
    requires d1 != [] && AllDigits(d1) && d2 != [] && AllDigits(d2)
    requires w0 != [] && AllSpace(w0) && w1 != [] && AllSpace(w1) && w2 != [] && AllSpace(w2)
    ensures CollapseSpaces(BrokenPageText(w0, d1, w1, w2, d2)) == PageText(d1, " ", d2)
  {
    var t := d1 + (w1 + ("of" + (w2 + d2)));
    CollapseBrokenNumbers(d1, w1, w2, d2);
    assert t[0] == d1[0];
    CollapseNoSpace("Page");
    CollapseWordRun("Page", w0, t, d1 + (" " + ("of" + (" " + d2))));
    BrokenPageCanonical(d1, d2);
  }

  /** A word, a whitespace run and a text starting with a non-space
      character: the run becomes one space. */
  lemma CollapseWordRun(p: string, w: string, t: string, r: string)
    requires p != [] && CollapseSpaces(p) == p && !IsSpace(p[|p| - 1])
    requires w != [] && AllSpace(w) && t != [] && !IsSpace(t[0]) && CollapseSpaces(t) == r
    ensures CollapseSpaces(p + (w + t)) == p + (" " + r)
  {
    CollapseLeadingRun(w, t);
    CollapseSplit(p, w + t);
  }

  /** A page marker holds no `[`, so the citation pass keeps it. */
  lemma BrokenPageNoCitation(w0: string, d1: string, w1: string, w2: string, d2: string)
    requires AllDigits(d1) && AllDigits(d2) && AllSpace(w0) && AllSpace(w1) && AllSpace(w2)
    ensures DeleteAll(Citation, BrokenPageText(w0, d1, w1, w2, d2)) == BrokenPageText(w0, d1, w1, w2, d2)
  {
    var t := BrokenPageText(w0, d1, w1, w2, d2);
    assert '[' !in d1 && '[' !in d2 && '[' !in w0 && '[' !in w1 && '[' !in w2;
    assert '[' !in t;
    NoBracketNoCitation(t);
    NoMatchKept(Citation, t);
  }

  /** A single-spaced marker comes through the citation pass and the collapse
      unchanged. */
  lemma PageTextSettled(d1: string, d2: string)
    requires d1 != [] && AllDigits(d1) && d2 != [] && AllDigits(d2)
    ensures var m := PageText(d1, " ", d2);
      DeleteAll(Citation, m) == m && CollapseSpaces(m) == m
  {
    BrokenPageCanonical(d1, d2);
    BrokenPageNoCitation(" ", d1, " ", " ", d2);
    CollapseBrokenPage(" ", d1, " ", " ", d2);
  }

  /** Whitespace is collapsed before page markers are looked for, so a marker
      broken over lines anywhere (`Page\n3\nof\n9`) is deleted all the same. */
  lemma PageMarkerAcrossLines(w0: string, d1: string, w1: string, w2: string, d2: string)
    requires d1 != [] && AllDigits(d1) && d2 != [] && AllDigits(d2)
    requires w0 != [] && AllSpace(w0) && w1 != [] && AllSpace(w1) && w2 != [] && AllSpace(w2)
    ensures CleanText(BrokenPageText(w0, d1, w1, w2, d2)) == ""
  {
    var m := PageText(d1, " ", d2);
    BrokenPageNoCitation(w0, d1, w1, w2, d2);
    CollapseBrokenPage(w0, d1, w1, w2, d2);
    PageTextIsMarker(d1, d2);
    PageMarkerMatches(m, []);
    assert m + [] == m;
    DeleteAllFront(PageMarker, m, []);
  }

  /** A visible character that starts none of the three patterns: not `[`,
      not `P`, not `h`. */
  predicate Ordinary(c: char) {
    !IsSpace(c) && c != '[' && c != 'P' && c != 'h'
  }

  /** The text around the marker below holds no citation. */
  lemma MarkerBetweenWordsNoCitation(a: char, m: string, b: char)
    requires '[' !in m && Ordinary(a) && Ordinary(b)
    ensures var s := [a, ' '] + (m + [' ', b]); DeleteAll(Citation, s) == s
  {
    var s := [a, ' '] + (m + [' ', b]);
    assert '[' !in m + [' ', b];
    NoBracketNoCitation(s);
    NoMatchKept(Citation, s);
  }

  lemma CollapseEdgeWords(a: char, b: char)
    requires !IsSpace(a) && !IsSpace(b)
    ensures CollapseSpaces([a, ' ']) == [a, ' '] && CollapseSpaces([' ', b]) == [' ', b]
  {
    assert [a, ' '][1..] == [' '] && [' '][1..] == [];
    assert [' ', b][1..] == [b] && [b][1..] == [];
  }

  /** The text around the marker below is single-spaced already. */
  lemma MarkerBetweenWordsCollapsed(a: char, m: string, b: char)
    requires m != [] && CollapseSpaces(m) == m
    requires !IsSpace(m[0]) && !IsSpace(m[|m| - 1]) && Ordinary(a) && Ordinary(b)
    ensures var s := [a, ' '] + (m + [' ', b]); CollapseSpaces(s) == s
  {
    CollapseEdgeWords(a, b);
    CollapseSplit(m, [' ', b]);
    CollapseSplit([a, ' '], m + [' ', b]);
  }

  /** No page marker starts at a character other than `P`. */
  lemma NoMarkerAt(c: char, rest: string)
    requires c != 'P'
    ensures MatchLen(PageMarker, [c] + rest) == 0
  {
    var s := [c] + rest;
    if |s| > 5 {
      assert s[..5][0] == c;
    }
  }

  /** The page-marker pass keeps a character other than `P`. */
  lemma KeptBeforeMarker(c: char, rest: string)
    requires c != 'P'
    ensures DeleteAll(PageMarker, [c] + rest) == [c] + DeleteAll(PageMarker, rest)
  {
    NoMarkerAt(c, rest);
    DeleteAllKeep(PageMarker, c, rest);
  }

  /** The space and the word after the marker are kept. */
  lemma SpaceWordKept(b: char)
    requires Ordinary(b)
    ensures DeleteAll(PageMarker, [' ', b]) == [' ', b]
  {
    assert [' ', b] == [' '] + [b] && [b] == [b] + [];
    KeptBeforeMarker(b, []);
    KeptBeforeMarker(' ', [b]);
  }

  /** A marker followed by a space and a word: the marker goes, the rest stays. */
  lemma MarkerThenWord(m: string, b: char)
    requires IsPageMarker(m) && Ordinary(b)
    ensures DeleteAll(PageMarker, m + [' ', b]) == [' ', b]
  {
    PageMarkerMatches(m, [' ', b]);
    DeleteAllFront(PageMarker, m, [' ', b]);
    SpaceWordKept(b);
  }

  /** The page-marker pass deletes the marker and keeps both spaces. */
  lemma MarkerBetweenWordsDeleted(a: char, m: string, b: char)
    requires IsPageMarker(m) && Ordinary(a) && Ordinary(b)
    ensures DeleteAll(PageMarker, [a, ' '] + (m + [' ', b])) == [a, ' ', ' ', b]
  {
    var tail := m + [' ', b];
    MarkerThenWord(m, b);
    NoMarkerAt(' ', tail);
    NoMarkerAt(a, [' '] + tail);
    KeepTwo(PageMarker, a, tail, b);
  }

  /** Deleting a link between two words leaves the two spaces around it too. */
  lemma UrlDeletionLeavesDoubleSpace(a: char, u: string, b: char)
    requires IsUrl(u) && Ordinary(a) && Ordinary(b)
    ensures DeleteAll(Url, [a, ' '] + (u + [' ', b])) == [a, ' ', ' ', b]
  {
    var tail := u + [' ', b];
    UrlDeleted(u, [' ', b]);
    UrlFreeKept([' ', b]);
    NoUrlAt(' ', tail);
    NoUrlAt(a, [' '] + tail);
    KeepTwo(Url, a, tail, b);
  }

  /** Two words apart by two spaces hold no link and have no whitespace at
      their edges. */
  lemma DoubleSpaceKept(a: char, b: char)
    requires Ordinary(a) && Ordinary(b)
    ensures Strip(DeleteAll(Url, [a, ' ', ' ', b])) == [a, ' ', ' ', b]
  {
    var t := [a, ' ', ' ', b];
    assert 'h' !in t;
    UrlFreeKept(t);
    StripKeeps(t);
  }

  /** Deleting a page marker between two words leaves the two spaces around
      it: `a Page 3 of 9 b` cleans to `a  b`, not `a b`. */
  lemma DeletionLeavesDoubleSpace(a: char, d1: string, d2: string, b: char)
    requires d1 != [] && AllDigits(d1) && d2 != [] && AllDigits(d2)
    requires Ordinary(a) && Ordinary(b)
    ensures CleanText([a, ' '] + (PageText(d1, " ", d2) + [' ', b])) == [a, ' ', ' ', b]
  {
    var m := PageText(d1, " ", d2);
    var s := [a, ' '] + (m + [' ', b]);
    PageBetweenWordsSettled(a, d1, d2, b);
    var collapsed := CollapseSpaces(DeleteAll(Citation, s));
    PageTextIsMarker(d1, d2);
    MarkerBetweenWordsDeleted(a, m, b);
    assert DeleteAll(PageMarker, collapsed) == [a, ' ', ' ', b];
    DoubleSpaceKept(a, b);
  }

  /** The citation and whitespace passes leave a marker between two words
      as it is. */
  lemma PageBetweenWordsSettled(a: char, d1: string, d2: string, b: char)
    requires d1 != [] && AllDigits(d1) && d2 != [] && AllDigits(d2)
    requires Ordinary(a) && Ordinary(b)
    ensures var s := [a, ' '] + (PageText(d1, " ", d2) + [' ', b]);
      CollapseSpaces(DeleteAll(Citation, s)) == s
  {
    var m := PageText(d1, " ", d2);
    PageTextSettled(d1, d2);
    PageTextEdges(d1, d2);
    assert '[' !in "Page " && '[' !in " " && '[' !in "of " && '[' !in d1 && '[' !in d2;
    assert '[' !in m;
    MarkerBetweenWordsNoCitation(a, m, b);
    MarkerBetweenWordsCollapsed(a, m, b);
  }

  /** A page marker starts with `P` and ends with a digit. */
  lemma PageTextEdges(d1: string, d2: string)
    requires d2 != [] && AllDigits(d2)
    ensures var m := PageText(d1, " ", d2);
      m != [] && !IsSpace(m[0]) && !IsSpace(m[|m| - 1])
  {
    var m := PageText(d1, " ", d2);
    assert m[0] == 'P';
    assert m[|m| - 1] == d2[|d2| - 1];
  }

  /** `extract_key_sentences(text, n)`; `sentTokenize` stands for NLTK's
      `sent_tokenize`. */
  function ExtractKeySentences(text: string, n: int, sentTokenize: string -> seq<string>): string {
    var sentences := sentTokenize(text);
    if |sentences| <= n then Join(" ", sentences)
    else Join(" ", KeySentences.TopSentences(sentences, n))
  }

  /** The sentences `nlargest` keeps: `n` of the input's, in descending
      `(len(s), s)` order, each outranking every one dropped. */
  predicate KeepsLongest(top: seq<string>, sents: seq<string>, n: nat) {
    && |top| == n
    && multiset(top) <= multiset(sents)
    && KeySentences.Descending(top)
    && forall k, d :: k in top && d in multiset(sents) - multiset(top) ==> KeySentences.Outranks(k, d)
  }

  /** At most `n` sentences come back space-joined in their original order;
      more than `n` are cut down to the `n` longest, joined in descending
      `(length, text)` order rather than in original order. */
  lemma ExtractKeySentencesSpec(text: string, n: int, sentTokenize: string -> seq<string>)
    ensures var sents := sentTokenize(text);
      && (|sents| <= n ==> ExtractKeySentences(text, n, sentTokenize) == Join(" ", sents))
      && (0 <= n < |sents| ==>
            exists top :: (KeepsLongest(top, sents, n)
                           && ExtractKeySentences(text, n, sentTokenize) == Join(" ", top)))
  {
    var sents := sentTokenize(text);
    if 0 <= n < |sents| {
      KeySentences.TopSentencesSelect(sents, n);
      var top := KeySentences.TopSentences(sents, n);
      assert KeepsLongest(top, sents, n);
    }
  }

  /** `max_len = min(250, max(80, int(text_length * 0.5)))`. */
  function MaxLength(textLength: nat): (m: nat)
    ensures 80 <= m <= 250
    ensures textLength < 160 ==> m == 80
    ensures 160 <= textLength < 502 ==> m == textLength / 2
    ensures textLength >= 500 ==> m == 250
  {
    Min(250, Max(80, textLength / 2))
  }

  /** `min_len = min(80, max(50, int(max_len * 0.5)))`. */
  function MinLength(maxLength: nat): (m: nat)
    ensures 50 <= m <= 80
    ensures maxLength < 100 ==> m == 50
    ensures 100 <= maxLength < 162 ==> m == maxLength / 2
    ensures maxLength >= 160 ==> m == 80
  {
    Min(80, Max(50, maxLength / 2))
  }

  /** For every text length the single-shot call gets `50 <= min_len <= max_len`. */
  lemma LengthsOrdered(textLength: nat)
    ensures 50 <= MinLength(MaxLength(textLength)) <= MaxLength(textLength) <= 250
  {
  }

  /** The summaries of the chunks, in order. */
  function ChunkSummaries(model: Model, texts: seq<string>): (r: seq<string>)
    ensures |r| == |texts|
  {
    seq(|texts|, k requires 0 <= k < |texts| => SummarizeChunk(model, texts[k]))
  }

  /** What `abstractive_summarize` returns: a preselection of at most
      `MaxChars` characters is summarized in one call; a longer one is split
      into sentences, packed into chunks, each chunk summarized, and the joined
      chunk summaries summarized once more. */
  function Abstractive(text: string, sentTokenize: string -> seq<string>,
                       sentences: string -> seq<string>, model: Model): string
  {
    var preselected := ExtractKeySentences(text, 8, sentTokenize);
    if |preselected| <= MaxChars then
      var maxLen := MaxLength(|preselected|);
      model(preselected, maxLen, MinLength(maxLen))
    else
      var combined := Join(" ", ChunkSummaries(model, ChunkTexts(sentences(preselected))));
      model(combined, 250, 80)
  }

  /** `abstractive_summarize`; `sentences` stands for spaCy's sentence split
      (`nlp(text).sents`) and `model` for the summarization pipeline. */
  method AbstractiveSummarize(text: string, sentTokenize: string -> seq<string>,
                              sentences: string -> seq<string>, model: Model)
    returns (summary: string)
    ensures summary == Abstractive(text, sentTokenize, sentences, model)
  {
    var preselected := ExtractKeySentences(text, 8, sentTokenize);
    var textLength := |preselected|;
    var maxLen := MaxLength(textLength);
    var minLen := MinLength(maxLen);
    if |preselected| <= MaxChars {
      summary := model(preselected, maxLen, minLen);
      return;
    }
    var chunks := SummarizeChunks(sentences(preselected), model);
    assert chunks == ChunkSummaries(model, ChunkTexts(sentences(preselected)));
    var combined := Join(" ", chunks);
    summary := model(combined, 250, 80);
  }

  /** `summarize`: clean, then summarize abstractively. */
  method Summarize(text: string, sentTokenize: string -> seq<string>,
                   sentences: string -> seq<string>, model: Model)
    returns (summary: string)
    ensures summary == Abstractive(CleanText(text), sentTokenize, sentences, model)
  {
    var cleaned := CleanText(text);
    summary := AbstractiveSummarize(cleaned, sentTokenize, sentences, model);
  }
}
