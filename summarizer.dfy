/** The text pipeline of the top-level `summarizer.py`: citation removal, the
    choice between the direct and the TextRank route, and the spacing fix on the
    model's output. TextRank and the sampling summarization model are opaque and
    come in as function parameters. */
module Summarizer {
  import opened Text
  import opened Regex

  /** `clean_text`: drops bracketed citation numbers such as `[12]`. */
  function CleanText(text: string): string {
    DeleteAll(Citation, text)
  }

  /** Cleaning only deletes characters, so it never lengthens the text. */
  lemma CleanTextDeletes(text: string)
    ensures IsSubsequence(CleanText(text), text) && |CleanText(text)| <= |text|
  {
    DeleteAllDeletes(Citation, text);
  }

  /** Text without `[` comes back unchanged. */
  lemma CleanTextNoBracket(text: string)
    requires '[' !in text
    ensures CleanText(text) == text
  {
    assert NoMatch(Citation, text) by {
      forall i | 0 <= i < |text| ensures MatchLen(Citation, text[i..]) == 0 {
        assert text[i..][0] == text[i];
      }
    }
    NoMatchKept(Citation, text);
  }

  /** A bracketed run of digits is deleted. */
  lemma CleanTextCitation(digits: string)
    requires digits != [] && AllDigits(digits)
    ensures CleanText("[" + digits + "]") == ""
  {
    var t := "[" + digits + "]";
    assert t[1..|t| - 1] == digits;
    assert IsCitation(t);
    CitationMatches(t, []);
    assert t + [] == t;
    DeleteAllFront(Citation, t, []);
  }

  /** `[a]` and `[]` are not citations and stay. */
  lemma CleanTextKeepsNonCitations()
    ensures CleanText("[a]") == "[a]" && CleanText("[]") == "[]"
  {
    var t := "[a]";
    assert DigitRun(t[1..]) == 0;
    assert t[1..][0] == 'a';
    assert MatchLen(Citation, t) == 0;
    assert t[1..] == "a]" && "a]"[1..] == "]" && "]"[1..] == [];
    assert DeleteAll(Citation, "]") == "]";
    assert DeleteAll(Citation, "a]") == "a]";
    var e := "[]";
    assert e[1..] == "]";
    assert MatchLen(Citation, e) == 0;
  }

  /** The punctuation that `fix_spacing` pulls back onto the preceding word. */
  predicate IsPunct(c: char) {
    c == '.' || c == ',' || c == '!' || c == '?'
  }

  /** Length of the `\s+([.,!?])` match at the start of `s`: a whitespace run
      and the punctuation mark right after it; 0 when there is none. */
  function SpacedPunctLen(s: string): (k: nat)
    ensures k <= |s|
    ensures k > 0 ==> k >= 2 && AllSpace(s[..k - 1]) && IsPunct(s[k - 1])
  {
    var w := SpaceRun(s);
    if 0 < w < |s| && IsPunct(s[w]) then w + 1 else 0
  }

  /** Every whitespace run followed by a punctuation mark is matched, the
      mark included, whatever comes after it. */
  lemma SpacedPunctMatches(w: string, p: char, rest: string)
    requires w != [] && AllSpace(w) && IsPunct(p)
    ensures SpacedPunctLen(w + [p] + rest) == |w| + 1
  {
    var s := w + [p] + rest;
    assert s[..|w|] == w && s[|w|] == p;
    SpaceRunIs(s, |w|);
  }

  /** No whitespace character is immediately followed by `.`, `,`, `!` or `?`. */
  predicate NoSpaceBeforePunct(s: string) {
    forall i :: 0 <= i < |s| - 1 ==> !(IsSpace(s[i]) && IsPunct(s[i + 1]))
  }

  /** `fix_spacing`: `re.sub(r'\s+([.,!?])', r'\1', text)`. Scanning left to
      right, a whitespace run followed by a punctuation mark is replaced by the
      mark; every other character is kept. */
  function FixSpacing(s: string): (r: string)
    ensures |r| <= |s|
    ensures r == [] <==> s == []
    ensures r != [] && IsPunct(r[0]) ==> IsPunct(s[0]) || SpacedPunctLen(s) > 0
    ensures NoSpaceBeforePunct(r)
    decreases |s|
  {
    if s == [] then []
    else
      var k := SpacedPunctLen(s);
      if k > 0 then
        var rest := FixSpacing(s[k..]);
        PrependKeepsSpacing(s[k - 1], rest);
        [s[k - 1]] + rest
      else
        var rest := FixSpacing(s[1..]);
        assert IsSpace(s[0]) && rest != [] ==> !IsPunct(rest[0]) by {
          if IsSpace(s[0]) && |s| > 1 {
            assert SpaceRun(s) == 1 + SpaceRun(s[1..]);
          }
        }
        PrependKeepsSpacing(s[0], rest);
        [s[0]] + rest
  }

  /** A character put in front keeps the property unless it is whitespace and
      the text starts with a punctuation mark. */
  lemma PrependKeepsSpacing(c: char, r: string)
    requires NoSpaceBeforePunct(r) && (r == [] || !(IsSpace(c) && IsPunct(r[0])))
    ensures NoSpaceBeforePunct([c] + r)
  {
    var t := [c] + r;
    forall i | 0 <= i < |t| - 1 ensures !(IsSpace(t[i]) && IsPunct(t[i + 1])) {
      if i > 0 {
        assert t[i] == r[i - 1] && t[i + 1] == r[i];
      }
    }
  }

  /** The spacing fix deletes only whitespace: every other character is kept,
      in order. */
  lemma {:induction false} FixSpacingKeepsVisible(s: string)
    ensures Visible(FixSpacing(s)) == Visible(s)
    decreases |s|
  {
    if s != [] {
      var k := SpacedPunctLen(s);
      if k > 0 {
        FixSpacingKeepsVisible(s[k..]);
        VisibleSkipsSpaces(s, k - 1);
        VisibleCons(s[k - 1], FixSpacing(s[k..]));
      } else {
        FixSpacingKeepsVisible(s[1..]);
        assert s == [s[0]] + s[1..];
        VisibleCons(s[0], s[1..]);
        VisibleCons(s[0], FixSpacing(s[1..]));
      }
    }
  }

  /** Text with no whitespace before punctuation is left alone. */
  lemma {:induction false} FixSpacingKeeps(s: string)
    requires NoSpaceBeforePunct(s)
    ensures FixSpacing(s) == s
    decreases |s|
  {
    if s != [] {
      assert NoSpaceBeforePunct(s[1..]) by {
        forall i | 0 <= i < |s| - 2 ensures !(IsSpace(s[1..][i]) && IsPunct(s[1..][i + 1])) {
          assert s[1..][i] == s[i + 1] && s[1..][i + 1] == s[i + 2];
        }
      }
      FixSpacingKeeps(s[1..]);
    }
  }

  /** The spacing fix changes the text exactly when some whitespace stands
      before a punctuation mark. */
  lemma FixSpacingIdentity(s: string)
    ensures FixSpacing(s) == s <==> NoSpaceBeforePunct(s)
  {
    if NoSpaceBeforePunct(s) {
      FixSpacingKeeps(s);
    }
  }

  /** Whether `fix_spacing` drops the first character of `s`: it is whitespace,
      and the whitespace run it starts is followed by a punctuation mark. */
  predicate DroppedBeforePunct(s: string)
    requires s != []
  {
    IsSpace(s[0]) && SpaceRun(s) < |s| && IsPunct(s[SpaceRun(s)])
  }

  /** The spacing fix character by character: each position is dropped or
      kept on its own, by `DroppedBeforePunct` of the text from there on. */
  function SpacingFilter(s: string): string
    decreases |s|
  {
    if s == [] then []
    else (if DroppedBeforePunct(s) then [] else [s[0]]) + SpacingFilter(s[1..])
  }

  /** The spacing fix drops exactly the whitespace that stands, through its run,
      before a punctuation mark, and keeps every other character in order. */
  lemma {:induction false} FixSpacingIsFilter(s: string)
    ensures FixSpacing(s) == SpacingFilter(s)
    decreases |s|
  {
    if s != [] {
      var k := SpacedPunctLen(s);
      var w := SpaceRun(s);
      if k > 0 {
        assert s[0..] == s;
        FilterSkipsRun(s, 0);
        var u := s[w..];
        assert u[0] == s[w] && u[1..] == s[k..];
        assert !DroppedBeforePunct(u);
        FixSpacingIsFilter(s[k..]);
      } else {
        assert !DroppedBeforePunct(s);
        FixSpacingIsFilter(s[1..]);
      }
    }
  }

  /** Inside a whitespace run that ends at a punctuation mark, every position
      is dropped. */
  lemma {:induction false} FilterSkipsRun(s: string, j: nat)
    requires j <= SpaceRun(s) < |s| && IsPunct(s[SpaceRun(s)])
    ensures SpacingFilter(s[j..]) == SpacingFilter(s[SpaceRun(s)..])
    decreases SpaceRun(s) - j
  {
    var w := SpaceRun(s);
    if j < w {
      var u := s[j..];
      assert u[..w - j] == s[j..w] && u[w - j] == s[w];
      SpaceRunIs(u, w - j);
      assert DroppedBeforePunct(u);
      assert u[1..] == s[j + 1..];
      FilterSkipsRun(s, j + 1);
    }
  }

  /** Whitespace whose run is not followed by a punctuation mark survives the
      spacing fix, and so does every other character. */
  lemma {:induction false} FilterDeletes(s: string)
    ensures IsSubsequence(SpacingFilter(s), s)
    decreases |s|
  {
    if s != [] {
      FilterDeletes(s[1..]);
      var r := SpacingFilter(s);
      if !DroppedBeforePunct(s) {
        assert r[0] == s[0] && r[1..] == SpacingFilter(s[1..]);
      } else {
        assert r == [] + SpacingFilter(s[1..]) == SpacingFilter(s[1..]);
      }
    }
  }

  /** The spacing fix only deletes characters. */
  lemma FixSpacingDeletes(s: string)
    ensures IsSubsequence(FixSpacing(s), s)
  {
    FixSpacingIsFilter(s);
    FilterDeletes(s);
  }

  /** Fixing the spacing twice is the same as fixing it once. */
  lemma FixSpacingIdempotent(s: string)
    ensures FixSpacing(FixSpacing(s)) == FixSpacing(s)
  {
    FixSpacingKeeps(FixSpacing(s));
  }

  /** `max(3, min(15, length // 100))` for a text of `words` words. */
  function SentencesForWordCount(words: nat): (n: int)
    ensures 3 <= n <= 15
    ensures 300 <= words < 1600 ==> n == words / 100
  {
    Max(3, Min(15, words / 100))
  }

  /** More words never ask for fewer sentences. */
  lemma SentencesMonotone(a: nat, b: nat)
    requires a <= b
    ensures SentencesForWordCount(a) <= SentencesForWordCount(b)
  {
    assert a / 100 <= b / 100;
  }

  /** `decide_num_sentences`: the sentence count for the words of `text`
      (`len(text.split())`). */
  function DecideNumSentences(text: string): (n: int)
    ensures 3 <= n <= 15
  {
    SentencesForWordCount(|Words(text)|)
  }

  /** `extract_key_sentences_textrank`: `textRank` stands for sumy's TextRank
      summarizer, returning the sentences it picks. */
  function ExtractKeySentencesTextRank(text: string, numSentences: int,
                                       textRank: (string, int) -> seq<string>): string
  {
    Join(" ", textRank(text, numSentences))
  }

  /** `summarize`: clean, send short texts to the model directly and long ones
      through TextRank first, then fix the spacing of the model's output.
      `sample` stands for the sampling summarization model. */
  function Summarize(longText: string, textRank: (string, int) -> seq<string>,
                     sample: string -> string): (summary: string)
    ensures NoSpaceBeforePunct(summary)
  {
    var cleaned := CleanText(longText);
    var modelOutput :=
      if |Words(cleaned)| < 200 then sample(cleaned)
      else sample(ExtractKeySentencesTextRank(cleaned, DecideNumSentences(cleaned), textRank));
    FixSpacing(modelOutput)
  }

  /** A text of fewer than 200 words after cleaning goes to the model as it is:
      TextRank is never consulted. */
  lemma SummarizeShortText(longText: string, textRank: (string, int) -> seq<string>,
                           otherRank: (string, int) -> seq<string>, sample: string -> string)
    requires |Words(CleanText(longText))| < 200
    ensures Summarize(longText, textRank, sample) == FixSpacing(sample(CleanText(longText)))
    ensures Summarize(longText, textRank, sample) == Summarize(longText, otherRank, sample)
  {
  }

  /** A longer text is cut down by TextRank to between 3 and 15 sentences,
      one per hundred words of the cleaned text, and only those reach the model. */
  lemma SummarizeLongText(longText: string, textRank: (string, int) -> seq<string>,
                          sample: string -> string)
    requires |Words(CleanText(longText))| >= 200
    ensures var cleaned := CleanText(longText);
      var words := |Words(cleaned)|;
      var n := DecideNumSentences(cleaned);
      && 3 <= n <= 15
      && (words < 400 ==> n == 3)
      && (300 <= words < 1600 ==> n == words / 100)
      && (words >= 1600 ==> n == 15)
      && Summarize(longText, textRank, sample) == FixSpacing(sample(Join(" ", textRank(cleaned, n))))
  {
  }
}
