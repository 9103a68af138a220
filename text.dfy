/** Character classes and the small string operations of Python's `str` that the
    summarizer pipeline relies on: whitespace, `strip()`, `split()`, `" ".join(...)`. */
module Text {

  /** Python's `str.isspace()`; `re`'s `\s` on `str` patterns, `str.split()` and
      `str.strip()` all use this same set of 29 code points. */
  predicate IsSpace(c: char) {
    ('\t' <= c <= '\r') || ('\U{1c}' <= c <= ' ') || c == '\U{85}' || c == '\U{a0}'
    || c == '\U{1680}' || ('\U{2000}' <= c <= '\U{200a}') || c == '\U{2028}'
    || c == '\U{2029}' || c == '\U{202f}' || c == '\U{205f}' || c == '\U{3000}'
  }

  /** The decimal digits matched by `\d` (ASCII only in this model). */
  predicate IsDigit(c: char) {
    '0' <= c <= '9'
  }

  function Max(a: int, b: int): int {
    if a >= b then a else b
  }

  function Min(a: int, b: int): int {
    if a <= b then a else b
  }

  predicate AllDigits(s: string) {
    forall i :: 0 <= i < |s| ==> IsDigit(s[i])
  }

  predicate NoSpace(s: string) {
    forall i :: 0 <= i < |s| ==> !IsSpace(s[i])
  }

  predicate AllSpace(s: string) {
    forall i :: 0 <= i < |s| ==> IsSpace(s[i])
  }

  /** Every whitespace character in `s` is the plain space `' '`. */
  predicate OnlyPlainSpaces(s: string) {
    forall i :: 0 <= i < |s| && IsSpace(s[i]) ==> s[i] == ' '
  }

  /** Length of the longest prefix of `s` made of digits. */
  function DigitRun(s: string): (k: nat)
    ensures k <= |s| && AllDigits(s[..k])
    ensures k < |s| ==> !IsDigit(s[k])
  {
    if s != [] && IsDigit(s[0]) then 1 + DigitRun(s[1..]) else 0
  }

  /** Length of the longest prefix of `s` made of whitespace. */
  function SpaceRun(s: string): (k: nat)
    ensures k <= |s| && AllSpace(s[..k])
    ensures k < |s| ==> !IsSpace(s[k])
  {
    if s != [] && IsSpace(s[0]) then 1 + SpaceRun(s[1..]) else 0
  }

  /** Length of the longest prefix of `s` without whitespace. */
  function NonSpaceRun(s: string): (k: nat)
    ensures k <= |s| && NoSpace(s[..k])
    ensures k < |s| ==> IsSpace(s[k])
  {
    if s != [] && !IsSpace(s[0]) then 1 + NonSpaceRun(s[1..]) else 0
  }

  lemma {:induction false} SpaceRunIs(s: string, n: nat)
    requires n <= |s| && AllSpace(s[..n]) && (n == |s| || !IsSpace(s[n]))
    ensures SpaceRun(s) == n
  {
    if n > 0 {
      assert s[..n][0] == s[0];
      assert s[1..][..n - 1] == s[..n][1..];
      SpaceRunIs(s[1..], n - 1);
    }
  }

  lemma {:induction false} NonSpaceRunIs(s: string, n: nat)
    requires n <= |s| && NoSpace(s[..n]) && (n == |s| || IsSpace(s[n]))
    ensures NonSpaceRun(s) == n
  {
    if n > 0 {
      assert s[..n][0] == s[0];
      assert s[1..][..n - 1] == s[..n][1..];
      NonSpaceRunIs(s[1..], n - 1);
    }
  }

  /** The non-whitespace characters of `s`, in order. */
  function Visible(s: string): string {
    if s == [] then [] else (if IsSpace(s[0]) then [] else [s[0]]) + Visible(s[1..])
  }

  lemma {:induction false} VisibleAppend(a: string, b: string)
    ensures Visible(a + b) == Visible(a) + Visible(b)
  {
    if a != [] {
      assert (a + b)[0] == a[0] && (a + b)[1..] == a[1..] + b;
      VisibleAppend(a[1..], b);
    } else {
      assert a + b == b;
    }
  }

  lemma VisibleCons(c: char, s: string)
    ensures Visible([c] + s) == (if IsSpace(c) then [] else [c]) + Visible(s)
  {
    assert ([c] + s)[1..] == s;
  }

  lemma {:induction false} VisibleOfSpaces(s: string)
    requires AllSpace(s)
    ensures Visible(s) == []
  {
    if s != [] {
      VisibleOfSpaces(s[1..]);
    }
  }

  /** The visible characters of text that starts with whitespace and then a
      visible character at `j`. */
  lemma VisibleSkipsSpaces(s: string, j: nat)
    requires j < |s| && AllSpace(s[..j]) && !IsSpace(s[j])
    ensures Visible(s) == [s[j]] + Visible(s[j + 1..])
  {
    var mark := s[j..];
    assert s == s[..j] + mark;
    VisibleAppend(s[..j], mark);
    VisibleOfSpaces(s[..j]);
    assert mark == [s[j]] + s[j + 1..];
    VisibleCons(s[j], s[j + 1..]);
  }

  /** `str.lstrip()`: drops the leading whitespace. */
  function StripStart(s: string): (r: string)
    ensures |r| <= |s| && r == s[|s| - |r|..] && AllSpace(s[..|s| - |r|])
    ensures r == [] || !IsSpace(r[0])
  {
    s[SpaceRun(s)..]
  }

  /** Length of the longest suffix of `s` made of whitespace. */
  function TrailRun(s: string): (k: nat)
    ensures k <= |s| && AllSpace(s[|s| - k..])
    ensures k < |s| ==> !IsSpace(s[|s| - k - 1])
  {
    if s != [] && IsSpace(s[|s| - 1]) then
      var u := s[..|s| - 1];
      var k := TrailRun(u);
      assert forall j :: |s| - k - 1 <= j < |s| - 1 ==> s[j] == u[j];
      1 + k
    else 0
  }

  /** `str.strip()`: `s` is cut into leading whitespace, the result and
      trailing whitespace; the result neither starts nor ends with whitespace,
      and it is empty exactly when `s` is all whitespace. */
  function Strip(s: string): (r: string)
    ensures var i := SpaceRun(s);
      && i + |r| <= |s| && s[i..i + |r|] == r
      && AllSpace(s[..i]) && AllSpace(s[i + |r|..])
    ensures r == [] || (!IsSpace(r[0]) && !IsSpace(r[|r| - 1]))
    ensures r == [] <==> AllSpace(s)
  {
    var i := SpaceRun(s);
    if i == |s| then
      assert s[..i] == s;
      []
    else
      var j := |s| - TrailRun(s);
      assert !IsSpace(s[i]);
      assert i < j;
      s[i..j]
  }

  /** `strip()` cuts out a slice, so it keeps text free of other whitespace
      than `' '`. */
  lemma StripKeepsPlainSpaces(s: string)
    requires OnlyPlainSpaces(s)
    ensures OnlyPlainSpaces(Strip(s))
  {
    var r := Strip(s);
    var i := SpaceRun(s);
    forall j | 0 <= j < |r| && IsSpace(r[j]) ensures r[j] == ' ' {
      assert r[j] == s[i..i + |r|][j] == s[i + j];
    }
  }

  /** Text without whitespace at either edge is its own `strip()`. */
  lemma StripKeeps(s: string)
    requires s == [] || (!IsSpace(s[0]) && !IsSpace(s[|s| - 1]))
    ensures Strip(s) == s
  {
    if s != [] {
      assert SpaceRun(s) == 0 && TrailRun(s) == 0;
      assert s[0..|s|] == s;
    }
  }

  lemma {:induction false} VisibleStripStart(s: string)
    ensures Visible(StripStart(s)) == Visible(s)
  {
    if s != [] && IsSpace(s[0]) {
      VisibleStripStart(s[1..]);
    }
  }

  /** `str.split()` with no argument: the maximal runs of non-whitespace. */
  function Words(s: string): seq<string>
    decreases |s|
  {
    var t := StripStart(s);
    if t == [] then []
    else
      var k := NonSpaceRun(t);
      [t[..k]] + Words(t[k..])
  }

  /** Every word is nonempty and holds no whitespace. */
  predicate AllWords(ws: seq<string>) {
    forall k :: 0 <= k < |ws| ==> ws[k] != [] && NoSpace(ws[k])
  }

  /** `split()` yields nonempty words without whitespace. */
  lemma {:induction false} WordsShape(s: string)
    ensures AllWords(Words(s))
    decreases |s|
  {
    var t := StripStart(s);
    if t != [] {
      var k := NonSpaceRun(t);
      WordsShape(t[k..]);
      assert k > 0;
      AllWordsCons(t[..k], Words(t[k..]));
    }
  }

  lemma AllWordsCons(w: string, ws: seq<string>)
    requires w != [] && NoSpace(w) && AllWords(ws)
    ensures AllWords([w] + ws)
  {
    var r := [w] + ws;
    forall j | 0 < j < |r| ensures r[j] != [] && NoSpace(r[j]) {
      assert r[j] == ws[j - 1];
    }
  }

  function Concat(ws: seq<string>): string {
    if ws == [] then [] else ws[0] + Concat(ws[1..])
  }

  /** Splitting loses exactly the whitespace: the words, put back together, are
      the visible characters of the text. */
  lemma {:induction false} WordsKeepVisible(s: string)
    ensures Concat(Words(s)) == Visible(s)
    decreases |s|
  {
    var t := StripStart(s);
    VisibleStripStart(s);
    if t != [] {
      var k := NonSpaceRun(t);
      var word, rest := t[..k], t[k..];
      var ws := Words(s);
      assert ws[0] == word && ws[1..] == Words(rest);
      WordsKeepVisible(rest);
      NoSpaceVisible(word);
      SplitAt(t, k);
      VisibleAppend(word, rest);
    }
  }

  lemma SplitAt(s: string, k: nat)
    requires k <= |s|
    ensures s == s[..k] + s[k..]
  {
  }

  lemma {:induction false} NoSpaceVisible(s: string)
    requires NoSpace(s)
    ensures Visible(s) == s
  {
    if s != [] {
      NoSpaceVisible(s[1..]);
    }
  }

  /** Leading whitespace does not change the words. */
  lemma WordsSkipSpace(w: string, b: string)
    requires AllSpace(w)
    ensures Words(w + b) == Words(b)
  {
    StripStartSkipsSpace(w, b);
    WordsOfStripStart(w + b, b);
  }

  lemma StripStartSkipsSpace(w: string, b: string)
    requires AllSpace(w)
    ensures StripStart(w + b) == StripStart(b)
  {
    var i := SpaceRun(b);
    assert (w + b)[..|w| + i] == w + b[..i];
    if |w| + i < |w + b| {
      assert (w + b)[|w| + i] == b[i];
    }
    SpaceRunIs(w + b, |w| + i);
    assert (w + b)[|w| + i..] == b[i..];
  }

  lemma WordsOfStripStart(x: string, y: string)
    requires StripStart(x) == StripStart(y)
    ensures Words(x) == Words(y)
  {
  }

  /** A word followed by whitespace or by nothing is the first word. */
  lemma WordsFront(word: string, r: string)
    requires word != [] && NoSpace(word) && (r == [] || IsSpace(r[0]))
    ensures Words(word + r) == [word] + Words(r)
  {
    var s := word + r;
    assert s[0] == word[0];
    assert StripStart(s) == s;
    assert s[..|word|] == word;
    if r != [] {
      assert s[|word|] == r[0];
    }
    NonSpaceRunIs(s, |word|);
    assert s[|word|..] == r;
  }

  /** Text made only of whitespace has no words. */
  lemma WordsOfSpace(w: string)
    requires AllSpace(w)
    ensures Words(w) == []
  {
    WordsSkipSpace(w, []);
    assert w + [] == w;
  }

  /** A nonempty run without whitespace is one word. */
  lemma WordsOfWord(t: string)
    requires t != [] && NoSpace(t)
    ensures Words(t) == [t]
  {
    WordsFront(t, []);
    assert t + [] == t;
  }

  /** `split()` breaks the text at every whitespace run and nowhere else: the
      words around a run are the words of either side. */
  lemma {:induction false} WordsSplit(a: string, w: string, b: string)
    requires w != [] && AllSpace(w)
    ensures Words(a + w + b) == Words(a) + Words(b)
    decreases |a|
  {
    if SpaceRun(a) == |a| {
      WordsSplitSpaces(a, w, b);
    } else {
      WordsUnfold(a);
      var t := a[SpaceRun(a)..];
      var rest := t[NonSpaceRun(t)..];
      WordsSplit(rest, w, b);
      WordsSplitWord(a, w, b);
    }
  }

  lemma WordsSplitSpaces(a: string, w: string, b: string)
    requires AllSpace(w) && SpaceRun(a) == |a|
    ensures Words(a + w + b) == Words(a) + Words(b)
  {
    assert a[..|a|] == a;
    WordsOfSpace(a);
    SpaceThen(a, w, b);
    WordsSkipSpace(a + w, b);
  }

  /** One step of `WordsSplit`: the first word of `a` comes first, and the rest
      is split around `w` as the induction hypothesis says. */
  lemma WordsSplitWord(a: string, w: string, b: string)
    requires w != [] && AllSpace(w) && SpaceRun(a) < |a|
    requires var t := a[SpaceRun(a)..];
      var rest := t[NonSpaceRun(t)..];
      Words(rest + w + b) == Words(rest) + Words(b)
    ensures Words(a + w + b) == Words(a) + Words(b)
  {
    var i := SpaceRun(a);
    var t := a[i..];
    var k := NonSpaceRun(t);
    var word, rest := t[..k], t[k..];
    WordsFirstOfJoin(a, w, b);
    WordsUnfold(a);
    ConsAssoc(word, Words(rest), Words(b));
  }

  lemma ConsAssoc(x: string, p: seq<string>, q: seq<string>)
    ensures [x] + (p + q) == ([x] + p) + q
  {
  }

  /** The words of `a + w + b` are the first word of `a`, then the words of
      what follows it. */
  lemma WordsFirstOfJoin(a: string, w: string, b: string)
    requires w != [] && AllSpace(w) && SpaceRun(a) < |a|
    ensures var t := a[SpaceRun(a)..];
      var k := NonSpaceRun(t);
      Words(a + w + b) == [t[..k]] + Words(t[k..] + w + b)
  {
    var i := SpaceRun(a);
    var t := a[i..];
    var k := NonSpaceRun(t);
    var word, rest := t[..k], t[k..];
    var tail := rest + w + b;
    RegroupAround(a, i, k, w, b);
    WordsSkipSpace(a[..i], word + tail);
    WordsFrontOf(a);
    SpaceAhead(rest, w, b);
    WordsFront(word, tail);
  }

  lemma WordsFrontOf(a: string)
    requires SpaceRun(a) < |a|
    ensures var t := a[SpaceRun(a)..];
      var k := NonSpaceRun(t);
      && AllSpace(a[..SpaceRun(a)])
      && 0 < k && t[..k] != [] && NoSpace(t[..k]) && (k == |t| || IsSpace(t[k..][0]))
  {
    var t := a[SpaceRun(a)..];
    assert t[0] == a[SpaceRun(a)];
  }

  lemma WordsUnfold(a: string)
    requires SpaceRun(a) < |a|
    ensures var t := a[SpaceRun(a)..];
      var k := NonSpaceRun(t);
      Words(a) == [t[..k]] + Words(t[k..])
  {
  }

  lemma SpaceAhead(rest: string, w: string, b: string)
    requires rest == [] || IsSpace(rest[0])
    requires w != [] && AllSpace(w)
    ensures var tail := rest + w + b; tail == [] || IsSpace(tail[0])
  {
    if rest == [] {
      assert (rest + w + b)[0] == w[0];
    } else {
      assert (rest + w + b)[0] == rest[0];
    }
  }

  lemma SpaceThen(a: string, w: string, b: string)
    requires AllSpace(a) && AllSpace(w)
    ensures AllSpace(a + w) && a + w + b == (a + w) + b
  {
  }

  lemma RegroupAround(a: string, i: nat, k: nat, w: string, b: string)
    requires i <= |a| && k <= |a| - i
    ensures a + w + b == a[..i] + (a[i..][..k] + (a[i..][k..] + w + b))
  {
    assert a == a[..i] + (a[i..][..k] + a[i..][k..]);
  }

  /** Python's `sep.join(parts)`. */
  function Join(sep: string, parts: seq<string>): string {
    if parts == [] then []
    else if |parts| == 1 then parts[0]
    else parts[0] + sep + Join(sep, parts[1..])
  }

  /** `split()` undoes `" ".join(...)` on words: joining words with single
      spaces and splitting the result gives the same words back. */
  lemma {:induction false} WordsOfJoin(ws: seq<string>)
    requires AllWords(ws)
    ensures Words(Join(" ", ws)) == ws
    decreases |ws|
  {
    if |ws| == 1 {
      WordsOfWord(ws[0]);
    } else if |ws| > 1 {
      AllWordsTail(ws);
      WordsOfJoin(ws[1..]);
      WordBeforeWords(ws[0], Join(" ", ws[1..]), ws[1..]);
    }
  }

  lemma AllWordsTail(ws: seq<string>)
    requires ws != [] && AllWords(ws)
    ensures ws[0] != [] && NoSpace(ws[0]) && AllWords(ws[1..]) && ws == [ws[0]] + ws[1..]
  {
    var rest := ws[1..];
    forall k | 0 <= k < |rest| ensures rest[k] != [] && NoSpace(rest[k]) {
      assert rest[k] == ws[k + 1];
    }
  }

  /** A word, a space, then text whose words are `rest`. */
  lemma WordBeforeWords(w: string, j: string, rest: seq<string>)
    requires w != [] && NoSpace(w) && Words(j) == rest
    ensures Words(w + " " + j) == [w] + rest
  {
    WordsSplit(w, " ", j);
    WordsOfWord(w);
  }

  /** `a` is obtained from `b` by deleting characters. */
  predicate IsSubsequence(a: string, b: string)
    decreases |b|
  {
    if b == [] then a == []
    else (a != [] && a[0] == b[0] && IsSubsequence(a[1..], b[1..])) || IsSubsequence(a, b[1..])
  }

  lemma {:induction false} SubsequenceDropPrefix(a: string, x: string, b: string)
    requires IsSubsequence(a, b)
    ensures IsSubsequence(a, x + b)
    decreases |x|
  {
    if x != [] {
      assert (x + b)[1..] == x[1..] + b;
      SubsequenceDropPrefix(a, x[1..], b);
    } else {
      assert x + b == b;
    }
  }

  /** A subsequence uses only characters of the original. */
  lemma {:induction false} SubsequenceChars(a: string, b: string)
    requires IsSubsequence(a, b)
    ensures forall i :: 0 <= i < |a| ==> a[i] in b
    decreases |b|
  {
    if b != [] {
      if a != [] && a[0] == b[0] && IsSubsequence(a[1..], b[1..]) {
        SubsequenceChars(a[1..], b[1..]);
        forall i | 0 <= i < |a| ensures a[i] in b {
          if i > 0 { assert a[i] == a[1..][i - 1] && a[i] in b[1..]; }
        }
      } else {
        SubsequenceChars(a, b[1..]);
        forall i | 0 <= i < |a| ensures a[i] in b {
          assert a[i] in b[1..];
        }
      }
    }
  }

  lemma SubsequencePlainSpaces(a: string, b: string)
    requires IsSubsequence(a, b) && OnlyPlainSpaces(b)
    ensures OnlyPlainSpaces(a)
  {
    SubsequenceChars(a, b);
  }
}
