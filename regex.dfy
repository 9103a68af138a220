/** The regular-expression substitutions of the two text cleaners, written as
    left-to-right scans with the leftmost, non-overlapping, greedy semantics of
    Python's `re.sub`. */
module Regex {
  import opened Text

  /** The patterns that the cleaners replace by the empty string. */
  datatype Pattern =
    | Citation    // \[\d+\]
    | PageMarker  // Page \d+ of \d+
    | Url         // (https?://\S+)

  /** A bracketed citation number such as `[12]`. */
  predicate IsCitation(t: string) {
    |t| >= 3 && t[0] == '[' && t[|t| - 1] == ']' && AllDigits(t[1..|t| - 1])
  }

  /** A page marker such as `Page 3 of 9`. */
  predicate IsPageMarker(t: string) {
    |t| > 5 && t[..5] == "Page " &&
    var a := DigitRun(t[5..]);
    a > 0 && 9 + a < |t| && t[5 + a..9 + a] == " of " && AllDigits(t[9 + a..])
  }

  /** A link: `http://` or `https://` followed by at least one non-whitespace character. */
  predicate IsUrl(t: string) {
    || (|t| > 7 && t[..7] == "http://" && NoSpace(t[7..]))
    || (|t| > 8 && t[..8] == "https://" && NoSpace(t[8..]))
  }

  lemma {:induction false} DigitRunIs(s: string, n: nat)
    requires n <= |s| && AllDigits(s[..n]) && (n == |s| || !IsDigit(s[n]))
    ensures DigitRun(s) == n
  {
    if n > 0 {
      assert s[..n][0] == s[0];
      assert s[1..][..n - 1] == s[..n][1..];
      DigitRunIs(s[1..], n - 1);
    }
  }

  /** Length of the `\[\d+\]` match at the start of `s`; 0 when there is none. */
  function CitationLen(s: string): (k: nat)
    ensures k <= |s|
    ensures k > 0 ==> IsCitation(s[..k])
  {
    if |s| >= 3 && s[0] == '[' then
      var d := DigitRun(s[1..]);
      if d > 0 && d + 1 < |s| && s[d + 1] == ']' then
        assert s[..d + 2][1..d + 1] == s[1..][..d];
        d + 2
      else 0
    else 0
  }

  /** Every citation is matched in full, whatever follows it. */
  lemma CitationMatches(t: string, rest: string)
    requires IsCitation(t)
    ensures CitationLen(t + rest) == |t|
  {
    var s := t + rest;
    assert s[1..][..|t| - 2] == t[1..|t| - 1];
    DigitRunIs(s[1..], |t| - 2);
  }

  /** Length of the `Page \d+ of \d+` match at the start of `s`; 0 when there is
      none. The second number is taken greedily. */
  function PageMarkerLen(s: string): (k: nat)
    ensures k <= |s|
    ensures k > 0 ==> IsPageMarker(s[..k]) && (k == |s| || !IsDigit(s[k]))
  {
    if |s| > 5 && s[..5] == "Page " then
      var a := DigitRun(s[5..]);
      if a > 0 && 9 + a <= |s| && s[5 + a..9 + a] == " of " then
        var b := DigitRun(s[9 + a..]);
        if b > 0 then
          MarkerPrefix(s, a, b);
          9 + a + b
        else 0
      else 0
    else 0
  }

  /** `Page `, a digit run of length `a`, ` of ` and a digit run of length `b`
      at the start of `s` make a page marker. */
  lemma MarkerPrefix(s: string, a: nat, b: nat)
    requires 9 + a + b <= |s| && |s| > 5 && s[..5] == "Page " && a > 0 && b > 0
    requires DigitRun(s[5..]) == a && s[5 + a..9 + a] == " of "
    requires AllDigits(s[9 + a..][..b])
    ensures IsPageMarker(s[..9 + a + b])
  {
    var u := s[..9 + a + b];
    assert u[..5] == s[..5];
    assert u[5..][..a] == s[5..][..a];
    assert u[5..][a] == s[5..][a];
    DigitRunIs(u[5..], a);
    assert u[5 + a..9 + a] == s[5 + a..9 + a];
    assert u[9 + a..] == s[9 + a..][..b];
  }

  /** Every page marker not followed by a further digit is matched in full. */
  lemma PageMarkerMatches(t: string, rest: string)
    requires IsPageMarker(t) && (rest == [] || !IsDigit(rest[0]))
    ensures PageMarkerLen(t + rest) == |t|
  {
    var s := t + rest;
    var a := DigitRun(t[5..]);
    assert t[5..][a] == s[5..][a];
    assert s[5..][..a] == t[5..][..a];
    DigitRunIs(s[5..], a);
    assert s[9 + a..][..|t| - 9 - a] == t[9 + a..];
    DigitRunIs(s[9 + a..], |t| - 9 - a);
  }

  /** Length of the scheme `http://` or `https://` at the start of `s`, or 0. */
  function SchemeLen(s: string): (p: nat)
    ensures p == 0 || p == 7 || p == 8
    ensures p <= |s|
  {
    if |s| >= 7 && s[..7] == "http://" then 7
    else if |s| >= 8 && s[..8] == "https://" then 8
    else 0
  }

  /** Length of the `https?://\S+` match at the start of `s`; 0 when there is none. */
  function UrlLen(s: string): (k: nat)
    ensures k <= |s|
    ensures k > 0 ==> IsUrl(s[..k]) && (k == |s| || IsSpace(s[k]))
  {
    var p := SchemeLen(s);
    if p == 0 then 0
    else
      var w := NonSpaceRun(s[p..]);
      if w > 0 then
        assert s[..p + w][p..] == s[p..][..w];
        p + w
      else 0
  }

  /** Every link is matched in full up to the next whitespace. */
  lemma UrlMatches(t: string, rest: string)
    requires IsUrl(t) && (rest == [] || IsSpace(rest[0]))
    ensures UrlLen(t + rest) == |t|
  {
    var s := t + rest;
    var p := if |t| > 7 && t[..7] == "http://" then 7 else 8;
    assert s[..p] == t[..p];
    assert SchemeLen(s) == p;
    assert s[p..][..|t| - p] == t[p..];
    NonSpaceRunIs(s[p..], |t| - p);
  }

  function MatchLen(p: Pattern, s: string): (k: nat)
    ensures k <= |s|
  {
    match p
    case Citation => CitationLen(s)
    case PageMarker => PageMarkerLen(s)
    case Url => UrlLen(s)
  }

  /** `re.sub(pattern, '', s)`: scan left to right, deleting each match and
      resuming right after it. */
  function DeleteAll(p: Pattern, s: string): (r: string)
    ensures |r| <= |s|
    decreases |s|
  {
    if s == [] then []
    else
      var k := MatchLen(p, s);
      if k > 0 then DeleteAll(p, s[k..]) else [s[0]] + DeleteAll(p, s[1..])
  }

  /** No match of `p` starts anywhere in `s`. */
  predicate NoMatch(p: Pattern, s: string) {
    forall i :: 0 <= i < |s| ==> MatchLen(p, s[i..]) == 0
  }

  /** Every link starts with `h`. */
  lemma NoUrlAt(c: char, rest: string)
    requires c != 'h'
    ensures MatchLen(Url, [c] + rest) == 0
  {
    var u := [c] + rest;
    if |u| >= 7 { assert u[..7][0] == c; }
    if |u| >= 8 { assert u[..8][0] == c; }
  }

  /** Text without `h` holds no link. */
  lemma NoUrlWithoutH(s: string)
    requires 'h' !in s
    ensures NoMatch(Url, s)
  {
    forall i | 0 <= i < |s| ensures MatchLen(Url, s[i..]) == 0 {
      assert s[i..] == [s[i]] + s[i + 1..];
      NoUrlAt(s[i], s[i + 1..]);
    }
  }

  /** Text without `h` comes through the link pass unchanged. */
  lemma UrlFreeKept(s: string)
    requires 'h' !in s
    ensures DeleteAll(Url, s) == s
  {
    NoUrlWithoutH(s);
    NoMatchKept(Url, s);
  }

  /** `r` starts with the same non-whitespace run as `s`. */
  predicate FrontRunAgrees(r: string, s: string) {
    NonSpaceRun(r) <= |s| && r[..NonSpaceRun(r)] == s[..NonSpaceRun(r)]
  }

  /** After the link pass, the leading non-whitespace run of the result is
      the same text at the front of the input: a deleted link is always
      followed by whitespace or the end, so no kept character is joined to
      characters that came after a deletion. */
  lemma {:induction false} UrlPassKeepsFrontRun(s: string)
    ensures FrontRunAgrees(DeleteAll(Url, s), s)
    decreases |s|
  {
    if s != [] {
      var k := MatchLen(Url, s);
      if k > 0 {
        var rest := s[k..];
        if rest != [] {
          assert rest == [rest[0]] + rest[1..];
          NoUrlAt(rest[0], rest[1..]);
          DeleteAllKeep(Url, rest[0], rest[1..]);
        }
        FrontRunAfterSpace(DeleteAll(Url, rest), s);
      } else {
        UrlPassKeepsFrontRun(s[1..]);
        FrontRunCons(s[0], DeleteAll(Url, s[1..]), s[1..]);
        assert s == [s[0]] + s[1..];
      }
    }
  }

  lemma FrontRunAfterSpace(r: string, s: string)
    requires r == [] || IsSpace(r[0])
    ensures FrontRunAgrees(r, s)
  {
  }

  lemma FrontRunCons(c: char, r: string, s: string)
    requires FrontRunAgrees(r, s)
    ensures FrontRunAgrees([c] + r, [c] + s)
  {
    if !IsSpace(c) {
      var n := NonSpaceRun(r);
      assert ([c] + r)[1..] == r;
      assert ([c] + r)[..n + 1] == [c] + r[..n];
      assert ([c] + s)[..n + 1] == [c] + s[..n];
    }
  }

  /** A link at the front of `r` is a link at the front of any text that
      agrees with `r` on its leading non-whitespace run. */
  lemma UrlFromFrontRun(r: string, s: string)
    requires UrlLen(r) > 0 && FrontRunAgrees(r, s)
    ensures UrlLen(s) > 0
  {
    var p := SchemeLen(r);
    var n := NonSpaceRun(r);
    assert r[p..][0] == r[p];
    FrontRunCoversScheme(r);
    SchemeAgrees(r, s, n);
    assert s[p] == s[..n][p] == r[..n][p] == r[p];
    assert r[p..][0] == r[p] && s[p..][0] == s[p];
  }

  lemma FrontRunCoversScheme(r: string)
    requires 0 < SchemeLen(r) < |r| && !IsSpace(r[SchemeLen(r)])
    ensures SchemeLen(r) < NonSpaceRun(r)
  {
    var p := SchemeLen(r);
    var scheme := if p == 7 then "http://" else "https://";
    assert r[..p] == scheme;
    SchemeNoSpace(scheme);
    assert r[..p + 1] == scheme + [r[p]];
    NonSpaceRunAtLeast(r, p + 1);
  }

  lemma SchemeNoSpace(scheme: string)
    requires scheme == "http://" || scheme == "https://"
    ensures forall c :: c in scheme ==> !IsSpace(c)
  {
  }

  lemma {:induction false} NonSpaceRunAtLeast(s: string, m: nat)
    requires m <= |s| && NoSpace(s[..m])
    ensures NonSpaceRun(s) >= m
  {
    if m > 0 {
      assert s[..m][0] == s[0];
      assert s[1..][..m - 1] == s[..m][1..];
      NonSpaceRunAtLeast(s[1..], m - 1);
    }
  }

  lemma SchemeAgrees(r: string, s: string, m: nat)
    requires SchemeLen(r) > 0 && SchemeLen(r) <= m <= |r| && m <= |s| && r[..m] == s[..m]
    ensures SchemeLen(s) == SchemeLen(r)
  {
    var p := SchemeLen(r);
    assert s[..p] == s[..m][..p] == r[..m][..p] == r[..p];
    if p == 8 {
      assert s[..7] == s[..8][..7] && r[..7] == r[..8][..7];
    }
  }

  /** The link pass leaves no link: a link can only be put together from
      characters that were adjacent in the input, and those were deleted. */
  lemma {:induction false} UrlPassLeavesNoUrl(s: string)
    ensures NoMatch(Url, DeleteAll(Url, s))
    decreases |s|
  {
    if s != [] {
      var k := MatchLen(Url, s);
      if k > 0 {
        UrlPassLeavesNoUrl(s[k..]);
      } else {
        var r := DeleteAll(Url, s);
        var r' := DeleteAll(Url, s[1..]);
        UrlPassLeavesNoUrl(s[1..]);
        assert r == [s[0]] + r';
        forall i | 0 <= i < |r| ensures MatchLen(Url, r[i..]) == 0 {
          if i == 0 {
            if UrlLen(r) > 0 {
              UrlPassKeepsFrontRun(s);
              assert r[0..] == r;
              UrlFromFrontRun(r, s);
            }
          } else {
            assert r[i..] == r'[i - 1..];
          }
        }
      }
    }
  }

  /** Deleting matches only deletes: the result is a subsequence of the input. */
  lemma {:induction false} DeleteAllDeletes(p: Pattern, s: string)
    ensures IsSubsequence(DeleteAll(p, s), s)
    decreases |s|
  {
    if s != [] {
      var k := MatchLen(p, s);
      if k > 0 {
        DeleteAllDeletes(p, s[k..]);
        SubsequenceDropPrefix(DeleteAll(p, s), s[..k], s[k..]);
        assert s[..k] + s[k..] == s;
      } else {
        DeleteAllDeletes(p, s[1..]);
        assert ([s[0]] + DeleteAll(p, s[1..]))[1..] == DeleteAll(p, s[1..]);
      }
    }
  }

  /** Deleting matches leaves only plain spaces where there were only plain spaces. */
  lemma DeleteKeepsPlainSpaces(p: Pattern, s: string)
    requires OnlyPlainSpaces(s)
    ensures OnlyPlainSpaces(DeleteAll(p, s))
  {
    DeleteAllDeletes(p, s);
    SubsequencePlainSpaces(DeleteAll(p, s), s);
  }

  lemma {:induction false} NoMatchKept(p: Pattern, s: string)
    requires NoMatch(p, s)
    ensures DeleteAll(p, s) == s
    decreases |s|
  {
    if s != [] {
      assert s[0..] == s;
      forall i | 0 <= i < |s| - 1 ensures MatchLen(p, s[1..][i..]) == 0 {
        assert s[1..][i..] == s[i + 1..];
      }
      NoMatchKept(p, s[1..]);
    }
  }

  lemma {:induction false} KeptMeansNoMatch(p: Pattern, s: string)
    requires DeleteAll(p, s) == s
    ensures NoMatch(p, s)
    decreases |s|
  {
    if s != [] {
      var k := MatchLen(p, s);
      assert s[0..] == s;
      KeptMeansNoMatch(p, s[1..]);
      forall i | 1 <= i < |s| ensures MatchLen(p, s[i..]) == 0 {
        assert s[1..][i - 1..] == s[i..];
      }
    }
  }

  /** The substitution leaves `s` unchanged exactly when the pattern occurs
      nowhere in it. */
  lemma DeleteAllIdentity(p: Pattern, s: string)
    ensures DeleteAll(p, s) == s <==> NoMatch(p, s)
  {
    if NoMatch(p, s) { NoMatchKept(p, s); }
    if DeleteAll(p, s) == s { KeptMeansNoMatch(p, s); }
  }

  /** A match at the front is deleted in one piece. */
  lemma DeleteAllFront(p: Pattern, t: string, rest: string)
    requires t != [] && MatchLen(p, t + rest) == |t|
    ensures DeleteAll(p, t + rest) == DeleteAll(p, rest)
  {
    assert (t + rest)[|t|..] == rest;
  }

  /** A character and a space at which no match starts are both kept in
      front of a tail that the pass reduces to a space and `b`. */
  lemma KeepTwo(p: Pattern, a: char, tail: string, b: char)
    requires MatchLen(p, [a] + ([' '] + tail)) == 0 && MatchLen(p, [' '] + tail) == 0
    requires DeleteAll(p, tail) == [' ', b]
    ensures DeleteAll(p, [a, ' '] + tail) == [a, ' ', ' ', b]
  {
    ConsSpace(a, tail);
    DeleteAllKeep(p, ' ', tail);
    DeleteAllKeep(p, a, [' '] + tail);
    ConsSpace(a, [' ', b]);
  }

  lemma ConsSpace(a: char, s: string)
    ensures [a, ' '] + s == [a] + ([' '] + s)
  {
  }

  /** A link is deleted together with everything up to the next whitespace,
      and the scan goes on right after it. */
  lemma UrlDeleted(u: string, rest: string)
    requires IsUrl(u) && (rest == [] || IsSpace(rest[0]))
    ensures DeleteAll(Url, u + rest) == DeleteAll(Url, rest)
  {
    UrlMatches(u, rest);
    DeleteAllFront(Url, u, rest);
  }

  /** A character where no match starts is kept. */
  lemma DeleteAllKeep(p: Pattern, c: char, rest: string)
    requires MatchLen(p, [c] + rest) == 0
    ensures DeleteAll(p, [c] + rest) == [c] + DeleteAll(p, rest)
  {
    assert ([c] + rest)[1..] == rest;
  }

  /** `re.sub(r'\s+', ' ', s)`: every run of whitespace becomes one plain space.
      Read left to right, a whitespace character followed by more whitespace is
      dropped and the last one of its run is written as `' '`. */
  function CollapseSpaces(s: string): string {
    if s == [] then []
    else if !IsSpace(s[0]) then [s[0]] + CollapseSpaces(s[1..])
    else if |s| > 1 && IsSpace(s[1]) then CollapseSpaces(s[1..])
    else [' '] + CollapseSpaces(s[1..])
  }

  /** Every whitespace character is a plain space with no whitespace after it. */
  predicate SingleSpaced(s: string) {
    forall i :: 0 <= i < |s| && IsSpace(s[i]) ==> s[i] == ' ' && (i + 1 < |s| ==> !IsSpace(s[i + 1]))
  }

  /** After the collapse the text is single-spaced; it is empty only for
      empty input, and it starts with whitespace exactly when the input does. */
  lemma {:induction false} CollapseShape(s: string)
    ensures var r := CollapseSpaces(s);
      && SingleSpaced(r)
      && (r == [] <==> s == [])
      && (r != [] ==> (IsSpace(r[0]) <==> IsSpace(s[0])))
  {
    if s != [] {
      CollapseShape(s[1..]);
      var rest := CollapseSpaces(s[1..]);
      if !(IsSpace(s[0]) && |s| > 1 && IsSpace(s[1])) {
        var c := if IsSpace(s[0]) then ' ' else s[0];
        var r := [c] + rest;
        assert CollapseSpaces(s) == r;
        forall i | 0 <= i < |r| && IsSpace(r[i])
          ensures r[i] == ' ' && (i + 1 < |r| ==> !IsSpace(r[i + 1]))
        {
          if i > 0 { assert r[i] == rest[i - 1]; }
          if i + 1 < |r| { assert r[i + 1] == rest[i]; }
        }
      }
    }
  }

  /** Collapsing whitespace keeps every other character, in order. */
  lemma {:induction false} CollapseKeepsVisible(s: string)
    ensures Visible(CollapseSpaces(s)) == Visible(s)
  {
    if s != [] {
      CollapseKeepsVisible(s[1..]);
      VisibleAppend([s[0]], CollapseSpaces(s[1..]));
      VisibleAppend([' '], CollapseSpaces(s[1..]));
    }
  }

  /** Text that is already single-spaced is left alone by the collapse. */
  lemma {:induction false} CollapseSingleSpaced(s: string)
    requires SingleSpaced(s)
    ensures CollapseSpaces(s) == s
  {
    if s != [] {
      assert SingleSpaced(s[1..]) by {
        forall i | 0 <= i < |s| - 1 && IsSpace(s[1..][i])
          ensures s[1..][i] == ' ' && (i + 1 < |s| - 1 ==> !IsSpace(s[1..][i + 1]))
        {
          assert s[1..][i] == s[i + 1];
        }
      }
      CollapseSingleSpaced(s[1..]);
    }
  }

  /** Collapsing twice is the same as collapsing once. */
  lemma CollapseIdempotent(s: string)
    ensures CollapseSpaces(CollapseSpaces(s)) == CollapseSpaces(s)
  {
    CollapseShape(s);
    CollapseSingleSpaced(CollapseSpaces(s));
  }

  /** Text without whitespace is left alone by the collapse. */
  lemma CollapseNoSpace(s: string)
    requires NoSpace(s)
    ensures CollapseSpaces(s) == s
  {
    CollapseSingleSpaced(s);
  }

  /** The collapse works piecewise on text cut anywhere but inside a run of
      whitespace. */
  lemma {:induction false} CollapseSplit(a: string, b: string)
    requires a == [] || b == [] || !IsSpace(a[|a| - 1]) || !IsSpace(b[0])
    ensures CollapseSpaces(a + b) == CollapseSpaces(a) + CollapseSpaces(b)
  {
    if a == [] {
      assert a + b == b;
    } else if b == [] {
      assert a + b == a;
    } else {
      var s := a + b;
      assert s[0] == a[0] && s[1..] == a[1..] + b;
      CollapseSplit(a[1..], b);
      var next := if |a| > 1 then a[1] else b[0];
      assert s[1] == next;
      CollapseStep(s);
      CollapseStep(a);
    }
  }

  /** One step of the collapse: the first character is kept, dropped, or
      written as `' '`, depending on it and the one after it. */
  lemma CollapseStep(s: string)
    requires s != []
    ensures CollapseSpaces(s) ==
      if !IsSpace(s[0]) then [s[0]] + CollapseSpaces(s[1..])
      else if |s| > 1 && IsSpace(s[1]) then CollapseSpaces(s[1..])
      else [' '] + CollapseSpaces(s[1..])
  {
  }

  /** A nonempty run of whitespace collapses to one space. */
  lemma {:induction false} CollapseAllSpace(w: string)
    requires w != [] && AllSpace(w)
    ensures CollapseSpaces(w) == " "
  {
    if |w| > 1 {
      CollapseAllSpace(w[1..]);
    }
  }

  /** A run of whitespace in front of a non-space character becomes one space. */
  lemma CollapseLeadingRun(w: string, s: string)
    requires w != [] && AllSpace(w) && (s == [] || !IsSpace(s[0]))
    ensures CollapseSpaces(w + s) == [' '] + CollapseSpaces(s)
  {
    CollapseSplit(w, s);
    CollapseAllSpace(w);
  }
}
