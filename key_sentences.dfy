/** The "longest sentences first" selection used to preselect text before the
    abstractive model: `heapq.nlargest(n, [(len(s), s) for s in sentences])`. */
module KeySentences {

  /** Python's `a <= b` on `str`: lexicographic by code point, a proper prefix first. */
  predicate LexLeq(a: string, b: string)
    decreases |a|
  {
    a == [] || (b != [] && (a[0] < b[0] || (a[0] == b[0] && LexLeq(a[1..], b[1..]))))
  }

  lemma {:induction false} LexTotal(a: string, b: string)
    ensures LexLeq(a, b) || LexLeq(b, a)
    decreases |a|
  {
    if a != [] && b != [] && a[0] == b[0] {
      LexTotal(a[1..], b[1..]);
    }
  }

  lemma {:induction false} LexTransitive(a: string, b: string, c: string)
    requires LexLeq(a, b) && LexLeq(b, c)
    ensures LexLeq(a, c)
    decreases |a|
  {
    if a != [] && a[0] == b[0] && b[0] == c[0] {
      LexTransitive(a[1..], b[1..], c[1..]);
    }
  }

  /** The key `(len(a), a)` is at least the key `(len(b), b)` in Python's tuple order. */
  predicate Outranks(a: string, b: string) {
    |a| > |b| || (|a| == |b| && LexLeq(b, a))
  }

  lemma OutranksTotal(a: string, b: string)
    ensures Outranks(a, b) || Outranks(b, a)
  {
    LexTotal(a, b);
  }

  lemma OutranksTransitive(a: string, b: string, c: string)
    requires Outranks(a, b) && Outranks(b, c)
    ensures Outranks(a, c)
  {
    if |a| == |b| == |c| {
      LexTransitive(c, b, a);
    }
  }

  /** Neighbouring elements are in non-increasing key order. */
  predicate Descending(s: seq<string>) {
    forall i :: 0 <= i < |s| - 1 ==> Outranks(s[i], s[i + 1])
  }

  /** Inserts `x` into a descending sequence before the first element it outranks. */
  function Insert(x: string, sorted: seq<string>): (r: seq<string>)
    requires Descending(sorted)
    ensures Descending(r)
    ensures |r| == |sorted| + 1
    ensures multiset(r) == multiset(sorted) + multiset{x}
    ensures r[0] == x || (sorted != [] && r[0] == sorted[0])
  {
    if sorted == [] || Outranks(x, sorted[0]) then [x] + sorted
    else
      OutranksTotal(x, sorted[0]);
      assert sorted == [sorted[0]] + sorted[1..];
      [sorted[0]] + Insert(x, sorted[1..])
  }

  /** `sorted(sentences, key=lambda s: (len(s), s), reverse=True)`. */
  function SortDescending(s: seq<string>): (r: seq<string>)
    ensures Descending(r)
    ensures |r| == |s|
    ensures multiset(r) == multiset(s)
  {
    if s == [] then []
    else
      assert s == [s[0]] + s[1..];
      Insert(s[0], SortDescending(s[1..]))
  }

  /** In a descending sequence every element outranks every later one. */
  lemma {:induction false} DescendingPairwise(s: seq<string>, i: int, j: int)
    requires Descending(s) && 0 <= i < j < |s|
    ensures Outranks(s[i], s[j])
    decreases j - i
  {
    if j > i + 1 {
      DescendingPairwise(s, i + 1, j);
      OutranksTransitive(s[i], s[i + 1], s[j]);
    }
  }

  /** The strings of `heapq.nlargest(n, [(len(s), s) for s in sents])`, in the
      order `nlargest` returns them. */
  function TopSentences(sents: seq<string>, n: int): seq<string> {
    var sorted := SortDescending(sents);
    if n <= 0 then [] else if n >= |sorted| then sorted else sorted[..n]
  }

  lemma PrefixOutranksSuffix(sorted: seq<string>, n: int, k: string, d: string)
    requires Descending(sorted) && 0 <= n <= |sorted|
    requires k in sorted[..n] && d in sorted[n..]
    ensures Outranks(k, d)
  {
    var i :| 0 <= i < n && sorted[..n][i] == k;
    var j :| 0 <= j < |sorted| - n && sorted[n..][j] == d;
    DescendingPairwise(sorted, i, n + j);
  }

  /** Cutting a sequence in two splits its multiset in two. */
  lemma SplitMultiset(s: seq<string>, n: int)
    requires 0 <= n <= |s|
    ensures multiset(s[..n]) <= multiset(s)
    ensures multiset(s) - multiset(s[..n]) == multiset(s[n..])
  {
    assert s == s[..n] + s[n..];
  }

  /** With more than `n` sentences exactly `n` are kept; they come from the
      input, in non-increasing `(length, text)` order, and every kept sentence
      outranks (so is at least as long as) every dropped one. */
  lemma TopSentencesSelect(sents: seq<string>, n: int)
    requires 0 <= n < |sents|
    ensures var top := TopSentences(sents, n);
      && |top| == n
      && multiset(top) <= multiset(sents)
      && Descending(top)
      && forall k, d :: k in top && d in multiset(sents) - multiset(top) ==>
           Outranks(k, d) && |k| >= |d|
  {
    var sorted := SortDescending(sents);
    PrefixOutranksRest(sorted, n);
  }

  /** The first `n` of a descending sequence outrank all the others. */
  lemma PrefixOutranksRest(sorted: seq<string>, n: int)
    requires Descending(sorted) && 0 <= n <= |sorted|
    ensures var top := sorted[..n];
      && multiset(top) <= multiset(sorted)
      && forall k, d :: k in top && d in multiset(sorted) - multiset(top) ==>
           Outranks(k, d) && |k| >= |d|
  {
    var top := sorted[..n];
    SplitMultiset(sorted, n);
    forall k, d | k in top && d in multiset(sorted) - multiset(top)
      ensures Outranks(k, d) && |k| >= |d|
    {
      assert d in sorted[n..];
      PrefixOutranksSuffix(sorted, n, k, d);
    }
  }
}
