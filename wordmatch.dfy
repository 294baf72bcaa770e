/**
 * Global replacement of a literal phrase at whole-word positions,
 * `s.replace(/\bPHRASE\b/g, replacer)`, done the way ECMAScript's
 * RegExp.prototype[Symbol.replace] does it: first all matches are collected,
 * each search starting where the previous match ended (leftmost,
 * non-overlapping, case-sensitive); then the result is assembled from the
 * text between the matches and, for the k-th match, the string the replacer
 * gives for k. The assertion `\b` is evaluated on the original string.
 */
module WordMatch {

  /** IsWordChar of ECMAScript without the `u` and `i` flags: ASCII letters,
      digits and the underscore. */
  predicate IsWordChar(c: char) {
    ('a' <= c <= 'z') || ('A' <= c <= 'Z') || ('0' <= c <= '9') || c == '_'
  }

  /** The assertion `\b` at index i: exactly one of the code units on either
      side is a word character (outside the string counts as non-word). */
  predicate IsBoundary(s: string, i: nat)
    requires i <= |s|
  {
    (0 < i && IsWordChar(s[i - 1])) != (i < |s| && IsWordChar(s[i]))
  }

  /** `\bpat\b` matches s at index i. */
  predicate WholeWordAt(s: string, pat: string, i: nat) {
    i + |pat| <= |s| && s[i..i + |pat|] == pat && IsBoundary(s, i) && IsBoundary(s, i + |pat|)
  }

  /** The match positions ms lie in s at or after `from`, in increasing order,
      each span of length len ending before the next one starts. */
  predicate Placed(s: string, from: nat, ms: seq<nat>, len: nat)
    decreases |ms|
  {
    from <= |s|
    && (ms != [] ==> from <= ms[0] && ms[0] + len <= |s| && Placed(s, ms[0] + len, ms[1..], len))
  }

  /** Index j lies in the span of one of the matches. */
  ghost predicate InSpan(ms: seq<nat>, len: nat, j: nat) {
    exists t :: 0 <= t < |ms| && ms[t] <= j < ms[t] + len
  }

  /** The positions a global search for `\bpat\b` finds, starting at index i. */
  function MatchesFrom(s: string, pat: string, i: nat): (ms: seq<nat>)
    requires |pat| > 0 && i <= |s|
    ensures Placed(s, i, ms, |pat|)
    decreases |s| - i
  {
    if i == |s| then []
    else if WholeWordAt(s, pat, i) then [i] + MatchesFrom(s, pat, i + |pat|)
    else MatchesFrom(s, pat, i + 1)
  }

  /** Every position in ms is a whole-word occurrence of pat. */
  predicate AllWholeWord(s: string, pat: string, ms: seq<nat>)
    decreases |ms|
  {
    ms != [] ==> WholeWordAt(s, pat, ms[0]) && AllWholeWord(s, pat, ms[1..])
  }

  /** The search finds only whole-word occurrences. */
  lemma {:induction false} MatchesSound(s: string, pat: string, i: nat)
    requires |pat| > 0 && i <= |s|
    ensures AllWholeWord(s, pat, MatchesFrom(s, pat, i))
    decreases |s| - i
  {
    if i < |s| {
      if WholeWordAt(s, pat, i) {
        MatchesSound(s, pat, i + |pat|);
        assert MatchesFrom(s, pat, i)[1..] == MatchesFrom(s, pat, i + |pat|);
      } else {
        MatchesSound(s, pat, i + 1);
      }
    }
  }

  /** The search misses nothing: every whole-word occurrence at or after i is
      a match found or lies inside the span of one (with the soundness and
      ordering in MatchesFrom's contract this determines the matches). */
  lemma {:induction false} MatchesLeftmost(s: string, pat: string, i: nat, j: nat)
    requires |pat| > 0 && i <= j <= |s|
    requires WholeWordAt(s, pat, j)
    ensures InSpan(MatchesFrom(s, pat, i), |pat|, j)
    decreases |s| - i
  {
    var ms := MatchesFrom(s, pat, i);
    if i == j {
      assert ms[0] <= j < ms[0] + |pat|;
    } else if WholeWordAt(s, pat, i) {
      var rest := MatchesFrom(s, pat, i + |pat|);
      assert ms == [i] + rest;
      if j < i + |pat| {
        assert ms[0] <= j < ms[0] + |pat|;
      } else {
        MatchesLeftmost(s, pat, i + |pat|, j);
        var t :| 0 <= t < |rest| && rest[t] <= j < rest[t] + |pat|;
        assert ms[t + 1] == rest[t];
      }
    } else {
      assert ms == MatchesFrom(s, pat, i + 1);
      MatchesLeftmost(s, pat, i + 1, j);
    }
  }

  /** No whole-word occurrence in [i, j): the search from i finds what the search from j finds. */
  lemma {:induction false} MatchesSkip(s: string, pat: string, i: nat, j: nat)
    requires |pat| > 0 && i <= j <= |s|
    requires forall x :: i <= x < j ==> !WholeWordAt(s, pat, x)
    ensures MatchesFrom(s, pat, i) == MatchesFrom(s, pat, j)
    decreases j - i
  {
    if i < j {
      MatchesSkip(s, pat, i + 1, j);
    }
  }

  /** The text outside the match spans, with the k-th match replaced by choose(k). */
  function Splice(s: string, from: nat, ms: seq<nat>, len: nat, choose: nat -> string, k: nat): string
    requires Placed(s, from, ms, len)
    decreases |ms|
  {
    if ms == [] then s[from..]
    else s[from..ms[0]] + choose(k) + Splice(s, ms[0] + len, ms[1..], len, choose, k + 1)
  }

  /** A replacer that returns the same string for every match, as a plain
      replacement string without `$` patterns does. */
  function Always(c: string): nat -> string {
    (k: nat) => c
  }

  /** s.replace(/\bpat\b/g, replacer), where the replacer returns choose(k) on its k-th call. */
  function Replace(s: string, pat: string, choose: nat -> string): (r: string)
    requires |pat| > 0
    ensures (forall j :: 0 <= j <= |s| ==> !WholeWordAt(s, pat, j)) ==> r == s
  {
    MatchesSound(s, pat, 0);
    Splice(s, 0, MatchesFrom(s, pat, 0), |pat|, choose, 0)
  }

  lemma SliceThree(s: string, a: nat, b: nat, c: nat)
    requires a <= b <= c <= |s|
    ensures s[a..] == s[a..b] + s[b..c] + s[c..]
  {
  }

  /** One step of SpliceSelf: the first match put back, the rest already known to be unchanged. */
  lemma SpliceSelfStep(s: string, from: nat, ms: seq<nat>, pat: string, choose: nat -> string, k: nat)
    requires Placed(s, from, ms, |pat|) && ms != []
    requires s[ms[0]..ms[0] + |pat|] == pat && choose(k) == pat
    requires Splice(s, ms[0] + |pat|, ms[1..], |pat|, choose, k + 1) == s[ms[0] + |pat|..]
    ensures Splice(s, from, ms, |pat|, choose, k) == s[from..]
  {
    SliceThree(s, from, ms[0], ms[0] + |pat|);
  }

  /** Putting the matched text itself back at matched spans changes nothing. */
  lemma {:induction false} SpliceSelf(s: string, from: nat, ms: seq<nat>, pat: string, choose: nat -> string, k: nat)
    requires Placed(s, from, ms, |pat|) && AllWholeWord(s, pat, ms)
    requires forall n :: choose(n) == pat
    ensures Splice(s, from, ms, |pat|, choose, k) == s[from..]
    decreases |ms|
  {
    if ms != [] {
      var next := ms[0] + |pat|;
      assert Placed(s, next, ms[1..], |pat|) && AllWholeWord(s, pat, ms[1..]);
      SpliceSelf(s, next, ms[1..], pat, choose, k + 1);
      assert s[ms[0]..next] == pat && choose(k) == pat;
      SpliceSelfStep(s, from, ms, pat, choose, k);
    }
  }

  /** A replacer that always returns the phrase itself leaves the text unchanged. */
  lemma ReplaceBySelf(s: string, pat: string, choose: nat -> string)
    requires |pat| > 0
    requires forall n :: choose(n) == pat
    ensures Replace(s, pat, choose) == s
  {
    MatchesSound(s, pat, 0);
    SpliceSelf(s, 0, MatchesFrom(s, pat, 0), pat, choose, 0);
  }

  /** With exactly one whole-word occurrence, at m, the replacement rewrites that span and
      keeps every code unit before and after it. */
  lemma ReplaceSingle(s: string, pat: string, m: nat, choose: nat -> string)
    requires |pat| > 0 && WholeWordAt(s, pat, m)
    requires forall j :: 0 <= j <= |s| && j != m ==> !WholeWordAt(s, pat, j)
    ensures Replace(s, pat, choose) == s[..m] + choose(0) + s[m + |pat|..]
  {
    MatchesSkip(s, pat, 0, m);
    MatchesSkip(s, pat, m + |pat|, |s|);
    ReplaceOneMatch(s, pat, m, choose);
  }

  /** The search finds a single match, at m. */
  lemma ReplaceOneMatch(s: string, pat: string, m: nat, choose: nat -> string)
    requires |pat| > 0 && MatchesFrom(s, pat, 0) == [m]
    ensures Replace(s, pat, choose) == s[..m] + choose(0) + s[m + |pat|..]
  {
    var ms := MatchesFrom(s, pat, 0);
    assert ms[1..] == [];
    assert Splice(s, 0, ms, |pat|, choose, 0) == s[0..m] + choose(0) + s[m + |pat|..];
  }

  lemma {:induction false} SpliceNotLonger(s: string, from: nat, ms: seq<nat>, len: nat, choose: nat -> string, k: nat)
    requires Placed(s, from, ms, len)
    requires forall n :: |choose(n)| <= len
    ensures |Splice(s, from, ms, len, choose, k)| <= |s| - from
    decreases |ms|
  {
    if ms != [] {
      SpliceNotLonger(s, ms[0] + len, ms[1..], len, choose, k + 1);
    }
  }

  /** Replacing by strings no longer than the phrase never makes the text longer. */
  lemma ReplaceNotLonger(s: string, pat: string, choose: nat -> string)
    requires |pat| > 0
    requires forall n :: |choose(n)| <= |pat|
    ensures |Replace(s, pat, choose)| <= |s|
  {
    SpliceNotLonger(s, 0, MatchesFrom(s, pat, 0), |pat|, choose, 0);
  }

  /** A phrase whose first code unit does not occur in s is never found. */
  lemma {:induction false} AbsentFirstNotFound(s: string, pat: string, i: nat)
    requires |pat| > 0 && i <= |s| && pat[0] !in s
    ensures MatchesFrom(s, pat, i) == []
    decreases |s| - i
  {
    if i < |s| {
      assert s[i] in s;
      DiffersAt(s, pat, i, 0);
      AbsentFirstNotFound(s, pat, i + 1);
    }
  }

  /** One differing code unit rules out an occurrence at k. */
  lemma DiffersAt(s: string, pat: string, k: nat, d: nat)
    requires d < |pat| && (k + d < |s| ==> s[k + d] != pat[d])
    ensures !WholeWordAt(s, pat, k)
  {
    if k + |pat| <= |s| {
      assert s[k..k + |pat|][d] == s[k + d];
    }
  }

  /** A one-pass reading of the replacement: walk the text from index i; at a
      whole-word occurrence write the replacement for the k-th match and jump
      past the occurrence, elsewhere copy the code unit. */
  function ScanReplace(s: string, pat: string, choose: nat -> string, i: nat, k: nat): string
    requires |pat| > 0 && i <= |s|
    decreases |s| - i
  {
    if i == |s| then ""
    else if WholeWordAt(s, pat, i) then choose(k) + ScanReplace(s, pat, choose, i + |pat|, k + 1)
    else [s[i]] + ScanReplace(s, pat, choose, i + 1, k)
  }

  /** Text before the first match is copied one code unit at a time. */
  lemma SpliceShift(s: string, i: nat, ms: seq<nat>, len: nat, choose: nat -> string, k: nat)
    requires i < |s| && Placed(s, i + 1, ms, len)
    ensures Placed(s, i, ms, len)
    ensures Splice(s, i, ms, len, choose, k) == [s[i]] + Splice(s, i + 1, ms, len, choose, k)
  {
    if ms == [] {
      assert s[i..] == [s[i]] + s[i + 1..];
    } else {
      var rest := Splice(s, ms[0] + len, ms[1..], len, choose, k + 1);
      var gap := s[i + 1..ms[0]];
      assert s[i..ms[0]] == [s[i]] + gap;
      assert Splice(s, i + 1, ms, len, choose, k) == gap + choose(k) + rest;
      assert Splice(s, i, ms, len, choose, k) == [s[i]] + gap + choose(k) + rest;
    }
  }

  lemma SpliceIsScanAtMatch(s: string, pat: string, choose: nat -> string, i: nat, k: nat)
    requires |pat| > 0 && i < |s| && WholeWordAt(s, pat, i)
    requires Splice(s, i + |pat|, MatchesFrom(s, pat, i + |pat|), |pat|, choose, k + 1)
      == ScanReplace(s, pat, choose, i + |pat|, k + 1)
    ensures Splice(s, i, MatchesFrom(s, pat, i), |pat|, choose, k) == ScanReplace(s, pat, choose, i, k)
  {
    var rest := MatchesFrom(s, pat, i + |pat|);
    assert MatchesFrom(s, pat, i) == [i] + rest;
    SpliceCons(s, i, rest, |pat|, choose, k);
  }

  /** A match right at the start contributes its replacement first. */
  lemma SpliceCons(s: string, i: nat, rest: seq<nat>, len: nat, choose: nat -> string, k: nat)
    requires i + len <= |s| && Placed(s, i + len, rest, len)
    ensures Placed(s, i, [i] + rest, len)
    ensures Splice(s, i, [i] + rest, len, choose, k) == choose(k) + Splice(s, i + len, rest, len, choose, k + 1)
  {
    var ms := [i] + rest;
    assert ms[0] == i && ms[1..] == rest;
    assert s[i..i] == "";
  }

  lemma SpliceIsScanElsewhere(s: string, pat: string, choose: nat -> string, i: nat, k: nat)
    requires |pat| > 0 && i < |s| && !WholeWordAt(s, pat, i)
    requires Splice(s, i + 1, MatchesFrom(s, pat, i + 1), |pat|, choose, k) == ScanReplace(s, pat, choose, i + 1, k)
    ensures Splice(s, i, MatchesFrom(s, pat, i), |pat|, choose, k) == ScanReplace(s, pat, choose, i, k)
  {
    var ms := MatchesFrom(s, pat, i + 1);
    assert MatchesFrom(s, pat, i) == ms;
    SpliceShift(s, i, ms, |pat|, choose, k);
  }

  lemma {:induction false} SpliceIsScan(s: string, pat: string, choose: nat -> string, i: nat, k: nat)
    requires |pat| > 0 && i <= |s|
    ensures Splice(s, i, MatchesFrom(s, pat, i), |pat|, choose, k) == ScanReplace(s, pat, choose, i, k)
    decreases |s| - i
  {
    if i < |s| {
      if WholeWordAt(s, pat, i) {
        SpliceIsScan(s, pat, choose, i + |pat|, k + 1);
        SpliceIsScanAtMatch(s, pat, choose, i, k);
      } else {
        SpliceIsScan(s, pat, choose, i + 1, k);
        SpliceIsScanElsewhere(s, pat, choose, i, k);
      }
    }
  }

  /** The collect-then-splice replacement agrees with the one-pass scan: every
      whole-word match found is replaced by the string for its rank and every
      other code unit is kept, in order. */
  lemma ReplaceIsScan(s: string, pat: string, choose: nat -> string)
    requires |pat| > 0
    ensures Replace(s, pat, choose) == ScanReplace(s, pat, choose, 0, 0)
  {
    SpliceIsScan(s, pat, choose, 0, 0);
  }
}
