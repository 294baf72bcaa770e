/**
 * splitLongSentences: the text is split at every run of spaces that directly
 * follows a period (`text.split(/(?<=\.)\s+/)`, the period staying with the
 * piece on its left); every piece longer than 120 code units is broken at
 * its last comma at or before index 80, or cut to 90 code units followed by
 * an ellipsis when that comma is missing or at index 20 or less; the pieces
 * are joined again with single spaces.
 */
module Sentences {
  import opened JsString

  const LongPiece: nat := 120
  const CommaSearchEnd: nat := 80
  const MinCommaIndex: nat := 20
  const TruncatedLength: nat := 90
  const Ellipsis: string := "..."

  /** The pattern `(?<=\.)\s+` can start at index q: a space right after a period. */
  predicate SplitPointAt(s: string, q: nat) {
    0 < q < |s| && s[q - 1] == '.' && IsSpace(s[q])
  }

  /** The first index at or after `from` where the pattern starts, or |s|. */
  function FirstSplitPoint(s: string, from: nat): (q: nat)
    requires from <= |s|
    ensures from <= q <= |s|
    ensures q < |s| ==> SplitPointAt(s, q)
    ensures forall x :: from <= x < q ==> !SplitPointAt(s, x)
    decreases |s| - from
  {
    if from == |s| then |s|
    else if SplitPointAt(s, from) then from
    else FirstSplitPoint(s, from + 1)
  }

  /** Where the greedy `\s+` starting at q stops. */
  function SpaceRunEnd(s: string, q: nat): (e: nat)
    requires q <= |s|
    ensures q <= e <= |s|
    ensures forall x :: q <= x < e ==> IsSpace(s[x])
    ensures e < |s| ==> !IsSpace(s[e])
    decreases |s| - q
  {
    if q < |s| && IsSpace(s[q]) then SpaceRunEnd(s, q + 1) else q
  }

  /** The pieces of `s.split(/(?<=\.)\s+/)` together with the runs of spaces
      the split removes; there is always one run fewer than pieces. */
  function SplitSentences(s: string): (r: (seq<string>, seq<string>))
    ensures |r.0| == |r.1| + 1
    decreases |s|
  {
    var q := FirstSplitPoint(s, 0);
    if q == |s| then ([s], [])
    else
      var e := SpaceRunEnd(s, q);
      var rest := SplitSentences(s[e..]);
      ([s[..q]] + rest.0, [s[q..e]] + rest.1)
  }

  function Pieces(s: string): seq<string> {
    SplitSentences(s).0
  }

  /** The pieces with the removed runs put back between them. */
  function Interleave(ps: seq<string>, ws: seq<string>): string
    requires |ps| == |ws| + 1
    decreases |ws|
  {
    if ws == [] then ps[0] else ps[0] + ws[0] + Interleave(ps[1..], ws[1..])
  }

  /** Nothing is lost by the split but the runs of spaces it reports. */
  lemma {:induction false} SplitSentencesRebuild(s: string)
    ensures Interleave(SplitSentences(s).0, SplitSentences(s).1) == s
    decreases |s|
  {
    var q := FirstSplitPoint(s, 0);
    if q < |s| {
      var e := SpaceRunEnd(s, q);
      SplitSentencesRebuild(s[e..]);
      var rest := SplitSentences(s[e..]);
      var r := SplitSentences(s);
      assert r.0[1..] == rest.0 && r.1[1..] == rest.1;
      assert s == s[..q] + s[q..e] + s[e..];
    }
  }

  /** A removed run w is a non-empty run of spaces and the piece p on its
      left ends with a period. */
  ghost predicate RunAfterPeriod(p: string, w: string) {
    |w| > 0 && AllSpace(w) && |p| > 0 && p[|p| - 1] == '.'
  }

  lemma ConsRunAfterPeriod(p: string, w: string, ps: seq<string>, ws: seq<string>)
    requires |ps| == |ws| + 1 && RunAfterPeriod(p, w)
    requires forall i :: 0 <= i < |ws| ==> RunAfterPeriod(ps[i], ws[i])
    ensures forall i :: 0 <= i < |ws| + 1 ==> RunAfterPeriod(([p] + ps)[i], ([w] + ws)[i])
  {
    forall i | 0 <= i < |ws| + 1 ensures RunAfterPeriod(([p] + ps)[i], ([w] + ws)[i]) {
      if i > 0 {
        assert ([p] + ps)[i] == ps[i - 1] && ([w] + ws)[i] == ws[i - 1];
      }
    }
  }

  /** Every removed run is a non-empty run of spaces that follows a period:
      the piece on its left ends with that period. */
  lemma {:induction false} SplitAfterPeriods(s: string)
    ensures forall i :: 0 <= i < |SplitSentences(s).1| ==>
      RunAfterPeriod(SplitSentences(s).0[i], SplitSentences(s).1[i])
    decreases |s|
  {
    var q := FirstSplitPoint(s, 0);
    if q < |s| {
      var e := SpaceRunEnd(s, q);
      SplitAfterPeriods(s[e..]);
      var rest := SplitSentences(s[e..]);
      var run := s[q..e];
      assert AllSpace(run) by {
        forall x | 0 <= x < |run| ensures IsSpace(run[x]) {
          assert run[x] == s[q + x];
        }
      }
      assert SplitPointAt(s, q);
      assert |run| > 0;
      assert s[..q][q - 1] == '.';
      ConsRunAfterPeriod(s[..q], run, rest.0, rest.1);
    }
  }

  /** No piece contains a place where the pattern could have matched, and
      every piece after the first starts with a non-space (the runs are
      removed whole). */
  lemma {:induction false} PiecesAreMaximal(s: string)
    ensures var ps := Pieces(s);
      (forall i, x :: 0 <= i < |ps| ==> !SplitPointAt(ps[i], x))
      && (forall i :: 1 <= i < |ps| && ps[i] != [] ==> !IsSpace(ps[i][0]))
    decreases |s|
  {
    var q := FirstSplitPoint(s, 0);
    if q == |s| {
      forall x: nat ensures !SplitPointAt(s, x) {
        if x < q {
          assert 0 <= x < q;
        }
      }
    } else {
      var e := SpaceRunEnd(s, q);
      PiecesAreMaximal(s[e..]);
      var rest := Pieces(s[e..]);
      var ps := Pieces(s);
      assert ps == [s[..q]] + rest;
      forall x: nat ensures !SplitPointAt(s[..q], x) {
        if 0 < x < q {
          assert !SplitPointAt(s, x);
          assert s[..q][x - 1] == s[x - 1] && s[..q][x] == s[x];
        }
      }
      assert rest[0] != [] ==> rest[0][0] == s[e] by {
        var q' := FirstSplitPoint(s[e..], 0);
        if q' < |s[e..]| {
          assert rest[0] == s[e..][..q'];
        } else {
          assert rest[0] == s[e..];
        }
      }
      forall i | 1 <= i < |ps| ensures ps[i] == rest[i - 1] {
      }
    }
  }

  /** String.prototype.lastIndexOf for one code unit c, searching down from
      index pos: the largest index at most pos holding c, or -1. */
  function LastIndexOf(s: string, c: char, pos: int): (r: int)
    requires -1 <= pos < |s|
    ensures -1 <= r <= pos
    ensures r >= 0 ==> s[r] == c
    ensures forall x :: r < x <= pos ==> s[x] != c
    decreases pos + 1
  {
    if pos < 0 then -1
    else if s[pos] == c then pos
    else LastIndexOf(s, c, pos - 1)
  }

  /** `s.lastIndexOf(c, position)` for a position >= 0: the search starts at
      the position, or at the last index when the string is shorter. */
  function JsLastIndexOf(s: string, c: char, position: nat): (r: int)
    ensures -1 <= r <= position && r < |s|
    ensures r >= 0 ==> s[r] == c
    ensures forall x :: r < x <= position && x < |s| ==> s[x] != c
  {
    LastIndexOf(s, c, if position < |s| then position else |s| - 1)
  }

  /** What happens to one piece of the split. */
  function FixPiece(p: string): string {
    if |p| > LongPiece then
      var mid := JsLastIndexOf(p, ',', CommaSearchEnd);
      if mid > MinCommaIndex as int then p[..mid] + ". " + Trim(p[mid + 1..])
      else p[..TruncatedLength] + Ellipsis
    else p
  }

  /** splitLongSentences(text). */
  function SplitLongSentences(text: string): string {
    var ps := Pieces(text);
    Join(seq(|ps|, i requires 0 <= i < |ps| => FixPiece(ps[i])), " ")
  }

  /** A piece of at most 120 code units is left as it is. */
  lemma ShortPieceKept(p: string)
    requires |p| <= LongPiece
    ensures FixPiece(p) == p
  {
  }

  /** A long piece without a comma past index 20 among indices 0..80 is cut to
      exactly 93 code units: its first 90 and an ellipsis. */
  lemma LongPieceTruncated(p: string)
    requires |p| > LongPiece
    requires forall x :: MinCommaIndex < x <= CommaSearchEnd ==> p[x] != ','
    ensures FixPiece(p) == p[..TruncatedLength] + Ellipsis
    ensures |FixPiece(p)| == 93
  {
  }

  /** Replacing the comma by ". " and trimming the rest keeps the other non-space code units. */
  lemma {:induction false} BreakKeepsNonSpace(p: string, mid: nat)
    requires mid < |p|
    ensures NonSpace(p[..mid] + ". " + Trim(p[mid + 1..])) == NonSpace(p[..mid]) + "." + NonSpace(p[mid + 1..])
  {
    var left, right := p[..mid], Trim(p[mid + 1..]);
    TrimKeepsNonSpace(p[mid + 1..]);
    NonSpaceConcat(left + ". ", right);
    NonSpaceConcat(left, ". ");
    assert NonSpace(". ") == "." by {
      assert ". "[1..] == " ";
      assert " "[1..] == "";
    }
  }

  /** The non-space code units of a piece around its comma at mid. */
  lemma {:induction false} NonSpaceAroundComma(p: string, mid: nat)
    requires mid < |p| && p[mid] == ','
    ensures NonSpace(p) == NonSpace(p[..mid]) + "," + NonSpace(p[mid + 1..])
  {
    var left, right := p[..mid], p[mid + 1..];
    assert p == left + [','] + right;
    NonSpaceConcat(left + [','], right);
    NonSpaceConcat(left, [',']);
  }

  /** A long piece whose last comma at or before index 80 lies past index 20
      is broken there: the comma becomes a period and a space, the rest is
      trimmed, and no other non-space code unit is lost or added. */
  lemma LongPieceBroken(p: string, mid: nat)
    requires |p| > LongPiece
    requires MinCommaIndex < mid <= CommaSearchEnd && p[mid] == ','
    requires forall x :: mid < x <= CommaSearchEnd ==> p[x] != ','
    ensures FixPiece(p) == p[..mid] + ". " + Trim(p[mid + 1..])
    ensures NonSpace(FixPiece(p)) == NonSpace(p[..mid]) + "." + NonSpace(p[mid + 1..])
    ensures NonSpace(p) == NonSpace(p[..mid]) + "," + NonSpace(p[mid + 1..])
  {
    assert JsLastIndexOf(p, ',', CommaSearchEnd) == mid;
    BreakKeepsNonSpace(p, mid);
    NonSpaceAroundComma(p, mid);
  }

  /** When no piece is long, the text comes back as its pieces joined by single spaces. */
  lemma NoLongPieceJustRejoins(text: string)
    requires forall i :: 0 <= i < |Pieces(text)| ==> |Pieces(text)[i]| <= LongPiece
    ensures SplitLongSentences(text) == Join(Pieces(text), " ")
  {
    var ps := Pieces(text);
    assert seq(|ps|, i requires 0 <= i < |ps| => FixPiece(ps[i])) == ps;
  }
}
