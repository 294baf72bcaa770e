/**
 * The few JavaScript string built-ins the text transforms are written with:
 * String.prototype.trim, the `\s` character class, String.prototype.split
 * with a string separator, Array.prototype.join and String.prototype.slice
 * from the start. A JavaScript string is a seq<char> here, one element per
 * UTF-16 code unit, so a length is a count of code units as JavaScript has it.
 */
module JsString {

  /** The code units ECMAScript calls WhiteSpace or LineTerminator: exactly
      what `trim` removes and what the regular-expression class `\s` matches. */
  predicate IsSpace(c: char) {
    c == '\t' || c == '\n' || c == '\U{000B}' || c == '\U{000C}' || c == '\r'
    || c == ' ' || c == '\U{00A0}' || c == '\U{1680}'
    || ('\U{2000}' <= c <= '\U{200A}')
    || c == '\U{2028}' || c == '\U{2029}' || c == '\U{202F}' || c == '\U{205F}'
    || c == '\U{3000}' || c == '\U{FEFF}'
  }

  ghost predicate AllSpace(s: string) {
    forall i :: 0 <= i < |s| ==> IsSpace(s[i])
  }

  /** A string `trim` would leave as it is. */
  predicate IsTrimmed(s: string) {
    s == [] || (!IsSpace(s[0]) && !IsSpace(s[|s| - 1]))
  }

  /** The length of the leading run of spaces. */
  function LeadingSpaces(s: string): (n: nat)
    ensures n <= |s|
    ensures forall i :: 0 <= i < n ==> IsSpace(s[i])
    ensures n < |s| ==> !IsSpace(s[n])
  {
    if |s| > 0 && IsSpace(s[0]) then 1 + LeadingSpaces(s[1..]) else 0
  }

  /** The length of the trailing run of spaces. */
  function TrailingSpaces(s: string): (n: nat)
    ensures n <= |s|
    ensures forall i :: |s| - n <= i < |s| ==> IsSpace(s[i])
    ensures n < |s| ==> !IsSpace(s[|s| - n - 1])
  {
    if |s| > 0 && IsSpace(s[|s| - 1]) then 1 + TrailingSpaces(s[..|s| - 1]) else 0
  }

  /** String.prototype.trimStart. */
  function TrimStart(s: string): string {
    s[LeadingSpaces(s)..]
  }

  /** String.prototype.trimEnd. */
  function TrimEnd(s: string): string {
    s[..|s| - TrailingSpaces(s)]
  }

  /** String.prototype.trim. */
  function Trim(s: string): (r: string)
    ensures IsTrimmed(r) && |r| <= |s|
    ensures IsTrimmed(s) ==> r == s
  {
    TrimEnd(TrimStart(s))
  }

  /** `trim` keeps a contiguous part of its input and removes only spaces around it. */
  lemma {:induction false} TrimInfix(s: string)
    ensures var i := LeadingSpaces(s);
      i + |Trim(s)| <= |s| && Trim(s) == s[i..i + |Trim(s)|]
      && AllSpace(s[..i]) && AllSpace(s[i + |Trim(s)|..])
  {
    var i := LeadingSpaces(s);
    var t := s[i..];
    var j := |t| - TrailingSpaces(t);
    assert Trim(s) == s[i..i + j] by {
      assert Trim(s) == t[..j];
    }
    assert AllSpace(s[..i]) by {
      var lead := s[..i];
      forall x | 0 <= x < i ensures IsSpace(lead[x]) {
        assert lead[x] == s[x];
      }
    }
    assert AllSpace(s[i + j..]) by {
      var trail := s[i + j..];
      forall x | 0 <= x < |trail| ensures IsSpace(trail[x]) {
        assert trail[x] == t[j + x];
      }
    }
  }

  /** The non-space code units of a string, in order. */
  function NonSpace(s: string): (r: string)
    ensures |r| <= |s|
  {
    if s == [] then [] else (if IsSpace(s[0]) then [] else [s[0]]) + NonSpace(s[1..])
  }

  lemma {:induction false} NonSpaceConcat(a: string, b: string)
    ensures NonSpace(a + b) == NonSpace(a) + NonSpace(b)
  {
    if a == [] {
      assert a + b == b;
    } else {
      assert (a + b)[1..] == a[1..] + b;
      NonSpaceConcat(a[1..], b);
    }
  }

  lemma {:induction false} NonSpaceOfSpaces(s: string)
    requires AllSpace(s)
    ensures NonSpace(s) == []
  {
    if s != [] {
      NonSpaceOfSpaces(s[1..]);
    }
  }

  lemma {:induction false} DropSpacesKeepsNonSpace(lead: string, rest: string)
    requires AllSpace(lead)
    ensures NonSpace(lead + rest) == NonSpace(rest)
  {
    NonSpaceConcat(lead, rest);
    NonSpaceOfSpaces(lead);
  }

  lemma {:induction false} TrimStartKeepsNonSpace(s: string)
    ensures NonSpace(TrimStart(s)) == NonSpace(s)
  {
    var k := LeadingSpaces(s);
    var lead, t := s[..k], s[k..];
    assert AllSpace(lead) by {
      forall i | 0 <= i < |lead| ensures IsSpace(lead[i]) {
        assert lead[i] == s[i];
      }
    }
    assert s == lead + t;
    DropSpacesKeepsNonSpace(lead, t);
  }

  lemma {:induction false} TrimEndKeepsNonSpace(t: string)
    ensures NonSpace(TrimEnd(t)) == NonSpace(t)
  {
    var j := |t| - TrailingSpaces(t);
    var r, trail := t[..j], t[j..];
    assert AllSpace(trail) by {
      forall i | 0 <= i < |trail| ensures IsSpace(trail[i]) {
        assert trail[i] == t[j + i];
      }
    }
    assert t == r + trail;
    NonSpaceConcat(r, trail);
    NonSpaceOfSpaces(trail);
  }

  /** `trim` loses no code unit other than spaces. */
  lemma TrimKeepsNonSpace(s: string)
    ensures NonSpace(Trim(s)) == NonSpace(s)
  {
    TrimStartKeepsNonSpace(s);
    TrimEndKeepsNonSpace(TrimStart(s));
  }

  /** String.prototype.slice(0, n) for n >= 0: the first n code units, or
      the whole string when it is shorter. */
  function Prefix(s: string, n: nat): (r: string)
    ensures |r| == if |s| <= n then |s| else n
    ensures r == s[..|r|]
  {
    if |s| <= n then s else s[..n]
  }

  /** Array.prototype.join: the parts with `sep` between neighbours. */
  function Join(parts: seq<string>, sep: string): string {
    if |parts| == 0 then ""
    else if |parts| == 1 then parts[0]
    else parts[0] + sep + Join(parts[1..], sep)
  }

  /** String.prototype.split with a non-empty string separator: the pieces
      between the leftmost non-overlapping occurrences of `sep`. The empty
      string splits into one empty piece. */
  function Split(s: string, sep: string): (parts: seq<string>)
    requires |sep| > 0
    ensures |parts| >= 1
    decreases |s|
  {
    if |s| < |sep| then [s]
    else if s[..|sep|] == sep then [""] + Split(s[|sep|..], sep)
    else
      var rest := Split(s[1..], sep);
      [[s[0]] + rest[0]] + rest[1..]
  }

  /** The split cuts at every occurrence: no part contains the separator,
      and the first part is where the string starts. */
  lemma {:induction false} SplitPartsAvoidSep(s: string, sep: string)
    requires |sep| > 0
    ensures var parts := Split(s, sep);
      |parts[0]| <= |s| && parts[0] == s[..|parts[0]|]
      && forall i :: 0 <= i < |parts| ==> !Contains(parts[i], sep)
    decreases |s|
  {
    if |s| < |sep| {
      assert !Contains(s, sep);
    } else if s[..|sep|] == sep {
      SplitPartsAvoidSep(s[|sep|..], sep);
      assert !Contains("", sep);
      var rest := Split(s[|sep|..], sep);
      assert forall i :: 1 <= i < |rest| + 1 ==> Split(s, sep)[i] == rest[i - 1];
    } else {
      SplitPartsAvoidSep(s[1..], sep);
      var rest := Split(s[1..], sep);
      ConsKeepsOut(s, rest[0], sep);
      assert forall i :: 1 <= i < |rest| ==> Split(s, sep)[i] == rest[i];
    }
  }

  /** `sep` occurs in t at index x. */
  predicate OccursAt(t: string, sep: string, x: nat) {
    x + |sep| <= |t| && t[x..x + |sep|] == sep
  }

  ghost predicate Contains(t: string, sep: string) {
    exists x: nat :: OccursAt(t, sep, x)
  }

  /** A part that starts a string in which `sep` does not start keeps `sep`
      out when the string's first code unit is put back in front of it. */
  lemma ConsKeepsOut(s: string, t: string, sep: string)
    requires |sep| > 0 && |sep| <= |s| && s[..|sep|] != sep
    requires |t| <= |s| - 1 && t == s[1..][..|t|] && !Contains(t, sep)
    ensures !Contains([s[0]] + t, sep)
  {
    var u := [s[0]] + t;
    assert u == s[..|u|];
    forall x: nat ensures !OccursAt(u, sep, x) {
      if x == 0 {
        if |sep| <= |u| {
          assert u[..|sep|] == s[..|sep|];
        }
      } else if x + |sep| <= |u| {
        assert u[x..x + |sep|] == t[x - 1..x - 1 + |sep|];
        assert !OccursAt(t, sep, x - 1);
      }
    }
  }

  /** Gluing a code unit to the front of the first part glues it to the front of the join. */
  lemma {:induction false} JoinConsFirst(c: char, parts: seq<string>, sep: string)
    requires |parts| >= 1
    ensures Join([[c] + parts[0]] + parts[1..], sep) == [c] + Join(parts, sep)
  {
    var glued := [[c] + parts[0]] + parts[1..];
    if |parts| > 1 {
      assert glued[1..] == parts[1..];
    }
  }

  /** A leading empty part contributes only the separator. */
  lemma JoinAfterEmpty(parts: seq<string>, sep: string)
    requires |parts| >= 1
    ensures Join([""] + parts, sep) == sep + Join(parts, sep)
  {
    assert ([""] + parts)[1..] == parts;
  }

  /** Joining the pieces of a split with the same separator gives back the string. */
  lemma {:induction false} JoinSplit(s: string, sep: string)
    requires |sep| > 0
    ensures Join(Split(s, sep), sep) == s
    decreases |s|
  {
    if |s| < |sep| {
    } else if s[..|sep|] == sep {
      JoinSplit(s[|sep|..], sep);
      JoinAfterEmpty(Split(s[|sep|..], sep), sep);
      assert s == sep + s[|sep|..];
    } else {
      JoinSplit(s[1..], sep);
      JoinConsFirst(s[0], Split(s[1..], sep), sep);
      assert s == [s[0]] + s[1..];
    }
  }
}
