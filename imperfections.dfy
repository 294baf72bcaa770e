/**
 * addImperfections: unless its first draw (`Math.random() > 0.4`) says to
 * leave the text alone, every entry of a four-entry typo table whose own
 * draw (`Math.random() > 0.7`) passes replaces each whole-word occurrence
 * of its word, in table order, each on the result of the entries before it.
 * The draws are inputs: `skip` is the first, apply[j] the one for entry j.
 */
module Imperfections {
  import opened WordMatch

  datatype Typo = Typo(from: string, to: string)

  const Typos: seq<Typo> := [
    Typo("the", "teh"),
    Typo("and", "adn"),
    Typo("to", "too"),
    Typo("it's", "its")
  ]

  predicate Matchable(typos: seq<Typo>) {
    forall j :: 0 <= j < |typos| ==> |typos[j].from| > 0
  }

  /** The selected entries applied in table order. */
  function ApplyTypos(text: string, typos: seq<Typo>, apply: seq<bool>): string
    requires Matchable(typos) && |apply| == |typos|
    decreases |typos|
  {
    if typos == [] then text
    else
      var n := |typos| - 1;
      var before := ApplyTypos(text, typos[..n], apply[..n]);
      if apply[n] then Replace(before, typos[n].from, Always(typos[n].to)) else before
  }

  /** addImperfections(text) with its draws made explicit. */
  function Imperfect(text: string, skip: bool, apply: seq<bool>): string
    requires |apply| == |Typos|
  {
    if skip then text else ApplyTypos(text, Typos, apply)
  }

  method AddImperfections(text: string, skip: bool, apply: seq<bool>) returns (result: string)
    requires |apply| == |Typos|
    ensures result == Imperfect(text, skip, apply)
  {
    if skip {
      return text;
    }
    result := text;
    var i := 0;
    while i < |Typos|
      invariant 0 <= i <= |Typos|
      invariant result == ApplyTypos(text, Typos[..i], apply[..i])
    {
      assert Typos[..i + 1][..i] == Typos[..i] && apply[..i + 1][..i] == apply[..i];
      if apply[i] {
        result := Replace(result, Typos[i].from, Always(Typos[i].to));
      }
      i := i + 1;
    }
    assert Typos[..i] == Typos && apply[..i] == apply;
  }

  /** With no entry selected nothing is replaced. */
  lemma {:induction false} NoneSelectedUnchanged(text: string, typos: seq<Typo>, apply: seq<bool>)
    requires Matchable(typos) && |apply| == |typos|
    requires forall j :: 0 <= j < |apply| ==> !apply[j]
    ensures ApplyTypos(text, typos, apply) == text
    decreases |typos|
  {
    if typos != [] {
      NoneSelectedUnchanged(text, typos[..|typos| - 1], apply[..|typos| - 1]);
    }
  }

  /** The text comes back unchanged when the first draw skips or when no entry is selected. */
  lemma SkippedUnchanged(text: string, skip: bool, apply: seq<bool>)
    requires |apply| == |Typos|
    requires skip || forall j :: 0 <= j < |apply| ==> !apply[j]
    ensures Imperfect(text, skip, apply) == text
  {
    if !skip {
      NoneSelectedUnchanged(text, Typos, apply);
    }
  }

  /** Text without a whole-word occurrence of any table word is never changed. */
  lemma {:induction false} NoTableWordUnchanged(text: string, typos: seq<Typo>, apply: seq<bool>)
    requires Matchable(typos) && |apply| == |typos|
    requires forall j, x :: 0 <= j < |typos| && 0 <= x <= |text| ==> !WholeWordAt(text, typos[j].from, x)
    ensures ApplyTypos(text, typos, apply) == text
    decreases |typos|
  {
    if typos != [] {
      var n := |typos| - 1;
      NoTableWordUnchanged(text, typos[..n], apply[..n]);
      assert forall x :: 0 <= x <= |text| ==> !WholeWordAt(text, typos[n].from, x);
    }
  }

  /** When exactly one entry is selected, the result is that entry's
      replacement alone. */
  lemma {:induction false} OnlyOneSelected(text: string, typos: seq<Typo>, apply: seq<bool>, j: nat)
    requires Matchable(typos) && |apply| == |typos|
    requires j < |typos| && apply[j]
    requires forall i :: 0 <= i < |apply| && i != j ==> !apply[i]
    ensures ApplyTypos(text, typos, apply) == Replace(text, typos[j].from, Always(typos[j].to))
    decreases |typos|
  {
    var n := |typos| - 1;
    if n == j {
      NoneSelectedUnchanged(text, typos[..n], apply[..n]);
    } else {
      OnlyOneSelected(text, typos[..n], apply[..n], j);
    }
  }

  /** `theme` and `The` are not whole-word, case-sensitive occurrences of any entry. */
  lemma NotWordsOfTheTable()
    ensures forall j, x :: 0 <= j < |Typos| && 0 <= x <= |"theme The"| ==> !WholeWordAt("theme The", Typos[j].from, x)
  {
  }

  /** Whatever is drawn, `theme The` comes out as it went in. */
  lemma ThemeTheUnchanged(skip: bool, apply: seq<bool>)
    requires |apply| == |Typos|
    ensures Imperfect("theme The", skip, apply) == "theme The"
  {
    if !skip {
      NotWordsOfTheTable();
      NoTableWordUnchanged("theme The", Typos, apply);
    }
  }
}
