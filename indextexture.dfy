/**
 * addHumanTexture of the Express server: the six variation rules, then three
 * fixed contractions, then, when its draw passes, a filler pass over the
 * pieces of the text between the occurrences of ". ". Every random draw is
 * an input: `fillerPass` is the draw `Math.random() > 0.6`, addFiller(i) the
 * draw `Math.random() > 0.8` for piece i and fillerPick(i) the filler index
 * drawn for that piece.
 */
module IndexTexture {
  import opened JsString
  import opened WordMatch
  import opened Variations

  const IndexRules: seq<Rule> := [
    Rule("However", ["That said", "But", "On the flip side", "Though"]),
    Rule("Moreover", ["Also", "Plus", "And yeah", "What's more"]),
    Rule("in order to", ["to", "so I can", "just to"]),
    Rule("It is important to", ["You should", "It's key to", "I'd say it's worth"]),
    Rule("utilize", ["use", "tap into", "go with", "make use of"]),
    Rule("the", ["that", "the", "a"])
  ]

  const Fillers: seq<string> := ["you know,", "like,", "honestly,", "by the way,"]
  const PieceSeparator: string := ". "

  /** The fixed contractions, in the order they are applied. */
  function Contractions(s: string): string {
    var a := Replace(s, "do not", Always("don't"));
    var b := Replace(a, "is not", Always("isn't"));
    Replace(b, "I am", Always("I'm"))
  }

  /** Contractions only ever shorten the text. */
  lemma ContractionsNotLonger(s: string)
    ensures |Contractions(s)| <= |s|
  {
    var a := Replace(s, "do not", Always("don't"));
    var b := Replace(a, "is not", Always("isn't"));
    ReplaceNotLonger(s, "do not", Always("don't"));
    ReplaceNotLonger(a, "is not", Always("isn't"));
    ReplaceNotLonger(b, "I am", Always("I'm"));
  }

  /** Text without a whole-word `do not`, `is not` or `I am` is left as it is. */
  lemma NoContractionUnchanged(s: string)
    requires forall x :: 0 <= x <= |s| ==>
      !WholeWordAt(s, "do not", x) && !WholeWordAt(s, "is not", x) && !WholeWordAt(s, "I am", x)
    ensures Contractions(s) == s
  {
  }

  /** What happens to piece p of the filler pass. */
  function FillerPiece(p: string, add: bool, f: nat): string
    requires f < |Fillers|
  {
    if add then Fillers[f] + " " + p else p
  }

  /** sentences after the forEach over the pieces. */
  function Decorate(ps: seq<string>, add: nat -> bool, pick: nat -> nat): (r: seq<string>)
    requires forall i :: pick(i) < |Fillers|
    ensures |r| == |ps|
  {
    seq(|ps|, i requires 0 <= i < |ps| => FillerPiece(ps[i], add(i), pick(i)))
  }

  /** Every piece is kept, or gets one of the four fillers and a space in front. */
  lemma DecoratedPieces(ps: seq<string>, add: nat -> bool, pick: nat -> nat)
    requires forall i :: pick(i) < |Fillers|
    ensures |Decorate(ps, add, pick)| == |ps|
    ensures forall i :: 0 <= i < |ps| ==>
      Decorate(ps, add, pick)[i] == ps[i]
      || exists f :: f in Fillers && Decorate(ps, add, pick)[i] == f + " " + ps[i]
  {
    forall i | 0 <= i < |ps| && add(i)
      ensures exists f :: f in Fillers && Decorate(ps, add, pick)[i] == f + " " + ps[i]
    {
      var f := Fillers[pick(i)];
      assert f in Fillers;
    }
  }

  /** The filler step: the text when the draw fails, otherwise its pieces
      between occurrences of ". ", decorated and joined again with ". ". */
  function WithFillers(s: string, fillerPass: bool, add: nat -> bool, pick: nat -> nat): string
    requires forall i :: pick(i) < |Fillers|
  {
    if fillerPass then Join(Decorate(Split(s, PieceSeparator), add, pick), PieceSeparator) else s
  }

  /** Without the pass, or with no filler drawn, the filler step changes nothing:
      splitting on ". " and joining with ". " gives the text back. */
  lemma FillersOffUnchanged(s: string, fillerPass: bool, add: nat -> bool, pick: nat -> nat)
    requires forall i :: pick(i) < |Fillers|
    requires !fillerPass || forall i :: !add(i)
    ensures WithFillers(s, fillerPass, add, pick) == s
  {
    if fillerPass {
      var ps := Split(s, PieceSeparator);
      assert Decorate(ps, add, pick) == ps;
      JoinSplit(s, PieceSeparator);
    }
  }

  /** addHumanTexture(text) with its draws made explicit. */
  function HumanTexture(text: string, picks: seq<nat -> nat>, fillerPass: bool, add: nat -> bool, pick: nat -> nat): string
    requires ValidPicks(IndexRules, picks)
    requires forall i :: pick(i) < |Fillers|
  {
    WithFillers(Contractions(ApplyRules(text, IndexRules, picks)), fillerPass, add, pick)
  }

  /** The filler pass over an array of the pieces, each slot overwritten in place. */
  method AddFillers(s: string, add: nat -> bool, pick: nat -> nat) returns (result: string)
    requires forall i :: pick(i) < |Fillers|
    ensures result == WithFillers(s, true, add, pick)
  {
    var parts := Split(s, PieceSeparator);
    var sentences := new string[|parts|](i requires 0 <= i < |parts| => parts[i]);
    var i := 0;
    while i < sentences.Length
      invariant 0 <= i <= sentences.Length
      invariant forall x :: 0 <= x < i ==> sentences[x] == FillerPiece(parts[x], add(x), pick(x))
      invariant forall x :: i <= x < sentences.Length ==> sentences[x] == parts[x]
    {
      if add(i) {
        sentences[i] := Fillers[pick(i)] + " " + sentences[i];
      }
      i := i + 1;
    }
    assert sentences[..] == Decorate(parts, add, pick);
    result := Join(sentences[..], PieceSeparator);
  }

  /** addHumanTexture: the rules, the contractions, then perhaps the fillers. */
  method AddHumanTexture(text: string, picks: seq<nat -> nat>, fillerPass: bool, add: nat -> bool, pick: nat -> nat)
    returns (result: string)
    requires ValidPicks(IndexRules, picks)
    requires forall i :: pick(i) < |Fillers|
    ensures result == HumanTexture(text, picks, fillerPass, add, pick)
  {
    result := ApplyAll(text, IndexRules, picks);
    result := Replace(result, "do not", Always("don't"));
    result := Replace(result, "is not", Always("isn't"));
    result := Replace(result, "I am", Always("I'm"));
    if fillerPass {
      result := AddFillers(result, add, pick);
    }
  }

  /** Drawing index 1 for every `the` puts `the` back: the last rule then changes nothing. */
  lemma TheSwapCanKeep(text: string, pick: nat -> nat)
    requires forall k :: pick(k) == 1
    ensures ApplyRule(text, IndexRules[5], pick) == text
  {
    PickSelfUnchanged(text, IndexRules[5], pick);
  }

  /** Text with none of the rule phrases and none of the contracted phrases,
      and no filler added, comes back unchanged. */
  lemma PlainTextUnchanged(text: string, picks: seq<nat -> nat>, fillerPass: bool, add: nat -> bool, pick: nat -> nat)
    requires ValidPicks(IndexRules, picks)
    requires forall i :: pick(i) < |Fillers|
    requires forall j, x :: 0 <= j < |IndexRules| && 0 <= x <= |text| ==> !WholeWordAt(text, IndexRules[j].phrase, x)
    requires forall x :: 0 <= x <= |text| ==>
      !WholeWordAt(text, "do not", x) && !WholeWordAt(text, "is not", x) && !WholeWordAt(text, "I am", x)
    requires !fillerPass || forall i :: !add(i)
    ensures HumanTexture(text, picks, fillerPass, add, pick) == text
  {
    NoPhraseUnchanged(text, IndexRules, picks);
    NoContractionUnchanged(text);
    FillersOffUnchanged(text, fillerPass, add, pick);
  }
}
