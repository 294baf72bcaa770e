/**
 * The variation rules both versions of addHumanTexture run: an ordered list
 * of rules, each a whole-word phrase and its candidate replacements. The
 * rules run in list order, each on the result of the ones before it, and
 * every match of a rule is replaced by the candidate at an index drawn for
 * that match (`Math.floor(Math.random() * replace.length)`). The draws are
 * inputs here: picks[j](k) is the index drawn for the k-th match of rule j.
 */
module Variations {
  import opened WordMatch

  datatype Rule = Rule(phrase: string, candidates: seq<string>)

  /** Every phrase can match something and every rule has a candidate. */
  predicate WellFormed(rules: seq<Rule>) {
    forall j :: 0 <= j < |rules| ==> |rules[j].phrase| > 0 && |rules[j].candidates| > 0
  }

  /** One draw table per rule, every draw a valid index into that rule's candidates. */
  ghost predicate ValidPicks(rules: seq<Rule>, picks: seq<nat -> nat>) {
    |picks| == |rules| && forall j, k :: 0 <= j < |rules| ==> picks[j](k) < |rules[j].candidates|
  }

  /** `result.replace(regex, () => replace[index])` for one rule. */
  function ApplyRule(text: string, rule: Rule, pick: nat -> nat): string
    requires |rule.phrase| > 0
    requires forall k :: pick(k) < |rule.candidates|
  {
    Replace(text, rule.phrase, (k: nat) => rule.candidates[pick(k)])
  }

  /** The rules applied in order: the last rule runs on what the others made. */
  function ApplyRules(text: string, rules: seq<Rule>, picks: seq<nat -> nat>): string
    requires WellFormed(rules) && ValidPicks(rules, picks)
    decreases |rules|
  {
    if rules == [] then text
    else
      var n := |rules| - 1;
      var before := ApplyRules(text, rules[..n], picks[..n]);
      ApplyRule(before, rules[n], picks[n])
  }

  /** The forEach over the rules, reassigning the running result. */
  method ApplyAll(text: string, rules: seq<Rule>, picks: seq<nat -> nat>) returns (result: string)
    requires WellFormed(rules) && ValidPicks(rules, picks)
    ensures result == ApplyRules(text, rules, picks)
  {
    result := text;
    var i := 0;
    while i < |rules|
      invariant 0 <= i <= |rules|
      invariant result == ApplyRules(text, rules[..i], picks[..i])
    {
      assert rules[..i + 1][..i] == rules[..i] && picks[..i + 1][..i] == picks[..i];
      result := ApplyRule(result, rules[i], picks[i]);
      i := i + 1;
    }
    assert rules[..i] == rules && picks[..i] == picks;
  }

  /** No phrase of any rule occurs as a whole word: the text comes back unchanged. */
  lemma {:induction false} NoPhraseUnchanged(text: string, rules: seq<Rule>, picks: seq<nat -> nat>)
    requires WellFormed(rules) && ValidPicks(rules, picks)
    requires forall j, x :: 0 <= j < |rules| && 0 <= x <= |text| ==> !WholeWordAt(text, rules[j].phrase, x)
    ensures ApplyRules(text, rules, picks) == text
    decreases |rules|
  {
    if rules != [] {
      var n := |rules| - 1;
      NoPhraseUnchanged(text, rules[..n], picks[..n]);
      assert forall x :: 0 <= x <= |text| ==> !WholeWordAt(text, rules[n].phrase, x);
    }
  }

  /** A rule whose draws always pick its own phrase leaves the text unchanged. */
  lemma PickSelfUnchanged(text: string, rule: Rule, pick: nat -> nat)
    requires |rule.phrase| > 0
    requires forall k :: pick(k) < |rule.candidates| && rule.candidates[pick(k)] == rule.phrase
    ensures ApplyRule(text, rule, pick) == text
  {
    ReplaceBySelf(text, rule.phrase, (k: nat) => rule.candidates[pick(k)]);
  }

  /** One whole-word occurrence of the phrase, at m: that span becomes the
      candidate drawn for the first match and nothing else changes. */
  lemma ApplyRuleSingle(text: string, rule: Rule, pick: nat -> nat, m: nat)
    requires |rule.phrase| > 0
    requires forall k :: pick(k) < |rule.candidates|
    requires WholeWordAt(text, rule.phrase, m)
    requires forall j :: 0 <= j <= |text| && j != m ==> !WholeWordAt(text, rule.phrase, j)
    ensures ApplyRule(text, rule, pick) == text[..m] + rule.candidates[pick(0)] + text[m + |rule.phrase|..]
  {
    ReplaceSingle(text, rule.phrase, m, (k: nat) => rule.candidates[pick(k)]);
  }

  /** Running one more rule runs it on the result of the rules before it. */
  lemma ApplyRulesStep(text: string, rules: seq<Rule>, picks: seq<nat -> nat>, i: nat)
    requires WellFormed(rules) && ValidPicks(rules, picks) && i < |rules|
    ensures ApplyRules(text, rules[..i + 1], picks[..i + 1])
      == ApplyRule(ApplyRules(text, rules[..i], picks[..i]), rules[i], picks[i])
  {
    assert rules[..i + 1][..i] == rules[..i] && picks[..i + 1][..i] == picks[..i];
  }

  /** When the first i rules give `before` and rule i turns it into `after`,
      the first i + 1 rules give `after`. */
  lemma StepTo(text: string, rules: seq<Rule>, picks: seq<nat -> nat>, i: nat, before: string, after: string)
    requires WellFormed(rules) && ValidPicks(rules, picks) && i < |rules|
    requires ApplyRules(text, rules[..i], picks[..i]) == before
    requires ApplyRule(before, rules[i], picks[i]) == after
    ensures ApplyRules(text, rules[..i + 1], picks[..i + 1]) == after
  {
    ApplyRulesStep(text, rules, picks, i);
  }

  /** Four rules take the text through the four intermediate results, in order. */
  lemma ApplyFourRules(text: string, rules: seq<Rule>, picks: seq<nat -> nat>, t1: string, t2: string, t3: string, t4: string)
    requires WellFormed(rules) && ValidPicks(rules, picks) && |rules| == 4
    requires ApplyRule(text, rules[0], picks[0]) == t1
    requires ApplyRule(t1, rules[1], picks[1]) == t2
    requires ApplyRule(t2, rules[2], picks[2]) == t3
    requires ApplyRule(t3, rules[3], picks[3]) == t4
    ensures ApplyRules(text, rules, picks) == t4
  {
    assert rules[..0] == [] && picks[..0] == [];
    StepTo(text, rules, picks, 0, text, t1);
    StepTo(text, rules, picks, 1, t1, t2);
    StepTo(text, rules, picks, 2, t2, t3);
    StepTo(text, rules, picks, 3, t3, t4);
    assert rules[..4] == rules && picks[..4] == picks;
  }
}
