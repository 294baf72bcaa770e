/**
 * The serverless rewrite endpoint: its four-rule addHumanTexture and its
 * request handler. The handler refuses any method but POST, requires the
 * raw body fields `text`, `anecdote1` and `anecdote2` to be truthy, hands a
 * prompt built from the fields to the completion service and post-processes
 * the answer. The completion service is a parameter: it maps the fields the
 * prompt is built from to what the call produced (a thrown error, or the
 * first choice's message content).
 */
module Rewrite {
  import opened JsString
  import opened WordMatch
  import opened Variations
  import opened Sanitize

  const RewriteRules: seq<Rule> := [
    Rule("However", ["That said", "But", "On the flip side", "Though"]),
    Rule("Moreover", ["Also", "Plus", "And yeah", "What's more"]),
    Rule("in order to", ["to", "so I can", "just to"]),
    Rule("It is important to", ["You should", "It's key to", "I'd say it's worth"])
  ]

  /** addHumanTexture: the four rules in order. */
  method AddHumanTexture(text: string, picks: seq<nat -> nat>) returns (result: string)
    requires ValidPicks(RewriteRules, picks)
    ensures result == ApplyRules(text, RewriteRules, picks)
  {
    result := ApplyAll(text, RewriteRules, picks);
  }

  /** Text without a whole-word `However`, `Moreover`, `in order to` or
      `It is important to` is returned unchanged. */
  lemma NoPhraseKept(text: string, picks: seq<nat -> nat>)
    requires ValidPicks(RewriteRules, picks)
    requires forall x :: 0 <= x <= |text| ==>
      !WholeWordAt(text, "However", x) && !WholeWordAt(text, "Moreover", x)
      && !WholeWordAt(text, "in order to", x) && !WholeWordAt(text, "It is important to", x)
    ensures ApplyRules(text, RewriteRules, picks) == text
  {
    forall j, x | 0 <= j < |RewriteRules| && 0 <= x <= |text|
      ensures !WholeWordAt(text, RewriteRules[j].phrase, x)
    {
    }
    NoPhraseUnchanged(text, RewriteRules, picks);
  }

  datatype Option<T> = None | Some(value: T)

  /** The fields the handler destructures from the request body. */
  datatype Body = Body(text: JsValue, anecdote1: JsValue, anecdote2: JsValue, extraDetail: JsValue, toneHint: JsValue)

  /** The request: its method, and its body (None when it is undefined or
      null, so that destructuring it throws). */
  datatype Request = Request(httpMethod: string, body: Option<Body>)

  /** What the prompt template interpolates. */
  datatype Prompt = Prompt(text: string, anecdote1: string, anecdote2: string, tone: string, extra: string)

  /** What the completion call produced: it threw, or the first choice's
      message content (Undefined when a link of the optional chain is missing). */
  datatype Completion = Threw | Content(content: JsValue)

  datatype Response =
    | MethodNotAllowed
    | BadRequest
    | Failed
    | Rewritten(rewritten: string, suggestions: seq<string>, disclosure: string)

  function Status(r: Response): nat {
    match r
    case MethodNotAllowed => 405
    case BadRequest => 400
    case Failed => 500
    case Rewritten(_, _, _) => 200
  }

  const DefaultTone: string := "friendly, conversational"

  const Suggestions: seq<string> := [
    "Add a personal opinion on one key point.",
    "Insert a real-life example from your experience.",
    "Vary sentence starters for better flow.",
    "Include a question or rhetorical aside.",
    "Check and adjust any awkward phrasing manually."
  ]

  const Disclosure: string :=
    "This text was refined with an automated assistant. Manually review and add your own edits for authenticity."

  /** The template's interpolations: the raw fields as strings, the tone hint
      or its default, the extra detail or nothing. */
  function PromptOf(b: Body): Prompt {
    Prompt(Show(b.text), Show(b.anecdote1), Show(b.anecdote2), OrString(b.toneHint, DefaultTone), OrString(b.extraDetail, ""))
  }

  /** The validation: all three required raw fields are truthy. */
  predicate HasRequiredFields(b: Body) {
    Truthy(b.text) && Truthy(b.anecdote1) && Truthy(b.anecdote2)
  }

  /** `(c || "")` has a `trim` method: c is a string, or falsy so that "" takes its place. */
  predicate Trims(c: JsValue) {
    c.Str? || !Truthy(c)
  }

  /** handler(req, res): the response it sends. */
  function Handler(req: Request, complete: Prompt -> Completion, picks: seq<nat -> nat>): (r: Response)
    requires ValidPicks(RewriteRules, picks)
    ensures req.httpMethod != "POST" <==> r == MethodNotAllowed
    ensures Status(r) == 200 ==> r.suggestions == Suggestions && r.disclosure == Disclosure
    ensures r == BadRequest <==> req.httpMethod == "POST" && req.body.Some? && !HasRequiredFields(req.body.value)
    ensures Status(r) == 200 <==>
      req.httpMethod == "POST" && req.body.Some? && HasRequiredFields(req.body.value)
      && complete(PromptOf(req.body.value)).Content? && Trims(complete(PromptOf(req.body.value)).content)
  {
    if req.httpMethod != "POST" then MethodNotAllowed
    else if req.body.None? then Failed
    else
      var b := req.body.value;
      if !HasRequiredFields(b) then BadRequest
      else
        match complete(PromptOf(b))
        case Threw => Failed
        case Content(c) =>
          // `(c || "").trim()` throws a TypeError for a truthy value that is
          // not a string: booleans, numbers and objects have no `trim`.
          if !Trims(c) then Failed
          else Rewritten(ApplyRules(Trim(OrString(c, "")), RewriteRules, picks), Suggestions, Disclosure)
  }

  /** A method other than POST is refused whatever the body and whatever the
      completion service would do. */
  lemma NonPostRefused(req: Request, other: Option<Body>, c1: Prompt -> Completion, c2: Prompt -> Completion, picks: seq<nat -> nat>)
    requires ValidPicks(RewriteRules, picks)
    requires req.httpMethod != "POST"
    ensures Handler(req, c1, picks) == Handler(Request(req.httpMethod, other), c2, picks) == MethodNotAllowed
    ensures Status(Handler(req, c1, picks)) == 405
  {
  }

  /** A falsy required field gives 400 before the completion service is
      consulted: the response is the same whatever the service would answer. */
  lemma MissingFieldRefused(req: Request, c1: Prompt -> Completion, c2: Prompt -> Completion, picks: seq<nat -> nat>)
    requires ValidPicks(RewriteRules, picks)
    requires req.httpMethod == "POST" && req.body.Some?
    requires !Truthy(req.body.value.text) || !Truthy(req.body.value.anecdote1) || !Truthy(req.body.value.anecdote2)
    ensures Handler(req, c1, picks) == Handler(req, c2, picks) == BadRequest
    ensures Status(Handler(req, c1, picks)) == 400
  {
  }

  /** On success the answer is the trimmed content with the four rules
      applied, with the fixed five suggestions and the disclosure. */
  lemma SuccessShape(req: Request, complete: Prompt -> Completion, picks: seq<nat -> nat>)
    requires ValidPicks(RewriteRules, picks)
    requires req.httpMethod == "POST" && req.body.Some? && HasRequiredFields(req.body.value)
    requires complete(PromptOf(req.body.value)).Content? && Trims(complete(PromptOf(req.body.value)).content)
    ensures var r := Handler(req, complete, picks);
      Status(r) == 200
      && r.rewritten == ApplyRules(Trim(OrString(complete(PromptOf(req.body.value)).content, "")), RewriteRules, picks)
      && |r.suggestions| == 5
  {
  }

  /** Truthy content that is not a string (`true`, a non-zero number, an
      object) makes the `trim` call throw, and the catch answers 500. */
  lemma NonStringContentFails(req: Request, complete: Prompt -> Completion, picks: seq<nat -> nat>)
    requires ValidPicks(RewriteRules, picks)
    requires req.httpMethod == "POST" && req.body.Some? && HasRequiredFields(req.body.value)
    requires complete(PromptOf(req.body.value)).Content? && !Trims(complete(PromptOf(req.body.value)).content)
    ensures Handler(req, complete, picks) == Failed && Status(Handler(req, complete, picks)) == 500
  {
  }

  /** Without a tone hint the prompt asks for the default tone. */
  lemma ToneDefault(b: Body)
    requires !Truthy(b.toneHint)
    ensures PromptOf(b).tone == "friendly, conversational"
  {
  }

  /** Without an extra detail the prompt's extra line is empty, and a
      given tone hint is used as it is. */
  lemma ExtraDefault(b: Body)
    requires !Truthy(b.extraDetail) && Truthy(b.toneHint)
    ensures PromptOf(b).extra == "" && PromptOf(b).tone == Show(b.toneHint)
  {
  }

  /** The handler validates the raw fields, not cleaned ones: a text of one
      space passes the check although cleaning would make it empty. */
  lemma RawFieldsValidated(complete: Prompt -> Completion, picks: seq<nat -> nat>)
    requires ValidPicks(RewriteRules, picks)
    ensures var b := Body(Str(" "), Str("a"), Str("b"), Undefined, Undefined);
      Handler(Request("POST", Some(b)), complete, picks) != BadRequest && CleanInput(b.text) == ""
  {
    var b := Body(Str(" "), Str("a"), Str("b"), Undefined, Undefined);
    assert HasRequiredFields(b);
    assert Trim(" ") == "" by {
      assert LeadingSpaces(" ") == 1 by {
        assert " "[1..] == "";
      }
    }
  }

  /** s is the text `It is important in order to`, given by its 27 code units
      (and the two capitals it lacks). */
  predicate IsChainText(s: string) {
    |s| == 27 && s[0] == 'I' && s[1] == 't' && s[2] == ' ' && s[3] == 'i' && s[4] == 's' && s[5] == ' ' && s[6] == 'i' && s[7] == 'm' && s[8] == 'p' && s[9] == 'o' && s[10] == 'r' && s[11] == 't' && s[12] == 'a' && s[13] == 'n' && s[14] == 't' && s[15] == ' ' && s[16] == 'i' && s[17] == 'n' && s[18] == ' ' && s[19] == 'o' && s[20] == 'r' && s[21] == 'd' && s[22] == 'e' && s[23] == 'r' && s[24] == ' ' && s[25] == 't' && s[26] == 'o'
    && 'H' !in s && 'M' !in s
  }

  lemma ChainTextFacts(s: string)
    requires s == "It is important in order to"
    ensures IsChainText(s)
  {
    assert s[0] == 'I';
    assert s[1] == 't';
    assert s[2] == ' ';
    assert s[3] == 'i';
    assert s[4] == 's';
    assert s[5] == ' ';
    assert s[6] == 'i';
    assert s[7] == 'm';
    assert s[8] == 'p';
    assert s[9] == 'o';
    assert s[10] == 'r';
    assert s[11] == 't';
    assert s[12] == 'a';
    assert s[13] == 'n';
    assert s[14] == 't';
    assert s[15] == ' ';
    assert s[16] == 'i';
    assert s[17] == 'n';
    assert s[18] == ' ';
    assert s[19] == 'o';
    assert s[20] == 'r';
    assert s[21] == 'd';
    assert s[22] == 'e';
    assert s[23] == 'r';
    assert s[24] == ' ';
    assert s[25] == 't';
    assert s[26] == 'o';
  }

  lemma NoneBeforeSixteen(s: string)
    requires IsChainText(s)
    ensures forall x :: 0 <= x < 16 ==> !WholeWordAt(s, "in order to", x)
  {
    forall x | 0 <= x < 16 ensures !WholeWordAt(s, "in order to", x) {
      if x == 3 || x == 6 {
        DiffersAt(s, "in order to", x, 1);
      } else {
        DiffersAt(s, "in order to", x, 0);
      }
    }
  }

  /** The text's only whole-word `in order to` is at index 16. */
  lemma InOrderToAtSixteen(s: string)
    requires IsChainText(s)
    ensures MatchesFrom(s, "in order to", 0) == [16]
  {
    NoneBeforeSixteen(s);
    MatchesSkip(s, "in order to", 0, 16);
    assert s[16..27] == "in order to";
    assert MatchesFrom(s, "in order to", 16) == [16];
  }

  lemma ChainFirstRules(s: string, pick: nat -> nat, j: nat)
    requires IsChainText(s) && j < 2
    requires forall k :: pick(k) < |RewriteRules[j].candidates|
    ensures ApplyRule(s, RewriteRules[j], pick) == s
  {
    AbsentFirstNotFound(s, RewriteRules[j].phrase, 0);
  }

  lemma ChainThirdRule(s: string, pick: nat -> nat)
    requires IsChainText(s)
    requires forall k :: pick(k) == 0
    ensures ApplyRule(s, RewriteRules[2], pick) == s[..16] + "to"
  {
    InOrderToAtSixteen(s);
    ReplaceOneMatch(s, "in order to", 16, (k: nat) => RewriteRules[2].candidates[pick(k)]);
  }

  lemma ChainPrefix(s: string)
    requires IsChainText(s)
    ensures s[..16] + "to" == "It is important to"
  {
  }

  lemma ChainFourthRule(t: string, pick: nat -> nat)
    requires t == "It is important to"
    requires forall k :: pick(k) == 0
    ensures ApplyRule(t, RewriteRules[3], pick) == "You should"
  {
    assert MatchesFrom(t, "It is important to", 0) == [0];
    ReplaceOneMatch(t, "It is important to", 0, (k: nat) => RewriteRules[3].candidates[pick(k)]);
  }

  /** A later rule matches what an earlier one wrote: with every draw 0,
      `It is important in order to` becomes `It is important to` under the
      third rule, which the fourth rule then turns into `You should`. */
  lemma RulesChain(s: string, picks: seq<nat -> nat>)
    requires IsChainText(s)
    requires ValidPicks(RewriteRules, picks)
    requires forall j, k :: 0 <= j < |picks| ==> picks[j](k) == 0
    ensures ApplyRules(s, RewriteRules, picks) == "You should"
  {
    var t := "It is important to";
    ChainFirstRules(s, picks[0], 0);
    ChainFirstRules(s, picks[1], 1);
    ChainThirdRule(s, picks[2]);
    ChainPrefix(s);
    ChainFourthRule(t, picks[3]);
    ApplyFourRules(s, RewriteRules, picks, s, s, t, "You should");
  }
}
