# Text post-processing of the humanizer service

The service rewrites a user's text through an external completion service
and post-processes what comes back with a few deterministic string
transforms. This project models those transforms and the request gate of
the serverless endpoint, and proves properties of them:

- `cleanInput` (both entry points): coerce to a string, trim, keep at most
  6000 code units, delete every `<` and `>` (`Sanitize`).
- `splitLongSentences` (Express server): split at runs of white space that
  follow a period, break or cut every piece longer than 120 code units,
  join with single spaces (`Sentences`).
- `addImperfections` (Express server): a gated, per-entry typo table applied
  at whole-word occurrences (`Imperfections`).
- `addHumanTexture`: the ordered variation rules shared by both versions
  (`Variations`), the six-rule version with contractions and fillers of the
  Express server (`IndexTexture`) and the four-rule version of the endpoint
  (`Rewrite`).
- `handler` of the endpoint: 405 for anything but POST, 400 for a missing
  required field, otherwise the completion service, whose answer is
  trimmed and passed through the four rules (`Rewrite`).

Strings are `seq<char>`, one element per UTF-16 code unit, so lengths are
the lengths JavaScript reports for text in the Basic Multilingual Plane. The JavaScript string built-ins trim, `\s`,
split on a string, join and slice are modelled in `JsString`;
`lastIndexOf` (`Sentences.LastIndexOf`, `Sentences.JsLastIndexOf`) and the
regular-expression split `/(?<=\.)\s+/` (`Sentences.SplitSentences`) are
modelled in `Sentences`. Global whole-word replacement `s.replace(/\bP\b/g, f)` is
modelled in `WordMatch` the way ECMAScript's RegExp.prototype[Symbol.replace]
does it: all matches are collected first, each search resuming where the
previous match ended, and `\b` is evaluated on the original string with
ECMAScript's IsWordChar (ASCII letters, digits, `_`), case-sensitively.

Every `Math.random()` call is an explicit input: a threshold test
(`> 0.4`, `> 0.6`, `> 0.7`, `> 0.8`) is a `bool`, and
`Math.floor(Math.random() * n)` is a `nat` below `n`. Where the code draws
once per match or per piece, the draws are a function from the rank of the
match or the index of the piece. The completion service is a parameter of
`Rewrite.Handler`.

Three consequences of the code are worth stating:

- The endpoint validates the raw body fields and never calls `cleanInput`,
  so a text of white space only passes validation
  (`Rewrite.RawFieldsValidated`).
- The rules are case-sensitive: `It is important to` is replaced, lower-case
  `it is important to` is not.
- The endpoint trims the completion content with `(content || "").trim()`,
  so truthy content that is not a string (a boolean, a number, an object)
  throws a TypeError and the request fails with 500
  (`Rewrite.NonStringContentFails`).

## Model

| member | source | states |
|---|---|---|
| JsString.IsSpace | apiindex.js.js:71 | the code units `\s` matches and `trim` removes: ECMAScript WhiteSpace and LineTerminator |
| JsString.Trim | apiindex.js.js:85 | the result has no white space at either end, is no longer than the input and equals the input when that is already trimmed |
| JsString.TrimInfix | apiindex.js.js:85 | trim keeps one contiguous part of the input and removes only white space before and after it |
| JsString.TrimKeepsNonSpace | apiindex.js.js:75 | trim loses no code unit other than white space |
| JsString.Prefix | apiindex.js.js:85 | `slice(0, n)` is the first n code units of the string, or the whole string when it is shorter |
| JsString.Join | apiindex.js.js:44 | `join(sep)`: the parts in order with `sep` between neighbours (its partner is `JoinSplit`) |
| JsString.Split | apiindex.js.js:40 | splitting on a non-empty separator gives at least one piece |
| JsString.SplitPartsAvoidSep | apiindex.js.js:40 | the split cuts at every occurrence: no piece contains the separator, and the first piece is a prefix of the string |
| JsString.JoinSplit | apiindex.js.js:40-44 | joining the pieces of a split with the same separator gives the string back |
| WordMatch.IsBoundary | apiindex.js.js:61 | the assertion `\b`: exactly one side of the index is an ASCII word character, outside the string counting as non-word |
| WordMatch.WholeWordAt | apiindex.js.js:61 | `\bP\b` matches at i: P's code units start at i, with a boundary on both sides |
| WordMatch.MatchesFrom | apiindex.js.js:33 | the positions a global search finds are in increasing order, each match ending before the next one starts and inside the text |
| WordMatch.MatchesSound | apiindex.js.js:33 | every position found is a whole-word, case-sensitive occurrence of the phrase |
| WordMatch.MatchesLeftmost | apiindex.js.js:33 | no whole-word occurrence is missed: each lies at or inside the span of a match found |
| WordMatch.MatchesSkip | apiindex.js.js:33 | a stretch without occurrences does not change what the search finds after it |
| WordMatch.Replace | apiindex.js.js:33 | text without a whole-word occurrence of the phrase is returned unchanged |
| WordMatch.ReplaceIsScan | apiindex.js.js:33 | the replacement equals a one-pass scan that writes the replacement for the k-th match at it and copies every other code unit in order |
| WordMatch.ReplaceBySelf | apiindex.js.js:29 | replacing every match by the phrase itself changes nothing |
| WordMatch.ReplaceSingle | apirewrite.js:17 | with a single whole-word occurrence at m the result is the text before m, the replacement, and the text after the occurrence |
| WordMatch.ReplaceOneMatch | apirewrite.js:17 | when the search finds one match at m, only that span is replaced |
| WordMatch.ReplaceNotLonger | apiindex.js.js:36 | replacements no longer than the phrase never make the text longer |
| WordMatch.AbsentFirstNotFound | apiindex.js.js:33 | a phrase whose first code unit does not occur in the text is never found |
| WordMatch.DiffersAt | apiindex.js.js:33 | one differing code unit rules out an occurrence at that position |
| Sanitize.Truthy | apiindex.js.js:85 | ToBoolean, what `\|\|` and `!` test: false exactly for undefined, null, false, "", 0, -0 and NaN |
| Sanitize.Show | apiindex.js.js:85 | ToString, as `toString()` and a template interpolation convert a value (numbers and objects carry their given text) |
| Sanitize.RemoveAngles | apiindex.js.js:85 | the result has no `<` or `>`, is no longer than the input and equals it when it had none |
| Sanitize.RemoveAnglesConcat | apiindex.js.js:85 | deleting the brackets from a concatenation deletes them from each part: every other code unit is kept, in order |
| Sanitize.RemoveAnglesUnit | apiindex.js.js:85 | a single code unit is deleted exactly when it is `<` or `>` |
| Sanitize.CleanInput | apiindex.js.js:84-86 | the result has no `<` or `>`, has at most 6000 code units, and is empty for a falsy value; apirewrite.js:22-24 is the same function, character for character |
| Sanitize.CleanInputKeepsCleanText | apiindex.js.js:85 | a trimmed string of at most 6000 code units without angle brackets comes back unchanged |
| Sanitize.CleanInputIdempotentWhenTrimmed | apiindex.js.js:85 | cleaning twice equals cleaning once whenever the first result has no white space at its ends |
| Sanitize.CleanInputNotIdempotent | apiindex.js.js:85 | `< a` cleans to ` a`, which cleans again to `a`: cleaning is not idempotent in general |
| Sentences.FirstSplitPoint | apiindex.js.js:71 | the first position at or after the start where white space follows a period, with none before it |
| Sentences.SpaceRunEnd | apiindex.js.js:71 | the greedy `\s+` covers white space only and stops before a non-space or at the end |
| Sentences.SplitSentences | apiindex.js.js:71 | the split yields one more piece than removed runs |
| Sentences.SplitSentencesRebuild | apiindex.js.js:71 | putting the removed runs back between the pieces gives the text back |
| Sentences.SplitAfterPeriods | apiindex.js.js:71 | every removed run is non-empty white space and the piece before it ends with the period |
| Sentences.PiecesAreMaximal | apiindex.js.js:71 | no piece contains white space right after a period, and every later piece starts with a non-space |
| Sentences.LastIndexOf | apiindex.js.js:74 | the largest index at most the position holding the code unit, or -1 when there is none |
| Sentences.JsLastIndexOf | apiindex.js.js:74 | `lastIndexOf(",", 80)` on any string: -1 or an index at most 80 inside the string holding the comma, with no comma after it up to 80 |
| Sentences.FixPiece | apiindex.js.js:72-78 | the per-piece rule: kept up to 120 code units, else broken at the comma or cut to 90 and `...` (its contracts are the three lemmas below) |
| Sentences.SplitLongSentences | apiindex.js.js:69-81 | the fixed pieces of the split joined by single spaces (its partner is `NoLongPieceJustRejoins`) |
| Sentences.ShortPieceKept | apiindex.js.js:72-78 | a piece of at most 120 code units is left unchanged |
| Sentences.LongPieceTruncated | apiindex.js.js:73-76 | a long piece without a comma at an index in 21..80 becomes its first 90 code units and `...`, 93 code units in all |
| Sentences.LongPieceBroken | apiindex.js.js:74-75 | a long piece whose last comma up to index 80 is at mid > 20 becomes the text before it, `. ` and the trimmed rest; the comma turns into the period and nothing else non-space is lost |
| Sentences.NoLongPieceJustRejoins | apiindex.js.js:70-80 | when no piece is long the result is the pieces joined by single spaces |
| Variations.ApplyRule | apiindex.js.js:33 | one rule: every whole-word match of the phrase replaced by the candidate drawn for it (its partners are `PickSelfUnchanged` and `ApplyRuleSingle`) |
| Variations.ApplyRules | apiindex.js.js:31-34 | the rules applied in list order, the last on the result of the others (its partners are `ApplyAll` and `NoPhraseUnchanged`) |
| Variations.ApplyAll | apiindex.js.js:31-34 | the loop over the rules yields the rules applied in list order, each to the result of the ones before; apirewrite.js:15-18 is the same loop over its four rules |
| Variations.ApplyRulesStep | apirewrite.js:16-17 | one more rule runs on the result of the rules before it |
| Variations.StepTo | apirewrite.js:16-17 | when the first i rules give a text and rule i turns it into another, the first i + 1 rules give that other text |
| Variations.ApplyFourRules | apirewrite.js:15-18 | four rules take the text through the given intermediate results in order |
| Variations.NoPhraseUnchanged | apiindex.js.js:31-34 | text with none of the rules' phrases as a whole word comes back unchanged |
| Variations.PickSelfUnchanged | apiindex.js.js:29 | a rule whose draws always pick its own phrase leaves the text unchanged |
| Variations.ApplyRuleSingle | apiindex.js.js:33 | one whole-word occurrence of a rule's phrase is replaced by the drawn candidate and nothing else changes |
| IndexTexture.Contractions | apiindex.js.js:36 | `do not`, `is not`, `I am` contracted at whole words, in that order (its partners are the two lemmas below) |
| IndexTexture.ContractionsNotLonger | apiindex.js.js:36 | the contractions never make the text longer |
| IndexTexture.NoContractionUnchanged | apiindex.js.js:36 | text without whole-word `do not`, `is not`, `I am` is left unchanged by the contractions |
| IndexTexture.FillerPiece | apiindex.js.js:42 | one piece of the filler pass: the drawn filler, a space and the piece when the draw passes, else the piece |
| IndexTexture.Decorate | apiindex.js.js:41-43 | the filler pass keeps the number of pieces |
| IndexTexture.DecoratedPieces | apiindex.js.js:41-43 | each piece is kept or gets one of the four fillers and a space in front |
| IndexTexture.WithFillers | apiindex.js.js:38-45 | the filler step: the text when the draw fails, else its pieces between `. ` decorated and joined with `. ` again |
| IndexTexture.FillersOffUnchanged | apiindex.js.js:38-45 | without the filler branch, or with no filler drawn, the filler step returns the text unchanged |
| IndexTexture.AddFillers | apiindex.js.js:39-44 | overwriting the array slots in place yields the pieces decorated and joined with `. ` again |
| IndexTexture.HumanTexture | apiindex.js.js:21-47 | the six rules, then the contractions, then the filler step (its partners are `AddHumanTexture` and `PlainTextUnchanged`) |
| IndexTexture.AddHumanTexture | apiindex.js.js:22-47 | the result is the six rules in order, then the three contractions, then the filler step |
| IndexTexture.TheSwapCanKeep | apiindex.js.js:29 | drawing `the` for every match of the last rule leaves the text unchanged |
| IndexTexture.PlainTextUnchanged | apiindex.js.js:22-47 | text with no rule phrase and no contracted phrase, and no filler added, comes back unchanged |
| Imperfections.ApplyTypos | apiindex.js.js:59-64 | the selected table entries applied in table order, each on the result of those before it |
| Imperfections.Imperfect | apiindex.js.js:50-66 | the text when the first draw skips, else the selected entries applied (its partners are the lemmas below) |
| Imperfections.AddImperfections | apiindex.js.js:50-66 | the result is the skip decision or the selected table entries applied in table order |
| Imperfections.NoneSelectedUnchanged | apiindex.js.js:59-64 | with no entry selected the text is unchanged |
| Imperfections.SkippedUnchanged | apiindex.js.js:51-64 | when the gate skips, or no entry is selected, the text is returned unchanged |
| Imperfections.NoTableWordUnchanged | apiindex.js.js:59-64 | text without a whole-word occurrence of any table word is unchanged whatever is drawn |
| Imperfections.OnlyOneSelected | apiindex.js.js:59-64 | with exactly one entry selected the result is that entry's replacement alone |
| Imperfections.NotWordsOfTheTable | apiindex.js.js:52-61 | in `theme The` no table word occurs as a whole, case-sensitive word |
| Imperfections.ThemeTheUnchanged | apiindex.js.js:50-66 | `theme The` comes out unchanged whatever is drawn |
| Rewrite.AddHumanTexture | apirewrite.js:8-20 | the result is the four rules applied in list order |
| Rewrite.NoPhraseKept | apirewrite.js:8-20 | text without whole-word `However`, `Moreover`, `in order to`, `It is important to` comes back unchanged |
| Rewrite.InOrderToAtSixteen | apirewrite.js:12 | in `It is important in order to` the only whole-word `in order to` is at index 16 |
| Rewrite.RulesChain | apirewrite.js:12-18 | with every draw 0, `It is important in order to` becomes `You should`: the third rule writes `to`, which the fourth rule then matches |
| Rewrite.ChainTextFacts | apirewrite.js:12-13 | the literal `It is important in order to` has the code units the chain lemma assumes |
| Rewrite.PromptOf | apirewrite.js:41-43 | the template's interpolations: the raw fields as strings, the tone hint or `friendly, conversational`, the extra detail or nothing (its partners are `ToneDefault` and `ExtraDefault`) |
| Rewrite.HasRequiredFields | apirewrite.js:34 | the validation: the raw `text`, `anecdote1` and `anecdote2` are all truthy |
| Rewrite.Trims | apirewrite.js:59 | `(content \|\| "").trim()` has a string to trim: the content is a string, or falsy so that `""` takes its place |
| Rewrite.Handler | apirewrite.js:26-77 | 405 exactly for a method other than POST, 400 exactly for a POST whose body lacks a truthy text or anecdote, 200 exactly when the completion returned content that is a string or falsy, and on 200 the fixed suggestions and disclosure |
| Rewrite.NonPostRefused | apirewrite.js:27-29 | a method other than POST gets 405 whatever the body and whatever the completion service answers |
| Rewrite.MissingFieldRefused | apirewrite.js:34-36 | a falsy raw text or anecdote gets 400 whatever the completion service would answer |
| Rewrite.SuccessShape | apirewrite.js:59-72 | for string or falsy content the answer is 200 and the rewritten text is the trimmed content passed through the four rules, with five suggestions |
| Rewrite.NonStringContentFails | apirewrite.js:59-76 | truthy content that is not a string makes `trim` throw, and the answer is 500 |
| Rewrite.ExtraDefault | apirewrite.js:42-43 | without an extra detail the extra line is empty, and a given tone hint is used as it is |
| Rewrite.ToneDefault | apirewrite.js:42 | without a tone hint the prompt asks for `friendly, conversational` |
| Rewrite.RawFieldsValidated | apirewrite.js:32-36 | a text of one space passes validation although cleaning it would give the empty string |

## Left out

- The Express application, CORS and body parsing, and the `/rewrite` route of the Express server that calls these helpers: HTTP plumbing.
- The completion client, its API key, the model parameters, the prompt wording and the four completion calls of the Express server; the endpoint's call is the `complete` parameter of `Rewrite.Handler`, which receives the interpolated fields rather than the prompt text.
- `JSON.parse` of the suggestion answer in the Express server and its array fallback: a foreign parser over free-form output.
- `Math.random()` as a floating-point source and the probabilities of the decisions: the decisions are inputs.
- `async`/`await`, `console.error`, and the JSON bodies of the responses (error messages and `String(err)`): side effects and message text with no logic.
- Rewrite.Handler: a request body that is not an object (a string, say) is not modelled; the body is either an object with the five fields or absent (undefined or null), and an absent body gives 500 because destructuring it throws. Completion content that is an object with a `trim` method of its own (a `String` wrapper) is not modelled: every object counts as having none.
- Sanitize.Show: the string form of numbers and objects is carried as given text; number formatting is not modelled.
- JsString: a `char` is a Unicode scalar value, so lone surrogates and the two code units of a supplementary character cannot be represented; lengths are UTF-16 lengths only for text in the Basic Multilingual Plane.
- Rewrite.RulesChain: the example text is given by its code units (`IsChainText`, which `ChainTextFacts` shows of the literal) rather than as the literal itself, because the verifier unfolds the match search on a literal argument too eagerly.
