/**
 * The input sanitizer `cleanInput`: `(s || "").toString().trim().slice(0, 6000)`
 * followed by the deletion of every `<` and `>`. It is written identically in
 * both server entry points; the request field it is given is any JavaScript
 * value, so the values that can arrive are modelled first.
 */
module Sanitize {
  import opened JsString

  /** A JavaScript value as far as truthiness and string conversion go. For a
      number and an object the text its conversion yields is carried along
      (the formatting of floating-point numbers is not modelled); `falsy`
      marks the numbers 0, -0 and NaN. */
  datatype JsValue =
    | Undefined
    | Null
    | Bool(b: bool)
    | Str(s: string)
    | Num(falsy: bool, shown: string)
    | Obj(shown: string)

  /** ToBoolean: what `||`, `!` and `if` test. */
  predicate Truthy(v: JsValue) {
    match v
    case Undefined => false
    case Null => false
    case Bool(b) => b
    case Str(s) => s != ""
    case Num(falsy, _) => !falsy
    case Obj(_) => true
  }

  /** ToString, as `toString()` and a template literal `${v}` convert a value. */
  function Show(v: JsValue): string {
    match v
    case Undefined => "undefined"
    case Null => "null"
    case Bool(b) => if b then "true" else "false"
    case Str(s) => s
    case Num(_, shown) => shown
    case Obj(shown) => shown
  }

  /** `(v || fallback)` when the fallback is a string: the value itself when truthy. */
  function OrString(v: JsValue, fallback: string): string {
    if Truthy(v) then Show(v) else fallback
  }

  const MaxInputLength: nat := 6000

  predicate HasNoAngles(s: string) {
    forall i :: 0 <= i < |s| ==> s[i] != '<' && s[i] != '>'
  }

  /** `s.replace(/[<>]/g, "")`: every other code unit kept, in order. */
  function RemoveAngles(s: string): (r: string)
    ensures HasNoAngles(r) && |r| <= |s|
    ensures HasNoAngles(s) ==> r == s
  {
    if s == [] then []
    else (if s[0] == '<' || s[0] == '>' then [] else [s[0]]) + RemoveAngles(s[1..])
  }

  /** Deleting the brackets from a concatenation deletes them from each part. */
  lemma {:induction false} RemoveAnglesConcat(a: string, b: string)
    ensures RemoveAngles(a + b) == RemoveAngles(a) + RemoveAngles(b)
    decreases |a|
  {
    if a != [] {
      RemoveAnglesConcat(a[1..], b);
      assert (a + b)[1..] == a[1..] + b;
    } else {
      assert a + b == b;
    }
  }

  /** One code unit is deleted exactly when it is `<` or `>`; with
      RemoveAnglesConcat this fixes the result for every string. */
  lemma RemoveAnglesUnit(c: char)
    ensures RemoveAngles([c]) == if c == '<' || c == '>' then [] else [c]
  {
    assert [c][1..] == [];
  }

  /** cleanInput(v). */
  function CleanInput(v: JsValue): (r: string)
    ensures HasNoAngles(r)
    ensures |r| <= MaxInputLength
    ensures !Truthy(v) ==> r == ""
  {
    RemoveAngles(Prefix(Trim(OrString(v, "")), MaxInputLength))
  }

  /** Text that is already trimmed, short enough and free of angle brackets
      passes through unchanged. */
  lemma CleanInputKeepsCleanText(s: string)
    requires IsTrimmed(s) && |s| <= MaxInputLength && HasNoAngles(s)
    ensures CleanInput(Str(s)) == s
  {
  }

  /** Cleaning a cleaned value again changes nothing, provided the first
      result has no space at either end. */
  lemma CleanInputIdempotentWhenTrimmed(v: JsValue)
    requires IsTrimmed(CleanInput(v))
    ensures CleanInput(Str(CleanInput(v))) == CleanInput(v)
  {
    CleanInputKeepsCleanText(CleanInput(v));
  }

  lemma RemoveAnglesExample()
    ensures RemoveAngles("< a") == " a"
  {
    assert "< a"[1..] == " a";
    assert HasNoAngles(" a");
  }

  lemma TrimExample()
    ensures Trim(" a") == "a"
  {
    assert LeadingSpaces(" a") == 1 by {
      assert " a"[1..] == "a";
    }
    assert TrimStart(" a") == "a";
    assert TrailingSpaces("a") == 0;
  }

  lemma CleanBracketSpaceA()
    ensures CleanInput(Str("< a")) == " a"
  {
    assert Trim("< a") == "< a" by {
      assert IsTrimmed("< a");
    }
    assert Prefix("< a", MaxInputLength) == "< a";
    RemoveAnglesExample();
  }

  lemma CleanSpaceA()
    ensures CleanInput(Str(" a")) == "a"
  {
    TrimExample();
    assert Prefix("a", MaxInputLength) == "a";
    assert HasNoAngles("a");
  }

  /** Cleaning is not idempotent in general: deleting `<` can leave a space
      at the front, which only a second pass trims away. */
  lemma CleanInputNotIdempotent()
    ensures CleanInput(Str("< a")) == " a"
    ensures CleanInput(Str(CleanInput(Str("< a")))) == "a"
  {
    CleanBracketSpaceA();
    CleanSpaceA();
  }
}
