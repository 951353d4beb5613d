/** What `validateSingle` and the rule-token predicates decide, stated token
    by token: the optional short cut, the first failing token, the `required`
    token, the length tokens and the mobile token. */
module RuleFacts {
  import opened Js
  import opened Patterns
  import opened Validator

  /** Where `sub` occurs, its first character stands in `s`. */
  lemma ContainsFirstChar(s: string, sub: string)
    requires |sub| >= 1
    ensures Contains(s, sub) ==> exists i | 0 <= i && i + |sub| <= |s| :: s[i] == sub[0]
  {
    if Contains(s, sub) {
      var i :| OccursAt(s, sub, i);
      assert s[i..i + |sub|][0] == s[i];
    }
  }

  /** The bound of a length token: the number its first run of digits denotes. */
  function TokenBound(t: string): nat
    requires FirstDigitRun(t).Some?
  {
    FirstDigitRunDigits(t);
    DigitsValue(FirstDigitRun(t).value)
  }

  /** The tokens pass together exactly when each passes on its own. */
  lemma {:induction false} EvalTokensAllPass(tokens: seq<string>, value: Value, isEmail: Value -> bool)
    ensures EvalTokens(tokens, value, isEmail) == Normal(true) <==>
      forall i | 0 <= i < |tokens| :: TokenVerdict(tokens[i], value, isEmail) == Normal(true)
  {
    if tokens != [] {
      EvalTokensAllPass(tokens[1..], value, isEmail);
      assert forall i | 0 < i < |tokens| :: tokens[i] == tokens[1..][i - 1];
    }
  }

  /** Otherwise the first token that does not pass decides the result. */
  lemma {:induction false} EvalTokensFirstFailure(tokens: seq<string>, value: Value, isEmail: Value -> bool)
    requires EvalTokens(tokens, value, isEmail) != Normal(true)
    ensures exists i | 0 <= i < |tokens| ::
      && EvalTokens(tokens, value, isEmail) == TokenVerdict(tokens[i], value, isEmail)
      && forall j | 0 <= j < i :: TokenVerdict(tokens[j], value, isEmail) == Normal(true)
  {
    if TokenVerdict(tokens[0], value, isEmail) == Normal(true) {
      EvalTokensFirstFailure(tokens[1..], value, isEmail);
      var i :| 0 <= i < |tokens[1..]|
               && EvalTokens(tokens[1..], value, isEmail) == TokenVerdict(tokens[1..][i], value, isEmail)
               && forall j | 0 <= j < i :: TokenVerdict(tokens[1..][j], value, isEmail) == Normal(true);
      assert tokens[i + 1] == tokens[1..][i];
      forall j | 0 <= j < i + 1 ensures TokenVerdict(tokens[j], value, isEmail) == Normal(true) {
        if j > 0 { assert tokens[j] == tokens[1..][j - 1]; }
      }
    } else {
      assert EvalTokens(tokens, value, isEmail) == TokenVerdict(tokens[0], value, isEmail);
    }
  }

  /** An empty value passes every rule string none of whose tokens is `required`. */
  lemma OptionalEmptyPasses(tokens: seq<string>, value: Value, isEmail: Value -> bool)
    requires |tokens| >= 1 && forall t <- tokens :: '|' !in t && t != "required"
    requires Falsy(value)
    ensures SingleSpec(Some(Join(tokens, '|')), value, isEmail) == Normal(true)
  {
    SplitJoin(tokens, '|');
  }

  /** The `required` token accepts exactly the values 0 and "0". */
  lemma RequiredToken(value: Value, isEmail: Value -> bool)
    ensures TokenVerdict("required", value, isEmail) == Normal(value == Num(0) || value == Str("0"))
  {
    ContainsFirstChar("required", "length");
    IndexOfFound("required", "length");
  }

  /** A rule string with a `required` token never passes a value other than
      0 or "0": the `required` token fails it unless an earlier token throws
      or fails first. */
  lemma RequiredRejects(ruleStr: Option<string>, value: Value, isEmail: Value -> bool)
    requires "required" in Tokens(ruleStr)
    requires value != Num(0) && value != Str("0")
    ensures SingleSpec(ruleStr, value, isEmail) != Normal(true)
  {
    var tokens := Tokens(ruleStr);
    EvalTokensAllPass(tokens, value, isEmail);
    var i :| 0 <= i < |tokens| && tokens[i] == "required";
    RequiredToken(value, isEmail);
  }

  /** With `required` as the first token, every value but 0 and "0" fails. */
  lemma RequiredFirstFails(ruleStr: Option<string>, value: Value, isEmail: Value -> bool)
    requires Tokens(ruleStr)[0] == "required"
    requires value != Num(0) && value != Str("0")
    ensures SingleSpec(ruleStr, value, isEmail) == Normal(false)
  {
    RequiredToken(value, isEmail);
  }

  /** The default rule (no descriptor at all) is `required`. */
  lemma DefaultRuleIsRequired(value: Value, isEmail: Value -> bool)
    ensures SingleSpec(None, value, isEmail) == Normal(value == Num(0) || value == Str("0"))
  {
    RequiredToken(value, isEmail);
  }

  /** The `email` token defers to the address check, whatever the value. */
  lemma EmailToken(value: Value, isEmail: Value -> bool)
    ensures TokenVerdict("email", value, isEmail) == Normal(isEmail(value))
  {
  }

  /** The `mobile` token accepts exactly the values whose string form is a
      `1` followed by ten digits. */
  lemma MobileToken(value: Value, isEmail: Value -> bool)
    ensures TokenVerdict("mobile", value, isEmail) == Normal(MobileMatch(ToJsString(value)))
  {
    LengthTokenNotNamed("mobile");
    IndexOfFound("mobile", "length");
  }

  /** A token the validator does not know passes every value. */
  lemma UnknownTokenPasses(t: string, value: Value, isEmail: Value -> bool)
    requires t != "required" && t != "email" && t != "mobile" && !Contains(t, "length")
    ensures TokenVerdict(t, value, isEmail) == Normal(true)
  {
    IndexOfFound(t, "length");
  }

  /** A length token is never one of the named tokens. */
  lemma LengthTokenNotNamed(t: string)
    ensures Contains(t, "length") ==> t != "required" && t != "email" && t != "mobile"
  {
    ContainsFirstChar("required", "length");
    ContainsFirstChar("mobile", "length");
  }

  /** A length token that does not have the shape `name[argument]` fails. */
  lemma LengthTokenMalformed(t: string, value: Value, isEmail: Value -> bool)
    requires Contains(t, "length") && !RuleMatch(t)
    ensures TokenVerdict(t, value, isEmail) == Normal(false)
  {
    LengthTokenNotNamed(t);
    IndexOfFound(t, "length");
  }

  /** A well-shaped length token without any digit throws a TypeError. */
  lemma LengthTokenWithoutDigit(t: string, value: Value, isEmail: Value -> bool)
    requires Contains(t, "length") && RuleMatch(t) && !HasDigit(t)
    ensures TokenVerdict(t, value, isEmail) == Throw(TypeError)
  {
    LengthTokenNotNamed(t);
    IndexOfFound(t, "length");
    var at := FirstDigitRunMeaning(t);
  }

  /** A well-shaped length token bounds the length of a string from below
      when it mentions `min` and from above when it mentions `max`. */
  lemma LengthTokenOnString(t: string, s: string, isEmail: Value -> bool)
    requires Contains(t, "length") && RuleMatch(t) && FirstDigitRun(t).Some?
    ensures TokenVerdict(t, Str(s), isEmail) ==
      Normal((Contains(t, "min") ==> |s| >= TokenBound(t)) && (Contains(t, "max") ==> |s| <= TokenBound(t)))
  {
    LengthTokenNotNamed(t);
    IndexOfFound(t, "length");
    IndexOfFound(t, "min");
    IndexOfFound(t, "max");
    var at := FirstDigitRunMeaning(t);
  }

  /** A number or a boolean has no length, and no comparison with a missing
      length fails, so every well-shaped length token with digits passes it. */
  lemma LengthTokenOnNonString(t: string, value: Value, isEmail: Value -> bool)
    requires Contains(t, "length") && RuleMatch(t) && FirstDigitRun(t).Some?
    requires value.Num? || value.Bool?
    ensures TokenVerdict(t, value, isEmail) == Normal(true)
  {
    LengthTokenNotNamed(t);
    IndexOfFound(t, "length");
    var at := FirstDigitRunMeaning(t);
  }

  /** Reading the length of null or undefined throws a TypeError as soon as
      the token mentions `min` or `max`. */
  lemma LengthTokenOnNothing(t: string, value: Value, isEmail: Value -> bool)
    requires Contains(t, "length") && RuleMatch(t) && FirstDigitRun(t).Some?
    requires value == Null || value == Undefined
    ensures TokenVerdict(t, value, isEmail) ==
      if Contains(t, "min") || Contains(t, "max") then Throw(TypeError) else Normal(true)
  {
    LengthTokenNotNamed(t);
    IndexOfFound(t, "length");
    IndexOfFound(t, "min");
    IndexOfFound(t, "max");
    var at := FirstDigitRunMeaning(t);
  }

  /** A number passes the `mobile` token exactly when it lies between
      10000000000 and 19999999999, since the pattern reads its numeral. */
  lemma MobileNumberToken(n: int, isEmail: Value -> bool)
    ensures TokenVerdict("mobile", Num(n), isEmail) == Normal(Pow10(10) <= n < 2 * Pow10(10))
  {
    MobileToken(Num(n), isEmail);
    MobileNumber(n);
  }

  /** The length token `name[n]`, its bound written as the numeral of `n`. */
  function LengthToken(name: string, n: nat): string {
    name + "[" + NatToDecimal(n) + "]"
  }

  /** A length token `name[n]` whose name holds no digit matches `ruleRegex`
      and has the bound `n`. */
  lemma LengthTokenBound(name: string, n: nat)
    requires |name| >= 1 && Contains(name, "length") && !HasDigit(name) && NoLineTerminator(name)
    ensures var t := LengthToken(name, n);
      Contains(t, "length") && RuleMatch(t) && FirstDigitRun(t).Some? && TokenBound(t) == n
  {
    var N := NatToDecimal(n);
    var t := LengthToken(name, n);
    var i :| OccursAt(name, "length", i);
    assert t[i..i + 6] == name[i..i + 6];
    assert OccursAt(t, "length", i);
    DigitsNoLineTerminator(N);
    RuleMatchCompose(name, N);
    assert !HasDigit(name + "[") by {
      forall j | 0 <= j < |name + "["| ensures !IsDigit((name + "[")[j]) {
        if j < |name| { assert (name + "[")[j] == name[j]; }
      }
    }
    assert t == (name + "[") + (N + "]");
    FirstDigitRunSkip(name + "[", N + "]");
    DigitsOnlyMeaning(N);
    assert (N + "]")[0] == N[0];
    DigitPrefixNumeral(N, "]");
    DecimalRoundTrip(n);
  }

  /** A length token `name[n]` whose name starts with `min` or `max` and
      holds no other `m` bounds the length from below or from above. */
  lemma NamedLengthToken(name: string, n: nat, s: string, isEmail: Value -> bool)
    requires |name| >= 3 && Contains(name, "length") && !HasDigit(name) && NoLineTerminator(name)
    requires forall j | 1 <= j < |name| :: name[j] != 'm'
    ensures name[..3] == "min" ==> TokenVerdict(LengthToken(name, n), Str(s), isEmail) == Normal(|s| >= n)
    ensures name[..3] == "max" ==> TokenVerdict(LengthToken(name, n), Str(s), isEmail) == Normal(|s| <= n)
  {
    var t := LengthToken(name, n);
    LengthTokenBound(name, n);
    LengthTokenOnString(t, s, isEmail);
    assert t[..3] == name[..3];
    assert OccursAt(t, name[..3], 0);
    if name[..3] == "min" {
      MentionsOnlyAtStart(t, name, n, "max");
    } else if name[..3] == "max" {
      MentionsOnlyAtStart(t, name, n, "min");
    }
  }

  /** `min-length[n]` accepts exactly the strings of at least `n` characters. */
  lemma MinLengthToken(n: nat, s: string, isEmail: Value -> bool)
    ensures TokenVerdict(LengthToken("min-length", n), Str(s), isEmail) == Normal(|s| >= n)
  {
    assert OccursAt("min-length", "length", 4);
    NamedLengthToken("min-length", n, s, isEmail);
  }

  /** `max-length[n]` accepts exactly the strings of at most `n` characters. */
  lemma MaxLengthToken(n: nat, s: string, isEmail: Value -> bool)
    ensures TokenVerdict(LengthToken("max-length", n), Str(s), isEmail) == Normal(|s| <= n)
  {
    assert OccursAt("max-length", "length", 4);
    NamedLengthToken("max-length", n, s, isEmail);
  }

  /** In `name[n]`, where `name` has its only `m` in front and does not start
      with `sub`, the three-letter `sub` starting with `m` does not occur. */
  lemma MentionsOnlyAtStart(t: string, name: string, n: nat, sub: string)
    requires t == LengthToken(name, n) && |name| >= 3 && |sub| == 3 && sub[0] == 'm'
    requires forall j | 1 <= j < |name| :: name[j] != 'm'
    requires name[..3] != sub
    ensures !Contains(t, sub)
  {
    var N := NatToDecimal(n);
    DigitsOnlyMeaning(N);
    ContainsFirstChar(t, sub);
    forall j | 1 <= j < |t| ensures t[j] != 'm' {
      if j < |name| {
        assert t[j] == name[j];
      } else if j > |name| && j < |t| - 1 {
        assert t[j] == N[j - |name| - 1];
      }
    }
    assert t[..3] == name[..3];
  }

  /** `min-length[3]` against strings of two and three characters. */
  lemma MinLengthExample(isEmail: Value -> bool)
    ensures TokenVerdict("min-length[3]", Str("ab"), isEmail) == Normal(false)
    ensures TokenVerdict("min-length[3]", Str("abc"), isEmail) == Normal(true)
  {
    assert LengthToken("min-length", 3) == "min-length[3]";
    MinLengthToken(3, "ab", isEmail);
    MinLengthToken(3, "abc", isEmail);
  }

  /** `max-length[5]` against strings of six and five characters. */
  lemma MaxLengthExample(isEmail: Value -> bool)
    ensures TokenVerdict("max-length[5]", Str("abcdef"), isEmail) == Normal(false)
    ensures TokenVerdict("max-length[5]", Str("abcde"), isEmail) == Normal(true)
  {
    assert LengthToken("max-length", 5) == "max-length[5]";
    MaxLengthToken(5, "abcdef", isEmail);
    MaxLengthToken(5, "abcde", isEmail);
  }
}
