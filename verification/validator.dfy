/** The native rule-string validation engine: four rule-token predicates, the
    per-field evaluator `validateSingle` and the record validator `validate`. */
module Validator {
  import opened Js
  import opened Patterns

  /** The rule string `validateSingle` applies when it is given none. */
  const DefaultRule: string := "required"

  /** `_isRequired`. The emptiness test is kept as written: once the guard for
      0 and "0" has returned, `value !== 0` holds, so every other value counts
      as empty and the `required` token accepts only 0 and "0". */
  function IsRequired(rule: string, value: Value): (ok: bool)
    ensures ok <==> rule != "required" || value == Num(0) || value == Str("0")
  {
    if value == Num(0) || value == Str("0") then true
    else
      var isEmpty := value != Num(0) || Falsy(value) || value == Str("") || value == Undefined;
      !(rule == "required" && isEmpty)
  }

  /** `_isEmail`; the address syntax itself is the verdict of `isEmail`. */
  function IsEmail(rule: string, value: Value, isEmail: Value -> bool): bool {
    !(rule == "email" && !isEmail(value))
  }

  /** `String(value)`, the string that `RegExp.prototype.test` examines. A
      `Num` stands for a safe integer, whose string form is its plain decimal
      numeral (exponent notation starts only at 10^21). */
  function ToJsString(value: Value): string {
    match value
    case Str(s) => s
    case Num(n) => NumberToString(n)
    case Bool(b) => if b then "true" else "false"
    case Null => "null"
    case Undefined => "undefined"
  }

  /** `_isMobile`. */
  function IsMobile(rule: string, value: Value): bool {
    !(rule == "mobile" && !MobileMatch(ToJsString(value)))
  }

  /** `value.length`: the length of a string, `undefined` (None) for a number
      or a boolean, a TypeError for null and undefined. */
  function LengthOf(value: Value): Completion<Option<nat>> {
    match value
    case Str(s) => Normal(Some(|s|))
    case Num(_) => Normal(None)
    case Bool(_) => Normal(None)
    case Null => Throw(TypeError)
    case Undefined => Throw(TypeError)
  }

  /** `value.length > bound`, where a comparison with `undefined` is false. */
  function MaxCheck(rule: string, value: Value, bound: nat): Completion<bool> {
    if IndexOf(rule, "max") > -1 then
      match LengthOf(value)
      case Throw(e) => Throw(e)
      case Normal(len) => Normal(!(len.Some? && len.value > bound))
    else Normal(true)
  }

  /** `_isFixedLength`. A token that mentions `length` must match `ruleRegex`;
      its bound is the first run of digits anywhere in the token, and a token
      with no digit at all makes `exec` return null, on which `[0]` throws. */
  function IsFixedLength(rule: string, value: Value): Completion<bool> {
    if IndexOf(rule, "length") > -1 then
      if !RuleMatch(rule) then Normal(false)
      else
        match FirstDigitRun(rule)
        case None => Throw(TypeError)
        case Some(length) =>
          if !AllDigits(length) then Normal(false)
          else
            var bound := DigitsValue(length);
            if IndexOf(rule, "min") > -1 then
              match LengthOf(value)
              case Throw(e) => Throw(e)
              case Normal(len) =>
                if len.Some? && len.value < bound then Normal(false)
                else MaxCheck(rule, value, bound)
            else MaxCheck(rule, value, bound)
    else Normal(true)
  }

  /** One token against one value: `_isRequired && _isEmail && _isFixedLength
      && _isMobile`, evaluated left to right and stopping at the first false. */
  function TokenVerdict(rule: string, value: Value, isEmail: Value -> bool): Completion<bool> {
    if !IsRequired(rule, value) || !IsEmail(rule, value, isEmail) then Normal(false)
    else
      match IsFixedLength(rule, value)
      case Throw(e) => Throw(e)
      case Normal(ok) => Normal(ok && IsMobile(rule, value))
  }

  /** The tokens in order; the first token that fails or throws decides. */
  function EvalTokens(tokens: seq<string>, value: Value, isEmail: Value -> bool): Completion<bool> {
    if tokens == [] then Normal(true)
    else
      match TokenVerdict(tokens[0], value, isEmail)
      case Throw(e) => Throw(e)
      case Normal(ok) => if ok then EvalTokens(tokens[1..], value, isEmail) else Normal(false)
  }

  /** The tokens of a rule descriptor; an `undefined` one (None) stands for
      the default rule. */
  function Tokens(ruleStr: Option<string>): seq<string> {
    if ruleStr.Some? then Split(ruleStr.value, '|') else [DefaultRule]
  }

  /** The default rule string is a single token. */
  lemma DefaultTokens()
    ensures Split(DefaultRule, '|') == [DefaultRule]
  {
    SplitWhole(DefaultRule, '|');
  }

  /** What `validateSingle(ruleStr, value)` returns or throws. */
  function SingleSpec(ruleStr: Option<string>, value: Value, isEmail: Value -> bool): Completion<bool> {
    var tokens := Tokens(ruleStr);
    if Falsy(value) && "required" !in tokens then Normal(true)
    else EvalTokens(tokens, value, isEmail)
  }

  /** Evaluating the tokens from position `i` on looks at token `i` first. */
  lemma EvalTokensAt(tokens: seq<string>, i: nat, value: Value, isEmail: Value -> bool)
    requires i < |tokens|
    ensures EvalTokens(tokens[i..], value, isEmail) ==
      match TokenVerdict(tokens[i], value, isEmail)
      case Throw(e) => Throw(e)
      case Normal(ok) => if ok then EvalTokens(tokens[i + 1..], value, isEmail) else Normal(false)
  {
    assert tokens[i..][0] == tokens[i] && tokens[i..][1..] == tokens[i + 1..];
  }

  /** `validateSingle`: split the rule string on `|`, let an empty value
      through when no token is `required`, and otherwise check the tokens in
      turn, returning false at the first that fails. */
  method ValidateSingle(ruleStr: Option<string>, value: Value, isEmail: Value -> bool)
    returns (r: Completion<bool>)
    ensures r == SingleSpec(ruleStr, value, isEmail)
  {
    var rules := Tokens(ruleStr);
    var isEmpty := Falsy(value) || value == Str("") || value == Undefined;
    if isEmpty && "required" !in rules {
      return Normal(true);
    }
    for i := 0 to |rules|
      invariant EvalTokens(rules, value, isEmail) == EvalTokens(rules[i..], value, isEmail)
    {
      EvalTokensAt(rules, i, value, isEmail);
      var result := TokenVerdict(rules[i], value, isEmail);
      if result.Throw? {
        return Throw(result.error);
      }
      if !result.value {
        return Normal(false);
      }
    }
    assert rules[|rules|..] == [];
    return Normal(true);
  }

  /** The entry `validate` records for a failing field: its rule descriptor. */
  datatype ErrorEntry = ErrorEntry(rule: Option<string>)

  /** The object `validate` returns; the error map is under the key `error`. */
  datatype Response = Response(isPass: bool, errorCount: nat, error: Dict<ErrorEntry>)

  /** The totals `validate` starts from. */
  const Initial: Response := Response(true, 0, Dict([], map[]))

  /** `data[property]`, `undefined` when the record has no such field. */
  function FieldValue(data: map<string, Value>, property: string): Value {
    match Get(data, property)
    case Some(v) => v
    case None => Undefined
  }

  /** One field as `validate` meets it: its name, its rule descriptor and
      what `validateSingle` makes of its value. */
  datatype Outcome = Outcome(property: string, rule: Option<string>, verdict: Completion<bool>)

  /** The outcome of every field of `rules`, in key order. */
  function Outcomes(data: map<string, Value>, rules: Dict<Option<string>>, isEmail: Value -> bool)
    : (os: seq<Outcome>)
    requires forall k <- rules.keys :: k in rules.entries
    ensures |os| == |rules.keys|
  {
    seq(|rules.keys|, i requires 0 <= i < |rules.keys| =>
      var k := rules.keys[i];
      Outcome(k, rules.entries[k], SingleSpec(rules.entries[k], FieldValue(data, k), isEmail)))
  }

  /** The totals after `outcomes` have been counted in order starting from
      `acc`, or the first exception among them. */
  function Tally(outcomes: seq<Outcome>, acc: Response): Completion<Response> {
    if outcomes == [] then Normal(acc)
    else
      var o := outcomes[0];
      match o.verdict
      case Throw(e) => Throw(e)
      case Normal(ok) =>
        var next := if ok then acc
                    else Response(false, acc.errorCount + 1, acc.error.Put(o.property, ErrorEntry(o.rule)));
        Tally(outcomes[1..], next)
  }

  /** What `validate(data, rules)` returns or throws. */
  function ValidateSpec(data: map<string, Value>, rules: Dict<Option<string>>,
                        isEmail: Value -> bool): Completion<Response>
    requires forall k <- rules.keys :: k in rules.entries
  {
    Tally(Outcomes(data, rules, isEmail), Initial)
  }

  /** Counting from position `i` on looks at outcome `i` first. */
  lemma TallyAt(outcomes: seq<Outcome>, i: nat, acc: Response)
    requires i < |outcomes|
    ensures outcomes[i].verdict.Throw? ==> Tally(outcomes[i..], acc) == Throw(outcomes[i].verdict.error)
    ensures outcomes[i].verdict == Normal(true) ==> Tally(outcomes[i..], acc) == Tally(outcomes[i + 1..], acc)
    ensures outcomes[i].verdict == Normal(false) ==>
      Tally(outcomes[i..], acc) ==
      Tally(outcomes[i + 1..], Response(false, acc.errorCount + 1,
                                        acc.error.Put(outcomes[i].property, ErrorEntry(outcomes[i].rule))))
  {
    assert outcomes[i..][0] == outcomes[i] && outcomes[i..][1..] == outcomes[i + 1..];
  }

  /** `validate`: run `validateSingle` on every key of `rules` in key order,
      counting the failures and recording each failing field's rule. */
  method Validate(data: map<string, Value>, rules: Dict<Option<string>>, isEmail: Value -> bool)
    returns (r: Completion<Response>)
    requires forall k <- rules.keys :: k in rules.entries
    ensures r == ValidateSpec(data, rules, isEmail)
  {
    var isPass := true;
    var errorCount := 0;
    var error: Dict<ErrorEntry> := Dict([], map[]);
    ghost var outcomes := Outcomes(data, rules, isEmail);
    assert outcomes[0..] == outcomes;
    for i := 0 to |rules.keys|
      invariant ValidateSpec(data, rules, isEmail) == Tally(outcomes[i..], Response(isPass, errorCount, error))
    {
      var property := rules.keys[i];
      var passed := ValidateSingle(rules.entries[property], FieldValue(data, property), isEmail);
      assert outcomes[i] == Outcome(property, rules.entries[property], passed);
      TallyAt(outcomes, i, Response(isPass, errorCount, error));
      if passed.Throw? {
        return Throw(passed.error);
      }
      if !passed.value {
        isPass := false;
        errorCount := errorCount + 1;
        error := error.Put(property, ErrorEntry(rules.entries[property]));
      }
    }
    assert outcomes[|outcomes|..] == [];
    return Normal(Response(isPass, errorCount, error));
  }
}
