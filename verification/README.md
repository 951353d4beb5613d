# Declarative validator and `combineReducers`, modelled in Dafny

This project models two small JavaScript components.

**The declarative validator** (`declarative-validator/src/core/validator.js`):
- A rule descriptor is a string of `|`-separated tokens, for example
  `"min-length[3]|max-length[10]|required"`.
- `validateSingle(ruleStr, value)` splits the descriptor. It lets an empty
  value through when no token is `required`. Otherwise it checks the tokens
  one after another with four predicates:
  - `_isRequired`;
  - `_isEmail`;
  - `_isFixedLength`, for the `min-length[n]` / `max-length[n]` tokens;
  - `_isMobile`.
- `validate(data, rules)` runs `validateSingle` on each field named by the
  keys of `rules`, in key order. It returns `{isPass, errorCount, error}`,
  where `error` maps every failing field to `{rule: <its descriptor>}`.
- Four regular expressions are modelled as predicates and functions on
  strings:
  - `ruleRegex` is `RuleMatch`;
  - `numericRegex` is `AllDigits`;
  - `numericExtractRegex` is `FirstDigitRun`;
  - `mobileRegex` is `MobileMatch`.

**The `combineReducers` polyfill** (`js-polyfills/src/redux/combineReducers.js`):
- It rejects a non-object argument with `Error("Invalid Params")`.
- It keeps the keys whose values are functions, in key order.
- It returns `finalReducer(state = {}, action)`. That reducer builds a fresh
  state object, key by key, from what each reducer returns for its own
  slice. It throws `Error("Invalid Reducer")` when a reducer returns
  `undefined`.

JavaScript is modelled as follows:
- **Values.** A JavaScript value is a `Js.Value`: a string, an integer
  number, a boolean, `null` or `undefined`. Falsiness is `Js.Falsy`.
- **Exceptions.** An exception is a `Completion` of `Throw(TypeError)` or
  `Throw(Error(message))`. The model keeps the crash paths of the code:
  - a length token with no digit throws, because `exec` returns null and
    `[0]` is read from it;
  - the length of `null` or `undefined` is read, which throws;
  - `Object.keys(null)` throws.
- **Plain objects.** An object is a `Js.Dict`: its keys in insertion order
  plus a map.
- **The state object.** The object `finalReducer` fills in is the class
  `Reducers.StateTree`. Its `Assign` method updates the object in place.

The model follows the code where the code and its own comments part ways:
- **The `required` token.** `_isRequired` computes
  `isEmpty = value !== 0 || …`. Once its guard has returned for `0` and
  `"0"`, that is true for every other value. So the `required` token accepts
  only `0` and `"0"`, and rejects `"abc"` as well as `""`. This is kept as
  written: `Validator.IsRequired`, `RuleFacts.RequiredToken`.
- **The result key.** `validate` returns the error map under the key
  `error`.
- **Malformed length tokens.** A length token with brackets but no digit
  throws a `TypeError` instead of failing.
- **Missing values.** A `min-length`/`max-length` token applied to `null` or
  `undefined` also throws a `TypeError`. That value reaches the token only
  when the descriptor also holds `required`.

## Model

| member | source | states |
|---|---|---|
| Validator.IsRequired | examples/packages/declarative-validator/src/core/validator.js:31-43 | a token passes `_isRequired` iff it is not `required` or the value is 0 or "0" |
| RuleFacts.RequiredToken | examples/packages/declarative-validator/src/core/validator.js:31-43 | the whole `required` token verdict is `Normal(value == 0 \|\| value == "0")` |
| RuleFacts.EmailToken | examples/packages/declarative-validator/src/core/validator.js:51-57 | the `email` token's verdict is exactly the address check's answer |
| RuleFacts.UnknownTokenPasses | examples/packages/declarative-validator/src/core/validator.js:31-98 | a token that is none of `required`, `email`, `mobile` and does not mention `length` passes every value |
| Patterns.RuleMatchCompose | examples/packages/declarative-validator/src/core/validator.js:6 | every `name[arg]` with non-empty name and argument and no line terminator matches `ruleRegex` |
| Patterns.RuleMatchDecompose | examples/packages/declarative-validator/src/core/validator.js:6 | every match of `ruleRegex` is `name[arg]` with both parts non-empty, and the lazy name holds no `[` after its first character |
| Patterns.DigitsOnlyMeaning | examples/packages/declarative-validator/src/core/validator.js:7 | the `numericRegex` body holds iff every character is a digit |
| Patterns.FirstDigitRunMeaning | examples/packages/declarative-validator/src/core/validator.js:8 | `numericExtractRegex.exec` finds nothing iff there is no digit; otherwise the run starts at the first digit, is all digits and cannot be extended |
| Patterns.FirstDigitRunDigits | examples/packages/declarative-validator/src/core/validator.js:73-75 | the extracted run always passes `numericRegex`, so the check on line 75 never fails |
| Patterns.FirstDigitRunSkip | examples/packages/declarative-validator/src/core/validator.js:8 | characters that are not digits in front do not change the run found |
| Patterns.DigitPrefixMeaning | examples/packages/declarative-validator/src/core/validator.js:8 | the digit prefix is a prefix of the string, all digits, and maximal |
| Patterns.DigitPrefixNumeral | examples/packages/declarative-validator/src/core/validator.js:8 | a numeral followed by a non-digit is exactly the run found at its start |
| Patterns.MobileNumber | examples/packages/declarative-validator/src/core/validator.js:11 | an integer's numeral matches `mobileRegex` iff 10^10 <= n < 2·10^10 |
| Patterns.NumeralLeading | examples/packages/declarative-validator/src/core/validator.js:11 | the leading digit and length of a numeral determine the range of the number |
| Patterns.MobileRange | examples/packages/declarative-validator/src/core/validator.js:11 | every number in [10^10, 2·10^10) has an eleven-digit numeral starting with 1 |
| Patterns.DecimalRoundTrip | examples/packages/declarative-validator/src/core/validator.js:11 | reading back the decimal numeral of `n` (the form `test` converts a number to) gives `n` |
| Patterns.DigitsValueBelow | examples/packages/declarative-validator/src/core/validator.js:73-81 | a numeral of k digits denotes less than 10^k |
| Patterns.DigitsValueLeading | examples/packages/declarative-validator/src/core/validator.js:73-81 | a numeral's value is its leading digit times 10^(k-1) plus the value of the rest |
| Patterns.IndexOfMeaning | examples/packages/declarative-validator/src/core/validator.js:67 | `indexOf` is -1 iff `sub` does not occur, and otherwise the first position where it occurs |
| Patterns.IndexOfFound | examples/packages/declarative-validator/src/core/validator.js:67 | `indexOf(...) > -1` iff the substring occurs somewhere |
| Patterns.SplitPieces | examples/packages/declarative-validator/src/core/validator.js:155 | no piece of `split("\|")` contains the separator |
| Patterns.SplitWhole | examples/packages/declarative-validator/src/core/validator.js:151-155 | a string without the separator splits into itself alone (the default `"required"`) |
| Patterns.JoinSplit | examples/packages/declarative-validator/src/core/validator.js:155 | joining the pieces of a split with the separator gives back the string |
| Patterns.SplitJoin | examples/packages/declarative-validator/src/core/validator.js:155 | splitting the join of pieces without separators gives back the pieces |
| Validator.DefaultTokens | examples/packages/declarative-validator/src/core/validator.js:151-155 | the default rule string is the single token `required` |
| Validator.ValidateSingle | examples/packages/declarative-validator/src/core/validator.js:151-174 | the loop returns or throws exactly what the token-by-token specification `SingleSpec` gives |
| Validator.Validate | examples/packages/declarative-validator/src/core/validator.js:108-137 | the loop over the rule keys returns or throws exactly `ValidateSpec`, the fold of the field outcomes |
| Validator.Outcomes | examples/packages/declarative-validator/src/core/validator.js:121-123 | one outcome per rule key |
| Patterns.RuleMatch | examples/packages/declarative-validator/src/core/validator.js:6 | definition of `ruleRegex.test`; characterised by `Patterns.RuleMatchCompose` and `Patterns.RuleMatchDecompose` |
| Patterns.DigitsOnly | examples/packages/declarative-validator/src/core/validator.js:7 | definition of the body of `numericRegex`; characterised by `Patterns.DigitsOnlyMeaning` |
| Patterns.AllDigits | examples/packages/declarative-validator/src/core/validator.js:7 | definition of `numericRegex.test` (one or more digits); characterised by `Patterns.DigitsOnlyMeaning` and `Patterns.FirstDigitRunDigits` |
| Patterns.FirstDigitRun | examples/packages/declarative-validator/src/core/validator.js:8 | definition of `numericExtractRegex.exec(...)`, `None` for null; characterised by `Patterns.FirstDigitRunMeaning` |
| Patterns.DigitPrefix | examples/packages/declarative-validator/src/core/validator.js:8 | the digit run found is no longer than the string; characterised by `Patterns.DigitPrefixMeaning` |
| Patterns.MobileMatch | examples/packages/declarative-validator/src/core/validator.js:11 | definition of `mobileRegex.test` on a string; characterised by `Patterns.MobileNumber` |
| Patterns.NatToDecimal | examples/packages/declarative-validator/src/core/validator.js:11 | the numeral of a natural number is all digits with no leading zero; `Patterns.DecimalRoundTrip` reads it back |
| Patterns.NumberToString | examples/packages/declarative-validator/src/core/validator.js:95 | definition of `String(n)` for an integer; characterised by `Patterns.DecimalRoundTrip` and `Patterns.MobileNumber` |
| Patterns.DigitsValue | examples/packages/declarative-validator/src/core/validator.js:77-80 | definition of the number a digit string denotes (the coercion in `value.length < length`); characterised by `Patterns.DigitsValueBelow`, `Patterns.DigitsValueLeading` and `Patterns.DecimalRoundTrip` |
| Patterns.IndexOf | examples/packages/declarative-validator/src/core/validator.js:67 | `indexOf` is -1 or more; characterised by `Patterns.IndexOfMeaning` and `Patterns.IndexOfFound` |
| Patterns.Split | examples/packages/declarative-validator/src/core/validator.js:155 | `split` yields at least one piece; characterised by `Patterns.SplitPieces`, `Patterns.JoinSplit` and `Patterns.SplitJoin` |
| Validator.IsEmail | examples/packages/declarative-validator/src/core/validator.js:51-57 | definition of `_isEmail`; characterised by `RuleFacts.EmailToken` |
| Validator.LengthOf | examples/packages/declarative-validator/src/core/validator.js:77-80 | definition of `value.length`: the length of a string, `undefined` for numbers and booleans, a TypeError for null and undefined; used by `RuleFacts.LengthTokenOnString`, `LengthTokenOnNonString` and `LengthTokenOnNothing` |
| Validator.MaxCheck | examples/packages/declarative-validator/src/core/validator.js:79-81 | definition of the `max` branch of `_isFixedLength`; characterised by `RuleFacts.LengthTokenOnString` and `RuleFacts.LengthTokenOnNothing` |
| Validator.IsFixedLength | examples/packages/declarative-validator/src/core/validator.js:65-84 | definition of `_isFixedLength`; characterised by `RuleFacts.LengthTokenMalformed`, `LengthTokenWithoutDigit`, `LengthTokenOnString`, `LengthTokenOnNonString`, `LengthTokenOnNothing` and `UnknownTokenPasses` |
| Validator.ToJsString | examples/packages/declarative-validator/src/core/validator.js:95 | definition of `String(value)` as `test` applies it; characterised by `RuleFacts.MobileToken` and `RuleFacts.MobileNumberToken` |
| Validator.IsMobile | examples/packages/declarative-validator/src/core/validator.js:92-98 | definition of `_isMobile`; characterised by `RuleFacts.MobileToken` and `RuleFacts.MobileNumberToken` |
| Validator.TokenVerdict | examples/packages/declarative-validator/src/core/validator.js:166-170 | definition of the `&&` chain of the four predicates for one token; characterised by `RuleFacts.RequiredToken`, `EmailToken`, `MobileToken`, `UnknownTokenPasses` and the `LengthToken…` lemmas |
| Validator.EvalTokens | examples/packages/declarative-validator/src/core/validator.js:164-173 | definition of the token loop; characterised by `RuleFacts.EvalTokensAllPass` and `RuleFacts.EvalTokensFirstFailure` |
| Validator.Tokens | examples/packages/declarative-validator/src/core/validator.js:151-155 | definition of the tokens of a descriptor, the default for `undefined`; justified by `Validator.DefaultTokens` |
| Validator.SingleSpec | examples/packages/declarative-validator/src/core/validator.js:151-174 | definition of what `validateSingle` returns or throws; characterised by `RuleFacts.OptionalEmptyPasses`, `RequiredRejects`, `RequiredFirstFails` and `DefaultRuleIsRequired`, and implemented by `Validator.ValidateSingle` |
| Validator.FieldValue | examples/packages/declarative-validator/src/core/validator.js:123 | definition of `data[property]`, `undefined` when absent; characterised by `ValidateFacts.ExtraFieldsIgnored` |
| Validator.Tally | examples/packages/declarative-validator/src/core/validator.js:117-130 | definition of the counting loop as a fold; characterised by `ValidateFacts.TallyCounts`, `TallyNormal`, `TallyEntries`, `TallyValid` and `TallyThrow` |
| Validator.ValidateSpec | examples/packages/declarative-validator/src/core/validator.js:108-137 | definition of what `validate` returns or throws; characterised by `ValidateFacts.ValidateCounts`, `ValidateErrorKeys`, `ValidateErrorRules`, `ValidateThrows` and `ValidateFirstThrow`, and implemented by `Validator.Validate` |
| RuleFacts.EvalTokensAllPass | examples/packages/declarative-validator/src/core/validator.js:164-173 | the tokens pass iff every token passes on its own |
| RuleFacts.EvalTokensFirstFailure | examples/packages/declarative-validator/src/core/validator.js:164-173 | otherwise the verdict is that of the first token that fails or throws, all earlier ones passing |
| RuleFacts.OptionalEmptyPasses | examples/packages/declarative-validator/src/core/validator.js:157-162 | an empty value passes any descriptor none of whose tokens is `required` |
| RuleFacts.RequiredRejects | examples/packages/declarative-validator/src/core/validator.js:31-43 | a descriptor holding `required` never passes a value other than 0 and "0" |
| RuleFacts.RequiredFirstFails | examples/packages/declarative-validator/src/core/validator.js:164-173 | with `required` first, every value except 0 and "0" fails, with no exception |
| RuleFacts.DefaultRuleIsRequired | examples/packages/declarative-validator/src/core/validator.js:151 | with no descriptor, `validateSingle` passes exactly 0 and "0" |
| RuleFacts.MobileToken | examples/packages/declarative-validator/src/core/validator.js:92-98 | the `mobile` token passes iff the value's string form is `1` followed by ten digits |
| RuleFacts.MobileNumberToken | examples/packages/declarative-validator/src/core/validator.js:92-98 | a number passes `mobile` iff it lies in [10^10, 2·10^10) |
| RuleFacts.LengthTokenNotNamed | examples/packages/declarative-validator/src/core/validator.js:65-98 | a token mentioning `length` is never `required`, `email` or `mobile` |
| RuleFacts.LengthTokenMalformed | examples/packages/declarative-validator/src/core/validator.js:67-71 | a length token that does not match `ruleRegex` fails every value |
| RuleFacts.LengthTokenWithoutDigit | examples/packages/declarative-validator/src/core/validator.js:73 | a well-shaped length token without a digit throws a TypeError for every value |
| RuleFacts.LengthTokenOnString | examples/packages/declarative-validator/src/core/validator.js:65-83 | on a string, a well-shaped length token checks length >= bound when it mentions `min` and length <= bound when it mentions `max`, and nothing else |
| RuleFacts.LengthTokenOnNonString | examples/packages/declarative-validator/src/core/validator.js:76-81 | a number or boolean has no length, so it passes every well-shaped length token |
| RuleFacts.LengthTokenOnNothing | examples/packages/declarative-validator/src/core/validator.js:76-81 | null or undefined throws a TypeError once the token mentions `min` or `max`, and passes otherwise |
| RuleFacts.LengthTokenBound | examples/packages/declarative-validator/src/core/validator.js:67-75 | `name[n]` with a name without digits matches `ruleRegex`, and its extracted bound is `n` |
| RuleFacts.NamedLengthToken | examples/packages/declarative-validator/src/core/validator.js:65-83 | `name[n]` for a name starting with `min` (resp. `max`) and holding no other `m` accepts a string iff its length >= n (resp. <= n) |
| RuleFacts.MinLengthToken | examples/packages/declarative-validator/src/core/validator.js:76-78 | `min-length[n]` accepts exactly the strings of at least n characters |
| RuleFacts.MaxLengthToken | examples/packages/declarative-validator/src/core/validator.js:79-81 | `max-length[n]` accepts exactly the strings of at most n characters |
| RuleFacts.MentionsOnlyAtStart | examples/packages/declarative-validator/src/core/validator.js:76-79 | `min-length[n]` never mentions `max` and `max-length[n]` never mentions `min` |
| RuleFacts.MinLengthExample | examples/packages/declarative-validator/src/core/validator.js:144 | `min-length[3]` fails "ab" and passes "abc" |
| RuleFacts.MaxLengthExample | examples/packages/declarative-validator/src/core/validator.js:145 | `max-length[5]` fails "abcdef" and passes "abcde" |
| ValidateFacts.FailedFieldsMeaning | examples/packages/declarative-validator/src/core/validator.js:121-130 | a field is listed as failed iff some outcome for it is `Normal(false)` |
| ValidateFacts.FailedFieldsInOrder | examples/packages/declarative-validator/src/core/validator.js:121-130 | the failed fields appear in key order |
| ValidateFacts.TallyCounts | examples/packages/declarative-validator/src/core/validator.js:117-130 | without exceptions, `isPass` is false iff something failed, and the count grows by the number of failures |
| ValidateFacts.TallyNormal | examples/packages/declarative-validator/src/core/validator.js:121-129 | without exceptions and for distinct fields, the error keys grow by the failed fields in order |
| ValidateFacts.TallyEntries | examples/packages/declarative-validator/src/core/validator.js:126-128 | earlier error entries are kept, and each failing field maps to `{rule}` |
| ValidateFacts.TallyValid | examples/packages/declarative-validator/src/core/validator.js:119-128 | the error object stays a well-formed object |
| ValidateFacts.TallyThrow | examples/packages/declarative-validator/src/core/validator.js:121-123 | the fold throws iff some outcome throws, and it throws the first one's exception |
| ValidateFacts.OutcomesFields | examples/packages/declarative-validator/src/core/validator.js:121-123 | the outcomes are the rule keys in order, each with its own descriptor and `validateSingle` verdict |
| ValidateFacts.OutcomesDistinct | examples/packages/declarative-validator/src/core/validator.js:121 | object keys are distinct, so the outcomes name distinct fields |
| ValidateFacts.ValidateCounts | examples/packages/declarative-validator/src/core/validator.js:117-136 | `errorCount` equals the number of error entries, `isPass` iff `errorCount == 0`, and the error keys are a subsequence of the rule keys |
| ValidateFacts.ValidateErrorKeys | examples/packages/declarative-validator/src/core/validator.js:121-129 | a key is in `error` iff it is a rule key whose `validateSingle` verdict is `false` |
| ValidateFacts.ValidateErrorRules | examples/packages/declarative-validator/src/core/validator.js:126-128 | each error entry records exactly that field's rule descriptor |
| ValidateFacts.ValidateThrows | examples/packages/declarative-validator/src/core/validator.js:121-123 | `validate` throws iff some field's `validateSingle` throws |
| ValidateFacts.ValidateFirstThrow | examples/packages/declarative-validator/src/core/validator.js:121-123 | the exception `validate` throws is that of the first field in key order whose `validateSingle` throws, every earlier field returning normally |
| ValidateFacts.ExtraFieldsIgnored | examples/packages/declarative-validator/src/core/validator.js:121-123 | data fields that have no rule do not affect the result |
| Reducers.CombineReducers | examples/packages/js-polyfills/src/redux/combineReducers.js:8-14 | definition of `combineReducers` up to the returned closure; characterised by `Reducers.CombineReducersResult` |
| Reducers.StateTree.Slice | examples/packages/js-polyfills/src/redux/combineReducers.js:29 | definition of `state[key]` on a state object |
| Reducers.Slices | examples/packages/js-polyfills/src/redux/combineReducers.js:17-29 | definition of the slices `state[key]` reads, empty for the default `{}`; used by `Reducers.MissingStateDefaults` |
| Reducers.Reduce | examples/packages/js-polyfills/src/redux/combineReducers.js:22-41 | definition of the reducer loop as a fold; characterised by `Reducers.ReduceNormal` and `Reducers.ReduceThrows` |
| Reducers.FinalSpec | examples/packages/js-polyfills/src/redux/combineReducers.js:17-44 | definition of what `finalReducer` returns or throws; characterised by `Reducers.FinalState`, `FinalThrows` and `MissingStateDefaults`, and implemented by `Reducers.FinalReducer` |
| Reducers.FunctionKeys | examples/packages/js-polyfills/src/redux/combineReducers.js:14 | every chosen key maps to a function |
| Reducers.FunctionKeysMeaning | examples/packages/js-polyfills/src/redux/combineReducers.js:14 | the chosen keys are a subsequence of the object's keys, and a key is chosen iff its value is a function |
| Reducers.CombineReducersResult | examples/packages/js-polyfills/src/redux/combineReducers.js:8-14 | non-objects throw `Error("Invalid Params")`, null throws a TypeError, and an object yields its function-valued keys in order, distinct, with the reducers themselves |
| Reducers.StateTree.Empty | examples/packages/js-polyfills/src/redux/combineReducers.js:19 | a fresh, empty state object |
| Reducers.StateTree.Assign | examples/packages/js-polyfills/src/redux/combineReducers.js:40 | the property is set in place and a new key is added at the end |
| Reducers.ReduceAt | examples/packages/js-polyfills/src/redux/combineReducers.js:22-41 | step `i` of the reduction looks at key `i` first |
| Reducers.FinalReducer | examples/packages/js-polyfills/src/redux/combineReducers.js:17-44 | the loop yields a fresh state object holding exactly the specification's result, or throws exactly its exception, and leaves the input state unchanged |
| Reducers.ReduceNormal | examples/packages/js-polyfills/src/redux/combineReducers.js:22-41 | on success, the keys are added in order and each holds what its reducer returned for its slice |
| Reducers.ReduceThrows | examples/packages/js-polyfills/src/redux/combineReducers.js:32-37 | the reduction throws iff some reducer returns `undefined`, and the exception is `Error("Invalid Reducer")` |
| Reducers.FinalState | examples/packages/js-polyfills/src/redux/combineReducers.js:17-43 | the next state has exactly the reducer keys, in order, each mapped to its reducer's result |
| Reducers.FinalThrows | examples/packages/js-polyfills/src/redux/combineReducers.js:17-37 | `finalReducer` throws iff the state is null with some reducer, or some reducer returns `undefined` |
| Reducers.MissingStateDefaults | examples/packages/js-polyfills/src/redux/combineReducers.js:17-32 | with no state, every reducer receives an `undefined` slice |
| Reducers.CombineThenReduce | examples/packages/js-polyfills/src/redux/combineReducers.js:8-44 | combining an object, then reducing, keeps exactly its function-valued keys, each mapped to its reducer's result |

## Left out

- The `isEmail` call (`validator/lib/isEmail`) is outside this repository. It is a parameter `isEmail: Value -> bool` of every validator member.
- `debug(...)` logging (validator.js:2, 152) is an I/O side effect with no bearing on results. It is omitted.
- The parameter `customMessage` of `validate` is never read by the code, so it is not modelled.
- `validateAsync` has an empty body.
- The other regular expressions (validator.js:9-10, 12-22) are not used by the modelled functions.
- Numbers are safe integers (`Num(n)` with |n| < 2^53), whose string form is the plain decimal numeral. Fractions, `NaN`, `Infinity`, `-0` and the exponent form of large numbers are not modelled.
- Objects, arrays and functions are not field values. This covers a rule descriptor given as an array (the Flow type allows `[]`) and an array value's `.length`.
- `data` and `rules` are objects, never `null` or `undefined`.
- Properties inherited through the prototype chain are not modelled. `data[property]` is an own field or `undefined`.
- Js.Dict.Put: a key named `__proto__` is stored like any other key. In JavaScript, `obj["__proto__"] = v` on a plain object goes through the inherited setter and creates no own key.
- ValidateFacts.ValidateCounts: for a `rules` object with an own key `__proto__` that fails (e.g. from `JSON.parse`), the source counts the error but `Object.keys(error)` omits it. The model, and so this lemma and ValidateFacts.ValidateErrorKeys, lists it.
- Reducers.FinalState: for a function-valued own key `__proto__`, the source's `nextState[key] = …` creates no own key. The model, and so this lemma, Reducers.CombineThenReduce and Reducers.MissingStateDefaults, lists it.
- String length is the number of Dafny characters. A character outside the Basic Multilingual Plane counts as one, not as two UTF-16 code units.
- `Object.keys` order is the insertion order of `Js.Dict`. The rule for keys that look like integer indices, which come first in ascending order, is not modelled.
- Validator.Validate: requires only that every rule key has an entry, not that keys are distinct. The facts that need distinct keys (ValidateFacts.ValidateCounts, ValidateErrorKeys, ValidateErrorRules) require `rules.Valid()`.
- Reducers are opaque values of a type `F`. A parameter `call` says what each returns. This leaves out:
  - reducers that throw;
  - reducers that have side effects;
  - reducers that read the `action` differently from one call to the next.
- Reducers.FinalReducer: the reducers object is captured when `combineReducers` is called. Later mutation of that object, which the closure would see, is not modelled.
- Reducers.FinalReducer: a primitive state other than `undefined` and `null` (a number or a string) is not modelled. `state[key]` on it would read a property of a wrapper object.
