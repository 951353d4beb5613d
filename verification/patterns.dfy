/** The regular expressions of the validator (`ruleRegex`, `numericRegex`,
    `numericExtractRegex`, `mobileRegex`) and the built-in string operations it
    calls (`indexOf`, `split`, the conversion of a value to a string or a number). */
module Patterns {
  import opened Js

  predicate IsDigit(c: char) { '0' <= c <= '9' }

  /** The characters that `.` in a JavaScript regular expression does not match. */
  predicate IsLineTerminator(c: char) {
    c == '\n' || c == '\r' || c == '\U{2028}' || c == '\U{2029}'
  }

  predicate HasDigit(s: string) {
    exists i | 0 <= i < |s| :: IsDigit(s[i])
  }

  /** `sub` occurs in `s` starting at position `i`. */
  predicate OccursAt(s: string, sub: string, i: int) {
    0 <= i && i + |sub| <= |s| && s[i..i + |sub|] == sub
  }

  /** `sub` occurs somewhere in `s`. */
  ghost predicate Contains(s: string, sub: string) {
    exists i :: OccursAt(s, sub, i)
  }

  /** `s.indexOf(sub)`: the first position where `sub` occurs, or -1. */
  function IndexOf(s: string, sub: string): (r: int)
    ensures -1 <= r
    decreases |s|
  {
    if |s| < |sub| then -1
    else if s[..|sub|] == sub then 0
    else
      var r := IndexOf(s[1..], sub);
      if r == -1 then -1 else r + 1
  }

  /** `IndexOf` finds the first occurrence, and -1 means there is none. */
  lemma {:induction false} IndexOfMeaning(s: string, sub: string)
    ensures var r := IndexOf(s, sub);
      && (r == -1 || OccursAt(s, sub, r))
      && (r == -1 ==> forall i :: !OccursAt(s, sub, i))
      && (forall i | 0 <= i < r :: !OccursAt(s, sub, i))
    decreases |s|
  {
    if |s| >= |sub| && s[..|sub|] != sub {
      IndexOfMeaning(s[1..], sub);
      assert !OccursAt(s, sub, 0);
      forall i | 1 <= i ensures OccursAt(s, sub, i) <==> OccursAt(s[1..], sub, i - 1) {
        OccursShift(s, sub, i);
      }
    }
  }

  /** `s.indexOf(sub) > -1` holds exactly when `sub` occurs in `s`. */
  lemma IndexOfFound(s: string, sub: string)
    ensures IndexOf(s, sub) > -1 <==> Contains(s, sub)
  {
    IndexOfMeaning(s, sub);
  }

  lemma OccursShift(s: string, sub: string, i: int)
    requires |s| >= 1 && i >= 1
    ensures OccursAt(s, sub, i) <==> OccursAt(s[1..], sub, i - 1)
  {
    if i + |sub| <= |s| {
      assert s[1..][i - 1..i - 1 + |sub|] == s[i..i + |sub|];
    }
  }

  /** `s.split(sep)` for a one-character separator: the pieces between the
      separators, one more than there are separators. */
  function Split(s: string, sep: char): (parts: seq<string>)
    ensures |parts| >= 1
    decreases |s|
  {
    if s == [] then [""]
    else
      var rest := Split(s[1..], sep);
      if s[0] == sep then [""] + rest
      else [[s[0]] + rest[0]] + rest[1..]
  }

  /** No piece of `Split` contains the separator. */
  lemma {:induction false} SplitPieces(s: string, sep: char)
    ensures forall p <- Split(s, sep) :: sep !in p
    decreases |s|
  {
    if s != [] {
      SplitPieces(s[1..], sep);
    }
  }

  /** A string without the separator splits into itself alone. */
  lemma {:induction false} SplitWhole(s: string, sep: char)
    requires sep !in s
    ensures Split(s, sep) == [s]
    decreases |s|
  {
    if s != [] {
      SplitWhole(s[1..], sep);
      assert [s[0]] + s[1..] == s;
    }
  }

  /** `parts.join(sep)`, the inverse of `Split`. */
  function Join(parts: seq<string>, sep: char): string
    requires |parts| >= 1
  {
    if |parts| == 1 then parts[0] else parts[0] + [sep] + Join(parts[1..], sep)
  }

  lemma {:induction false} JoinSplit(s: string, sep: char)
    ensures Join(Split(s, sep), sep) == s
    decreases |s|
  {
    if s != [] {
      var rest := Split(s[1..], sep);
      JoinSplit(s[1..], sep);
      if s[0] != sep && |rest| > 1 {
        assert Split(s, sep)[1..] == rest[1..];
      }
    }
  }

  lemma {:induction false} SplitPrefix(p: string, t: string, sep: char)
    requires sep !in p
    ensures Split(p + t, sep) == [p + Split(t, sep)[0]] + Split(t, sep)[1..]
    decreases |p|
  {
    if p != [] {
      assert (p + t)[1..] == p[1..] + t;
      SplitPrefix(p[1..], t, sep);
      assert [p[0]] + (p[1..] + Split(t, sep)[0]) == p + Split(t, sep)[0];
    } else {
      assert p + t == t;
      assert p + Split(t, sep)[0] == Split(t, sep)[0];
      assert [Split(t, sep)[0]] + Split(t, sep)[1..] == Split(t, sep);
    }
  }

  lemma {:induction false} SplitJoin(parts: seq<string>, sep: char)
    requires |parts| >= 1
    requires forall p <- parts :: sep !in p
    ensures Split(Join(parts, sep), sep) == parts
    decreases |parts|
  {
    if |parts| == 1 {
      SplitPrefix(parts[0], "", sep);
      assert parts[0] + "" == parts[0];
    } else {
      var tail := [sep] + Join(parts[1..], sep);
      assert Join(parts, sep) == parts[0] + tail;
      SplitPrefix(parts[0], tail, sep);
      SplitJoin(parts[1..], sep);
      assert tail[1..] == Join(parts[1..], sep);
      assert Split(tail, sep) == [""] + parts[1..];
      assert parts[0] + "" == parts[0];
    }
  }

  /** `s` contains no character that `.` refuses to match. */
  predicate NoLineTerminator(s: string) {
    '\n' !in s && '\r' !in s && '\U{2028}' !in s && '\U{2029}' !in s
  }

  /** `ruleRegex.test(s)` for `/^(.+?)\[(.+)\]$/`: a non-empty name, an opening
      bracket, a non-empty argument and a closing bracket at the very end, with
      no line terminator anywhere. */
  predicate RuleMatch(s: string) {
    && 4 <= |s|
    && s[|s| - 1] == ']'
    && '[' in s[1..|s| - 2]
    && NoLineTerminator(s)
  }

  /** A string of the form `name[arg]`, with a non-empty name and argument
      and no line terminator, matches `ruleRegex`. */
  lemma RuleMatchCompose(name: string, arg: string)
    requires |name| >= 1 && |arg| >= 1 && NoLineTerminator(name) && NoLineTerminator(arg)
    ensures RuleMatch(name + "[" + arg + "]")
  {
    var s := name + "[" + arg + "]";
    assert s[|name|] == '[' && s[1..|s| - 2][|name| - 1] == '[';
    assert s == name + ("[" + arg + "]");
  }

  /** Every match of `ruleRegex` has the form `name[arg]` of `RuleMatchCompose`;
      the name given here is the shortest one, as the lazy `(.+?)` takes it. */
  lemma RuleMatchDecompose(s: string) returns (name: string, arg: string)
    requires RuleMatch(s)
    ensures |name| >= 1 && |arg| >= 1 && NoLineTerminator(name) && NoLineTerminator(arg)
    ensures s == name + "[" + arg + "]"
    ensures '[' !in name[1..]
  {
    var inner := s[1..|s| - 2];
    var m0 :| 0 <= m0 < |inner| && inner[m0] == '[';
    var j := FirstAt(inner, '[', m0);
    var p := j + 1;
    name := s[..p];
    arg := s[p + 1..|s| - 1];
    assert s == name + "[" + arg + "]" by {
      assert s == s[..p] + [s[p]] + s[p + 1..|s| - 1] + [s[|s| - 1]];
    }
    forall c | c in name ensures c in s { }
    forall c | c in arg ensures c in s { }
    forall m | 0 <= m < |name[1..]| ensures name[1..][m] != '[' {
      assert name[1..][m] == inner[m];
    }
  }

  /** The first position at or before `m` where `c` stands in `s`. */
  lemma {:induction false} FirstAt(s: string, c: char, m: int) returns (j: int)
    requires 0 <= m < |s| && s[m] == c
    ensures 0 <= j <= m && s[j] == c && forall k | 0 <= k < j :: s[k] != c
    decreases m
  {
    if exists k | 0 <= k < m :: s[k] == c {
      var k :| 0 <= k < m && s[k] == c;
      j := FirstAt(s, c, k);
    } else {
      j := m;
    }
  }

  /** Every character of `s` is a decimal digit. */
  predicate DigitsOnly(s: string) {
    s == [] || (IsDigit(s[|s| - 1]) && DigitsOnly(s[..|s| - 1]))
  }

  lemma {:induction false} DigitsOnlyMeaning(s: string)
    ensures DigitsOnly(s) <==> forall i | 0 <= i < |s| :: IsDigit(s[i])
  {
    if s != [] {
      var prefix := s[..|s| - 1];
      DigitsOnlyMeaning(prefix);
      assert forall i | 0 <= i < |prefix| :: prefix[i] == s[i];
    }
  }

  /** `numericRegex.test(s)` for `/^[0-9]+$/`. */
  predicate AllDigits(s: string) {
    |s| >= 1 && DigitsOnly(s)
  }

  /** `mobileRegex.test(s)` for `/^1\d{10}$/i`: a `1` and then exactly ten digits. */
  predicate MobileMatch(s: string) {
    |s| == 11 && s[0] == '1' && DigitsOnly(s[1..])
  }

  /** The longest prefix of `s` made of digits. */
  function DigitPrefix(s: string): (d: string)
    ensures |d| <= |s|
    decreases |s|
  {
    if s != [] && IsDigit(s[0]) then [s[0]] + DigitPrefix(s[1..]) else ""
  }

  /** `DigitPrefix` is a prefix of digits that cannot be extended. */
  lemma {:induction false} DigitPrefixMeaning(s: string)
    ensures var d := DigitPrefix(s);
      && d == s[..|d|]
      && (forall i | 0 <= i < |d| :: IsDigit(d[i]))
      && (|d| < |s| ==> !IsDigit(s[|d|]))
    decreases |s|
  {
    if s != [] && IsDigit(s[0]) {
      DigitPrefixMeaning(s[1..]);
      var d := DigitPrefix(s);
      assert d[1..] == DigitPrefix(s[1..]);
    }
  }

  /** `numericExtractRegex.exec(s)` for `/[0-9]+/`: the leftmost maximal run of
      digits, or `null` (None) when `s` has no digit. */
  function FirstDigitRun(s: string): Option<string>
    decreases |s|
  {
    if s == [] then None
    else if IsDigit(s[0]) then Some(DigitPrefix(s))
    else FirstDigitRun(s[1..])
  }

  /** What `FirstDigitRun` finds: nothing exactly when `s` has no digit;
      otherwise a run of digits that starts at the first digit of `s`, at
      position `at`, and cannot be extended. */
  lemma {:induction false} FirstDigitRunMeaning(s: string) returns (at: nat)
    ensures FirstDigitRun(s).None? <==> !HasDigit(s)
    ensures FirstDigitRun(s).Some? ==>
      var d := FirstDigitRun(s).value;
      && AllDigits(d)
      && (forall i | 0 <= i < |d| :: IsDigit(d[i]))
      && at + |d| <= |s| && s[at..at + |d|] == d
      && (forall i | 0 <= i < at :: !IsDigit(s[i]))
      && (at + |d| < |s| ==> !IsDigit(s[at + |d|]))
    decreases |s|
  {
    at := 0;
    if s == [] {
    } else if IsDigit(s[0]) {
      assert HasDigit(s);
      DigitPrefixMeaning(s);
      DigitsOnlyMeaning(DigitPrefix(s));
    } else {
      var k := FirstDigitRunMeaning(s[1..]);
      at := k + 1;
      assert HasDigit(s) <==> HasDigit(s[1..]) by {
        if HasDigit(s) {
          var i :| 0 <= i < |s| && IsDigit(s[i]);
          assert s[1..][i - 1] == s[i];
        }
        if HasDigit(s[1..]) {
          var i :| 0 <= i < |s[1..]| && IsDigit(s[1..][i]);
          assert s[i + 1] == s[1..][i];
        }
      }
      if FirstDigitRun(s).Some? {
        var d := FirstDigitRun(s).value;
        assert FirstDigitRun(s) == FirstDigitRun(s[1..]);
        forall j | 0 <= j < |d| ensures s[at + j] == d[j] {
          assert s[at + j] == s[1..][k + j];
        }
        assert s[at..at + |d|] == d;
        forall i | 0 <= i < at ensures !IsDigit(s[i]) {
          if i > 0 { assert s[i] == s[1..][i - 1]; }
        }
      }
    }
  }

  /** The run `FirstDigitRun` finds is made of digits. */
  lemma FirstDigitRunDigits(s: string)
    ensures FirstDigitRun(s).Some? ==> AllDigits(FirstDigitRun(s).value)
  {
    var at := FirstDigitRunMeaning(s);
  }

  /** Characters that are not digits in front of a string do not change
      which run of digits `numericExtractRegex` finds. */
  lemma {:induction false} FirstDigitRunSkip(p: string, s: string)
    requires !HasDigit(p)
    ensures FirstDigitRun(p + s) == FirstDigitRun(s)
    decreases |p|
  {
    if p != [] {
      assert !IsDigit(p[0]);
      assert !HasDigit(p[1..]) by {
        forall i | 0 <= i < |p[1..]| ensures !IsDigit(p[1..][i]) {
          assert p[1..][i] == p[i + 1];
        }
      }
      assert (p + s)[0] == p[0] && (p + s)[1..] == p[1..] + s;
      FirstDigitRunSkip(p[1..], s);
    } else {
      assert p + s == s;
    }
  }

  /** A numeral followed by a character that is not a digit is the run of
      digits found at its start. */
  lemma {:induction false} DigitPrefixNumeral(d: string, s: string)
    requires DigitsOnly(d) && (s == [] || !IsDigit(s[0]))
    ensures DigitPrefix(d + s) == d
    decreases |d|
  {
    DigitsOnlyMeaning(d);
    if d == [] {
      assert d + s == s;
    } else {
      DigitsOnlyMeaning(d[1..]);
      assert (d + s)[1..] == d[1..] + s;
      DigitPrefixNumeral(d[1..], s);
      assert [d[0]] + d[1..] == d;
    }
  }

  /** Digits are never line terminators. */
  lemma DigitsNoLineTerminator(d: string)
    requires DigitsOnly(d)
    ensures NoLineTerminator(d)
  {
    DigitsOnlyMeaning(d);
  }

  function DigitValue(c: char): nat
    requires IsDigit(c)
  {
    (c as int) - ('0' as int)
  }

  function Digit(n: nat): (c: char)
    requires n < 10
    ensures IsDigit(c) && DigitValue(c) == n
  {
    (('0' as int) + n) as char
  }

  /** The number a string of decimal digits denotes, as JavaScript converts it
      when it compares a number with it. */
  function DigitsValue(d: string): nat
    requires DigitsOnly(d)
  {
    if d == [] then 0
    else 10 * DigitsValue(d[..|d| - 1]) + DigitValue(d[|d| - 1])
  }

  /** The decimal numeral of a natural number, without leading zeros. */
  function NatToDecimal(n: nat): (s: string)
    ensures AllDigits(s)
    ensures |s| > 1 ==> s[0] != '0'
  {
    if n < 10 then [Digit(n)]
    else
      var s := NatToDecimal(n / 10) + [Digit(n % 10)];
      assert s[..|s| - 1] == NatToDecimal(n / 10);
      s
  }

  /** `String(n)` for an integer-valued number. */
  function NumberToString(n: int): string {
    if n < 0 then "-" + NatToDecimal(-n) else NatToDecimal(n)
  }

  function Pow10(k: nat): nat {
    if k == 0 then 1 else 10 * Pow10(k - 1)
  }

  lemma {:induction false} Pow10Monotone(a: nat, b: nat)
    requires a <= b
    ensures Pow10(a) <= Pow10(b)
    decreases b
  {
    if a < b {
      Pow10Monotone(a, b - 1);
    }
  }

  /** A numeral of `k` digits denotes a number below 10^k. */
  lemma {:induction false} DigitsValueBelow(d: string)
    requires DigitsOnly(d)
    ensures DigitsValue(d) < Pow10(|d|)
  {
    if d != [] {
      DigitsValueBelow(d[..|d| - 1]);
    }
  }

  /** The first digit of a numeral counts `10^(k-1)` times. */
  lemma {:induction false} DigitsValueLeading(d: string)
    requires |d| >= 1 && DigitsOnly(d)
    ensures IsDigit(d[0]) && DigitsOnly(d[1..])
    ensures DigitsValue(d) == DigitValue(d[0]) * Pow10(|d| - 1) + DigitsValue(d[1..])
  {
    DigitsOnlyMeaning(d);
    DigitsOnlyMeaning(d[1..]);
    if |d| >= 2 {
      var p := d[..|d| - 1];
      var tail := d[1..];
      DigitsValueLeading(p);
      assert tail[..|tail| - 1] == p[1..];
      assert tail[|tail| - 1] == d[|d| - 1];
      var x, pw, r, c := DigitValue(d[0]), Pow10(|p| - 1), DigitsValue(p[1..]), DigitValue(d[|d| - 1]);
      assert DigitsValue(p) == x * pw + r;
      assert DigitsValue(tail) == 10 * r + c;
      ShiftDigit(x, pw, r, c);
    }
  }

  lemma ShiftDigit(x: int, pw: int, r: int, c: int)
    ensures 10 * (x * pw + r) + c == x * (10 * pw) + (10 * r + c)
  {
  }

  /** Converting a number to its numeral and back gives the number. */
  lemma {:induction false} DecimalRoundTrip(n: nat)
    ensures DigitsValue(NatToDecimal(n)) == n
  {
    if n >= 10 {
      DecimalRoundTrip(n / 10);
      var s := NatToDecimal(n);
      assert s[..|s| - 1] == NatToDecimal(n / 10);
    }
  }

  /** `mobileRegex.test(String(n))` for an integer `n`: exactly the numbers
      from 10000000000 up to 19999999999. */
  lemma MobileNumber(n: int)
    ensures MobileMatch(NumberToString(n)) <==> Pow10(10) <= n < 2 * Pow10(10)
  {
    if n >= 0 {
      NumeralLeading(n);
      if Pow10(10) <= n < 2 * Pow10(10) {
        MobileRange(n);
      }
    }
  }

  /** The numeral of `n` splits into its leading digit and the rest, with
      the leading digit non-zero when there is more than one digit. */
  lemma NumeralLeading(n: nat)
    ensures var s := NatToDecimal(n);
      && IsDigit(s[0]) && DigitsOnly(s[1..])
      && n == DigitValue(s[0]) * Pow10(|s| - 1) + DigitsValue(s[1..])
      && DigitsValue(s[1..]) < Pow10(|s| - 1)
      && (|s| > 1 ==> DigitValue(s[0]) >= 1)
  {
    var s := NatToDecimal(n);
    DecimalRoundTrip(n);
    DigitsValueLeading(s);
    DigitsValueBelow(s[1..]);
  }

  /** A number from 10^10 up to 2 * 10^10 - 1 has an eleven-digit numeral
      beginning with `1`. */
  lemma MobileRange(n: nat)
    requires Pow10(10) <= n < 2 * Pow10(10)
    ensures |NatToDecimal(n)| == 11 && NatToDecimal(n)[0] == '1'
  {
    var s := NatToDecimal(n);
    var L := |s|;
    NumeralLeading(n);
    var x, rest := DigitValue(s[0]), DigitsValue(s[1..]);
    if L <= 10 {
      Pow10Monotone(L - 1, 9);
      MultipleBelow(x, Pow10(L - 1));
      assert false;
    } else if L >= 12 {
      Pow10Monotone(11, L - 1);
      MultipleBelow(x, Pow10(L - 1));
      assert false;
    }
    MultipleBelow(x, Pow10(10));
  }

  lemma MultipleBelow(x: nat, p: nat)
    ensures x >= 1 ==> x * p >= p
    ensures x >= 2 ==> x * p >= 2 * p
    ensures x < 10 ==> x * p <= 9 * p
  {
  }
}
