/** What `validate` reports about a record: which fields fail, how many, the
    rule recorded for each, and when an exception escapes instead. */
module ValidateFacts {
  import opened Js
  import opened Validator

  /** The field names of `os`, in order. */
  function Properties(os: seq<Outcome>): (ps: seq<string>)
    ensures |ps| == |os|
  {
    seq(|os|, i requires 0 <= i < |os| => os[i].property)
  }

  /** The names of the fields whose check returned false, in order. */
  function FailedFields(os: seq<Outcome>): seq<string> {
    if os == [] then []
    else (if os[0].verdict == Normal(false) then [os[0].property] else []) + FailedFields(os[1..])
  }

  /** A name is among the failed fields exactly when some outcome for it is false. */
  lemma {:induction false} FailedFieldsMeaning(os: seq<Outcome>)
    ensures forall k :: k in FailedFields(os) <==>
      exists i | 0 <= i < |os| :: os[i].property == k && os[i].verdict == Normal(false)
  {
    if os != [] {
      FailedFieldsMeaning(os[1..]);
      forall k ensures k in FailedFields(os) <==>
        exists i | 0 <= i < |os| :: os[i].property == k && os[i].verdict == Normal(false)
      {
        if exists i | 0 <= i < |os| :: os[i].property == k && os[i].verdict == Normal(false) {
          var i :| 0 <= i < |os| && os[i].property == k && os[i].verdict == Normal(false);
          if i > 0 { assert os[1..][i - 1] == os[i]; }
        }
        if k in FailedFields(os[1..]) {
          var i :| 0 <= i < |os[1..]| && os[1..][i].property == k && os[1..][i].verdict == Normal(false);
          assert os[i + 1] == os[1..][i];
        }
      }
    }
  }

  /** The failed fields keep the order of the fields they come from. */
  lemma {:induction false} FailedFieldsInOrder(os: seq<Outcome>)
    ensures IsSubsequence(FailedFields(os), Properties(os))
  {
    if os != [] {
      FailedFieldsInOrder(os[1..]);
      assert Properties(os) == [os[0].property] + Properties(os[1..]);
      assert Properties(os)[1..] == Properties(os[1..]);
      if os[0].verdict == Normal(false) {
        assert FailedFields(os)[1..] == FailedFields(os[1..]);
      } else {
        assert FailedFields(os) == FailedFields(os[1..]);
        SkipHead(FailedFields(os), Properties(os));
      }
    }
  }

  /** Counting outcomes that all return normally: one more error per false
      verdict, and a pass only when nothing failed. */
  lemma {:induction false} TallyCounts(os: seq<Outcome>, acc: Response)
    requires forall i | 0 <= i < |os| :: os[i].verdict.Normal?
    ensures Tally(os, acc).Normal?
    ensures var r := Tally(os, acc).value;
      && r.isPass == (acc.isPass && FailedFields(os) == [])
      && r.errorCount == acc.errorCount + |FailedFields(os)|
  {
    if os != [] {
      var o := os[0];
      var next := if o.verdict.value then acc
                  else Response(false, acc.errorCount + 1, acc.error.Put(o.property, ErrorEntry(o.rule)));
      assert forall i | 0 <= i < |os[1..]| :: os[1..][i] == os[i + 1];
      TallyCounts(os[1..], next);
    }
  }

  /** Counting outcomes for distinct fields that all return normally
      appends the failing names to the error keys, in order. */
  lemma {:induction false} TallyNormal(os: seq<Outcome>, acc: Response)
    requires forall i | 0 <= i < |os| :: os[i].verdict.Normal?
    requires Distinct(Properties(os))
    requires forall i | 0 <= i < |os| :: os[i].property !in acc.error.entries
    ensures Tally(os, acc).Normal?
    ensures Tally(os, acc).value.error.keys == acc.error.keys + FailedFields(os)
  {
    if os == [] {
      assert acc.error.keys + [] == acc.error.keys;
    } else {
      var next := TallyStep(os, acc);
      FreshTail(os, acc, next);
      assert forall i | 0 <= i < |os[1..]| :: os[1..][i] == os[i + 1];
      TallyNormal(os[1..], next);
    }
  }

  /** One step of counting, for a first field that returns normally and
      is not yet among the error keys. */
  lemma TallyStep(os: seq<Outcome>, acc: Response) returns (next: Response)
    requires os != [] && os[0].verdict.Normal? && os[0].property !in acc.error.entries
    ensures next == if os[0].verdict.value then acc
                    else Response(false, acc.errorCount + 1, acc.error.Put(os[0].property, ErrorEntry(os[0].rule)))
    ensures Tally(os, acc) == Tally(os[1..], next)
    ensures acc.error.keys + FailedFields(os) == next.error.keys + FailedFields(os[1..])
  {
    var o := os[0];
    TallyAt(os, 0, acc);
    assert os[0..] == os;
    if o.verdict.value {
      next := acc;
      assert FailedFields(os) == FailedFields(os[1..]);
    } else {
      next := Response(false, acc.errorCount + 1, acc.error.Put(o.property, ErrorEntry(o.rule)));
      assert next.error.keys == acc.error.keys + [o.property];
      assert FailedFields(os) == [o.property] + FailedFields(os[1..]);
      assert acc.error.keys + FailedFields(os) == next.error.keys + FailedFields(os[1..]);
    }
  }

  /** After one step the remaining outcomes are still for distinct fields,
      none of them yet among the error keys. */
  lemma FreshTail(os: seq<Outcome>, acc: Response, next: Response)
    requires os != [] && Distinct(Properties(os))
    requires forall i | 0 <= i < |os| :: os[i].property !in acc.error.entries
    requires next == acc || next.error == acc.error.Put(os[0].property, ErrorEntry(os[0].rule))
    ensures Distinct(Properties(os[1..]))
    ensures forall i | 0 <= i < |os[1..]| :: os[1..][i].property !in next.error.entries
  {
    var tail := os[1..];
    var ps := Properties(os);
    assert ps[1..] == Properties(tail);
    DistinctTail(ps);
    forall i | 0 <= i < |tail| ensures tail[i].property !in next.error.entries {
      assert tail[i] == os[i + 1] && tail[i].property == ps[1..][i];
    }
  }

  /** Counting outcomes that all return normally records each failing
      field's rule under its name and keeps the entries already there. */
  lemma {:induction false} TallyEntries(os: seq<Outcome>, acc: Response)
    requires forall i | 0 <= i < |os| :: os[i].verdict.Normal?
    requires Distinct(Properties(os))
    requires forall i | 0 <= i < |os| :: os[i].property !in acc.error.entries
    ensures Tally(os, acc).Normal?
    ensures var r := Tally(os, acc).value;
      && (forall k <- acc.error.entries :: k in r.error.entries && r.error.entries[k] == acc.error.entries[k])
      && (forall i | 0 <= i < |os| && os[i].verdict == Normal(false) ::
            os[i].property in r.error.entries && r.error.entries[os[i].property] == ErrorEntry(os[i].rule))
  {
    if os != [] {
      var o := os[0];
      var tail := os[1..];
      var next := if o.verdict.value then acc
                  else Response(false, acc.errorCount + 1, acc.error.Put(o.property, ErrorEntry(o.rule)));
      forall i | 0 <= i < |tail| ensures tail[i].property !in next.error.entries {
        assert tail[i] == os[i + 1] && Properties(os)[0] != Properties(os)[i + 1];
      }
      assert Distinct(Properties(tail)) by {
        assert forall i | 0 <= i < |tail| :: Properties(tail)[i] == Properties(os)[i + 1];
      }
      TallyEntries(tail, next);
      assert forall i | 0 < i < |os| :: os[i] == tail[i - 1];
    }
  }

  /** Counting keeps the error object a well-formed plain object. */
  lemma {:induction false} TallyValid(os: seq<Outcome>, acc: Response)
    requires acc.error.Valid() && Tally(os, acc).Normal?
    ensures Tally(os, acc).value.error.Valid()
  {
    if os != [] {
      var o := os[0];
      var next := if o.verdict.value then acc
                  else Response(false, acc.errorCount + 1, acc.error.Put(o.property, ErrorEntry(o.rule)));
      TallyValid(os[1..], next);
    }
  }

  /** An exception escapes `validate` exactly when some field's check throws,
      and it is the exception of the first field that throws. */
  lemma {:induction false} TallyThrow(os: seq<Outcome>, acc: Response)
    ensures Tally(os, acc).Throw? <==> exists i | 0 <= i < |os| :: os[i].verdict.Throw?
    ensures Tally(os, acc).Throw? ==>
      exists i | 0 <= i < |os| :: os[i].verdict == Throw(Tally(os, acc).error)
                                   && forall j | 0 <= j < i :: os[j].verdict.Normal?
  {
    if os != [] {
      var o := os[0];
      var tail := os[1..];
      assert forall i | 0 <= i < |tail| :: tail[i] == os[i + 1];
      if o.verdict.Normal? {
        var next := if o.verdict.value then acc
                    else Response(false, acc.errorCount + 1, acc.error.Put(o.property, ErrorEntry(o.rule)));
        TallyThrow(tail, next);
        if exists i | 0 <= i < |os| :: os[i].verdict.Throw? {
          var i :| 0 <= i < |os| && os[i].verdict.Throw?;
          assert tail[i - 1].verdict.Throw?;
        }
        if Tally(os, acc).Throw? {
          var i :| 0 <= i < |tail| && tail[i].verdict == Throw(Tally(os, acc).error)
                   && forall j | 0 <= j < i :: tail[j].verdict.Normal?;
          assert os[i + 1].verdict == Throw(Tally(os, acc).error);
          assert forall j | 0 <= j < i + 1 :: os[j].verdict.Normal? by {
            forall j | 0 <= j < i + 1 ensures os[j].verdict.Normal? {
              if j > 0 { assert os[j] == tail[j - 1]; }
            }
          }
        }
      } else {
        assert os[0].verdict == Throw(Tally(os, acc).error);
      }
    }
  }

  /** The outcomes of `validate` are taken field by field in the key order of `rules`. */
  lemma OutcomesFields(data: map<string, Value>, rules: Dict<Option<string>>, isEmail: Value -> bool)
    requires forall k <- rules.keys :: k in rules.entries
    ensures Properties(Outcomes(data, rules, isEmail)) == rules.keys
    ensures forall i | 0 <= i < |rules.keys| ::
      var k := rules.keys[i];
      Outcomes(data, rules, isEmail)[i] == Outcome(k, rules.entries[k], SingleSpec(rules.entries[k], FieldValue(data, k), isEmail))
  {
  }

  /** The keys of `rules` are distinct, and so are the fields of its outcomes. */
  lemma OutcomesDistinct(data: map<string, Value>, rules: Dict<Option<string>>, isEmail: Value -> bool)
    requires rules.Valid()
    ensures Distinct(Properties(Outcomes(data, rules, isEmail)))
  {
    OutcomesFields(data, rules, isEmail);
  }

  /** When no field throws, `validate` reports the failing fields in key order,
      counts them, and passes exactly when there are none. */
  lemma ValidateCounts(data: map<string, Value>, rules: Dict<Option<string>>, isEmail: Value -> bool)
    requires rules.Valid()
    ensures ValidateSpec(data, rules, isEmail).Normal? ==>
      var r := ValidateSpec(data, rules, isEmail).value;
      && r.error.Valid()
      && r.errorCount == |r.error.keys| == |r.error.entries|
      && (r.isPass <==> r.errorCount == 0)
      && IsSubsequence(r.error.keys, rules.keys)
  {
    var os := Outcomes(data, rules, isEmail);
    if ValidateSpec(data, rules, isEmail).Normal? {
      TallyThrow(os, Initial);
      OutcomesDistinct(data, rules, isEmail);
      TallyCounts(os, Initial);
      TallyNormal(os, Initial);
      TallyValid(os, Initial);
      var r := ValidateSpec(data, rules, isEmail).value;
      assert r.error.keys == FailedFields(os);
      FailedFieldsInOrder(os);
      OutcomesFields(data, rules, isEmail);
      DistinctCardinality(r.error.keys);
      assert r.error.entries.Keys == set x | x in r.error.keys;
    }
  }

  /** When no field throws, the error object of `validate` holds exactly the
      keys of `rules` whose check returns false. */
  lemma ValidateErrorKeys(data: map<string, Value>, rules: Dict<Option<string>>, isEmail: Value -> bool)
    requires rules.Valid()
    ensures ValidateSpec(data, rules, isEmail).Normal? ==>
      forall k :: k in ValidateSpec(data, rules, isEmail).value.error.entries <==>
        k in rules.entries && SingleSpec(rules.entries[k], FieldValue(data, k), isEmail) == Normal(false)
  {
    var os := Outcomes(data, rules, isEmail);
    if ValidateSpec(data, rules, isEmail).Normal? {
      TallyThrow(os, Initial);
      OutcomesDistinct(data, rules, isEmail);
      TallyNormal(os, Initial);
      TallyValid(os, Initial);
      OutcomesFields(data, rules, isEmail);
      var r := ValidateSpec(data, rules, isEmail).value;
      FailedFieldsMeaning(os);
      forall k ensures k in r.error.entries <==>
        k in rules.entries && SingleSpec(rules.entries[k], FieldValue(data, k), isEmail) == Normal(false)
      {
        if k in rules.entries && SingleSpec(rules.entries[k], FieldValue(data, k), isEmail) == Normal(false) {
          var i :| 0 <= i < |rules.keys| && rules.keys[i] == k;
          assert os[i].verdict == Normal(false);
        }
      }
    }
  }

  /** Each entry of the error object of `validate` is the rule descriptor of
      its field. */
  lemma ValidateErrorRules(data: map<string, Value>, rules: Dict<Option<string>>, isEmail: Value -> bool)
    requires rules.Valid()
    ensures ValidateSpec(data, rules, isEmail).Normal? ==>
      var r := ValidateSpec(data, rules, isEmail).value;
      forall k <- r.error.entries :: k in rules.entries && r.error.entries[k] == ErrorEntry(rules.entries[k])
  {
    var os := Outcomes(data, rules, isEmail);
    if ValidateSpec(data, rules, isEmail).Normal? {
      TallyThrow(os, Initial);
      OutcomesDistinct(data, rules, isEmail);
      TallyNormal(os, Initial);
      TallyEntries(os, Initial);
      TallyValid(os, Initial);
      OutcomesFields(data, rules, isEmail);
      var r := ValidateSpec(data, rules, isEmail).value;
      FailedFieldsMeaning(os);
      forall k | k in r.error.entries ensures k in rules.entries && r.error.entries[k] == ErrorEntry(rules.entries[k]) {
        assert k in FailedFields(os);
        var i :| 0 <= i < |os| && os[i].property == k && os[i].verdict == Normal(false);
      }
    }
  }

  /** `validate` throws exactly when the check of some field of `rules`
      throws, and then it throws what the first such field throws. */
  lemma ValidateThrows(data: map<string, Value>, rules: Dict<Option<string>>, isEmail: Value -> bool)
    requires forall k <- rules.keys :: k in rules.entries
    ensures ValidateSpec(data, rules, isEmail).Throw? <==>
      exists k <- rules.keys :: SingleSpec(rules.entries[k], FieldValue(data, k), isEmail).Throw?
  {
    var os := Outcomes(data, rules, isEmail);
    OutcomesFields(data, rules, isEmail);
    TallyThrow(os, Initial);
    if exists k <- rules.keys :: SingleSpec(rules.entries[k], FieldValue(data, k), isEmail).Throw? {
      var k :| k in rules.keys && SingleSpec(rules.entries[k], FieldValue(data, k), isEmail).Throw?;
      var i :| 0 <= i < |rules.keys| && rules.keys[i] == k;
      assert os[i].verdict.Throw?;
    }
  }

  /** The exception that escapes is that of the first field, in key order,
      whose check throws; every field before it returns normally. */
  lemma ValidateFirstThrow(data: map<string, Value>, rules: Dict<Option<string>>, isEmail: Value -> bool)
    requires forall k <- rules.keys :: k in rules.entries
    ensures ValidateSpec(data, rules, isEmail).Throw? ==>
      exists i | 0 <= i < |rules.keys| ::
        && SingleSpec(rules.entries[rules.keys[i]], FieldValue(data, rules.keys[i]), isEmail)
           == Throw(ValidateSpec(data, rules, isEmail).error)
        && forall j | 0 <= j < i :: SingleSpec(rules.entries[rules.keys[j]], FieldValue(data, rules.keys[j]), isEmail).Normal?
  {
    OutcomesFields(data, rules, isEmail);
    TallyThrow(Outcomes(data, rules, isEmail), Initial);
  }

  /** Fields that `rules` does not mention are never looked at. */
  lemma ExtraFieldsIgnored(data: map<string, Value>, rules: Dict<Option<string>>, isEmail: Value -> bool,
                           k: string, v: Value)
    requires forall k <- rules.keys :: k in rules.entries
    requires k !in rules.keys
    ensures ValidateSpec(data[k := v], rules, isEmail) == ValidateSpec(data, rules, isEmail)
  {
    assert Outcomes(data[k := v], rules, isEmail) == Outcomes(data, rules, isEmail) by {
      forall i | 0 <= i < |rules.keys| ensures FieldValue(data[k := v], rules.keys[i]) == FieldValue(data, rules.keys[i]) {
        assert rules.keys[i] != k;
      }
    }
  }
}
