/**
  Properties of the regular-expression field validator, stated against
  independent reference definitions: when a value is accepted, what a
  whole array or collection appends, and that the incoming error list
  never influences what is appended.
 */
module RegexValidatorProperties {
  import opened Wrappers
  import opened Strings
  import opened RegexValidator

  /** The parts laid end to end, in order. */
  function Concat<T>(parts: seq<seq<T>>): seq<T>
  {
    if parts == [] then [] else parts[0] + Concat(parts[1..])
  }

  /** Nothing is laid end to end exactly when every part is empty. */
  lemma {:induction false} ConcatEmptyIff<T>(parts: seq<seq<T>>)
    ensures Concat(parts) == [] <==> forall i :: 0 <= i < |parts| ==> parts[i] == []
  {
    if parts != [] {
      ConcatEmptyIff(parts[1..]);
      assert forall i :: 1 <= i < |parts| ==> parts[i] == parts[1..][i - 1];
    }
  }

  /** Laying out the parts from `i` on, after a prefix, is part `i` and then the parts after it. */
  lemma ConcatStep<T>(prefix: seq<T>, parts: seq<seq<T>>, i: nat)
    requires i < |parts|
    ensures prefix + Concat(parts[i..]) == (prefix + parts[i]) + Concat(parts[i + 1..])
  {
  }

  /** Everything laid end to end comes from one of the parts. */
  lemma {:induction false} ConcatMember<T>(parts: seq<seq<T>>, m: T)
    ensures m in Concat(parts) ==> exists i :: 0 <= i < |parts| && m in parts[i]
  {
    if parts != [] && m in Concat(parts) && m !in parts[0] {
      ConcatMember(parts[1..], m);
      var i :| 0 <= i < |parts[1..]| && m in parts[1..][i];
      assert m in parts[i + 1];
    }
  }

  /** A value the validator lets through without a single finding. */
  predicate Accepts(name: string, value: Value, nullable: bool, pattern: Pattern, require: RequireCheck)
  {
    match value
    case Other => false
    case Null => nullable || require(name, None) == []
    case Str(s) => (nullable || require(name, Some(s)) == []) && pattern.fullMatch(s)
  }

  /** `validate` leaves the error list untouched exactly when the value is accepted. */
  lemma ValidateAcceptsIff(errors: seq<string>, name: string, value: Value, nullable: bool,
                           pattern: Pattern, message: Option<string>, require: RequireCheck)
    ensures Validate(errors, name, value, nullable, pattern, message, require) == errors
            <==> Accepts(name, value, nullable, pattern, require)
  {
  }

  /** What `validate` appends does not depend on the errors already collected. */
  lemma ValidateFromAnyErrors(errors: seq<string>, name: string, value: Value, nullable: bool,
                              pattern: Pattern, message: Option<string>, require: RequireCheck)
    ensures Validate(errors, name, value, nullable, pattern, message, require)
            == errors + Validate([], name, value, nullable, pattern, message, require)
  {
  }

  /**
    Every finding `validate` appends is either one the required check produced
    for this name, or one of its own, which begins with the name and a space.
   */
  lemma ValidateFindingsNamed(name: string, value: Value, nullable: bool,
                              pattern: Pattern, message: Option<string>, require: RequireCheck)
    ensures forall m :: m in Validate([], name, value, nullable, pattern, message, require) ==>
              name + " " <= m
              || (!value.Other? && !nullable && m in require(name, AsJavaString(value)))
  {
  }

  /** The leading run of decimal digits of `s`. */
  function DigitRun(s: string): (d: string)
    ensures d <= s
    decreases |s|
  {
    if s != [] && IsDigit(s[0]) then [s[0]] + DigitRun(s[1..]) else []
  }

  /** A digit string closed by a bracket is read back whole, whatever follows. */
  lemma {:induction false} DigitRunStopsAtBracket(digits: string, rest: string)
    requires forall k :: 0 <= k < |digits| ==> IsDigit(digits[k])
    ensures DigitRun(digits + "]" + rest) == digits
  {
    if digits != [] {
      assert (digits + "]" + rest)[1..] == digits[1..] + "]" + rest;
      DigitRunStopsAtBracket(digits[1..], rest);
    }
  }

  /** Dropping a prefix of the first part of an append drops it from the whole. */
  lemma DropOfAppend<T>(x: seq<T>, z: seq<T>, p: nat)
    requires p <= |x|
    ensures (x + z)[p..] == x[p..] + z
  {
  }

  /** A message reported under `name[i]` can never be read as one reported under `name[j]`, j != i. */
  lemma ElementNamesPrefixFree(name: string, i: nat, j: nat, rest: string)
    ensures ElementName(name, i) <= ElementName(name, j) + rest ==> i == j
  {
    var a, b := NatToString(i), NatToString(j);
    var x, y := ElementName(name, i), ElementName(name, j) + rest;
    if x <= y {
      var p := |name| + 1;
      var z := y[|x|..];
      assert y == x + z;
      assert x == (name + "[") + (a + "]");
      assert x[p..] == a + "]";
      DropOfAppend(x, z, p);
      assert y[p..] == a + "]" + z;
      assert y == (name + "[") + (b + "]" + rest);
      assert y[p..] == b + "]" + rest;
      DigitRunStopsAtBracket(a, z);
      DigitRunStopsAtBracket(b, rest);
      NatToStringInjective(i, j);
    }
  }

  /** What each array element appends on its own, under its indexed name. */
  function ArrayFindings(name: string, values: seq<Value>, rule: Rule, require: RequireCheck): (parts: seq<seq<string>>)
    ensures |parts| == |values|
  {
    seq(|values|, i requires 0 <= i < |values| =>
      Validate([], ElementName(name, i), values[i], rule.nullable, rule.pattern, rule.message, require))
  }

  /** What each collection element appends on its own, under the field's name. */
  function CollectionFindings(name: string, values: seq<Value>, rule: Rule, require: RequireCheck): (parts: seq<seq<string>>)
    ensures |parts| == |values|
  {
    seq(|values|, i requires 0 <= i < |values| =>
      Validate([], name, values[i], rule.nullable, rule.pattern, rule.message, require))
  }

  /**
    With a nullable rule, every finding element `i` of an array contributes
    begins with `name[i] ` and with no other element's name `name[j]`.
   */
  lemma ArrayFindingsAttributed(name: string, values: seq<Value>, rule: Rule, require: RequireCheck, i: nat)
    requires rule.nullable
    requires i < |values|
    ensures forall m :: m in ArrayFindings(name, values, rule, require)[i] ==> ElementName(name, i) + " " <= m
    ensures forall m, j: nat :: m in ArrayFindings(name, values, rule, require)[i] && j != i ==>
              !(ElementName(name, j) <= m)
  {
    var own := ElementName(name, i);
    ValidateFindingsNamed(own, values[i], rule.nullable, rule.pattern, rule.message, require);
    forall m, j: nat | m in ArrayFindings(name, values, rule, require)[i] && j != i
      ensures !(ElementName(name, j) <= m)
    {
      var rest := m[|own|..];
      assert m == own + rest;
      ElementNamesPrefixFree(name, j, i, rest);
    }
  }

  /** Checking element `i` appends that element's own findings, then the loop moves on. */
  lemma ArrayElementStep(errors: seq<string>, name: string, values: seq<Value>, i: nat,
                         rule: Rule, require: RequireCheck)
    requires i < |values|
    ensures ValidateArrayFrom(errors, name, values, i, rule, require)
            == ValidateArrayFrom(errors + ArrayFindings(name, values, rule, require)[i], name, values, i + 1, rule, require)
  {
    ValidateFromAnyErrors(errors, ElementName(name, i), values[i], rule.nullable, rule.pattern, rule.message, require);
  }

  lemma {:induction false} ArrayFromIsConcatenation(errors: seq<string>, name: string, values: seq<Value>, i: nat,
                                                    rule: Rule, require: RequireCheck)
    requires i <= |values|
    ensures ValidateArrayFrom(errors, name, values, i, rule, require)
            == errors + Concat(ArrayFindings(name, values, rule, require)[i..])
    decreases |values| - i
  {
    var parts := ArrayFindings(name, values, rule, require);
    if i == |values| {
      assert parts[i..] == [];
    } else {
      ArrayElementStep(errors, name, values, i, rule, require);
      ArrayFromIsConcatenation(errors + parts[i], name, values, i + 1, rule, require);
      ConcatStep(errors, parts, i);
    }
  }

  /**
    A non-null array appends, in index order, exactly what each element
    appends on its own under `name[i]` — null elements included.
   */
  lemma ValidateArrayIsConcatenation(errors: seq<string>, name: string, values: seq<Value>,
                                     rule: Rule, require: RequireCheck)
    ensures ValidateArray(errors, name, Some(values), rule, require)
            == errors + Concat(ArrayFindings(name, values, rule, require))
  {
    ArrayFromIsConcatenation(errors, name, values, 0, rule, require);
    assert ArrayFindings(name, values, rule, require)[0..] == ArrayFindings(name, values, rule, require);
  }

  lemma {:induction false} CollectionItemsIsConcatenation(errors: seq<string>, name: string, values: seq<Value>,
                                                          rule: Rule, require: RequireCheck)
    ensures ValidateCollectionItems(errors, name, values, rule, require)
            == errors + Concat(CollectionFindings(name, values, rule, require))
    decreases |values|
  {
    if values != [] {
      var next := Validate(errors, name, values[0], rule.nullable, rule.pattern, rule.message, require);
      ValidateFromAnyErrors(errors, name, values[0], rule.nullable, rule.pattern, rule.message, require);
      CollectionItemsIsConcatenation(next, name, values[1..], rule, require);
      assert CollectionFindings(name, values, rule, require)[1..] == CollectionFindings(name, values[1..], rule, require);
    }
  }

  /**
    A non-null collection appends, in iteration order, exactly what each
    element appends on its own under the unchanged name.
   */
  lemma ValidateCollectionIsConcatenation(errors: seq<string>, name: string, values: seq<Value>,
                                          rule: Rule, require: RequireCheck)
    ensures ValidateCollection(errors, name, Some(values), rule, require)
            == errors + Concat(CollectionFindings(name, values, rule, require))
  {
    CollectionItemsIsConcatenation(errors, name, values, rule, require);
  }

  /** A field of one instance raises no finding: every value it holds is accepted under its reported name. */
  predicate FieldAccepted(field: Field, rule: Rule, require: RequireCheck)
  {
    var name := DetermineFieldName(rule, field);
    match field.contents
    case ScalarField(v) => Accepts(name, v, rule.nullable, rule.pattern, require)
    case ArrayField(None) => true
    case ArrayField(Some(vs)) =>
      forall i :: 0 <= i < |vs| ==> Accepts(ElementName(name, i), vs[i], rule.nullable, rule.pattern, require)
    case CollectionField(None) => true
    case CollectionField(Some(vs)) =>
      forall i :: 0 <= i < |vs| ==> Accepts(name, vs[i], rule.nullable, rule.pattern, require)
  }

  /** `perform` leaves the error list untouched exactly when the field is accepted. */
  lemma PerformAcceptsIff(errors: seq<string>, field: Field, rule: Rule, require: RequireCheck)
    ensures Perform(errors, field, rule, require) == errors <==> FieldAccepted(field, rule, require)
  {
    var name := DetermineFieldName(rule, field);
    match field.contents
    case ScalarField(v) =>
      ValidateAcceptsIff(errors, name, v, rule.nullable, rule.pattern, rule.message, require);
    case ArrayField(None) =>
    case ArrayField(Some(vs)) =>
      var parts := ArrayFindings(name, vs, rule, require);
      ValidateArrayIsConcatenation(errors, name, vs, rule, require);
      ConcatEmptyIff(parts);
      forall i | 0 <= i < |vs|
        ensures parts[i] == [] <==> Accepts(ElementName(name, i), vs[i], rule.nullable, rule.pattern, require)
      {
        ValidateAcceptsIff([], ElementName(name, i), vs[i], rule.nullable, rule.pattern, rule.message, require);
      }
    case CollectionField(None) =>
    case CollectionField(Some(vs)) =>
      var parts := CollectionFindings(name, vs, rule, require);
      ValidateCollectionIsConcatenation(errors, name, vs, rule, require);
      ConcatEmptyIff(parts);
      forall i | 0 <= i < |vs|
        ensures parts[i] == [] <==> Accepts(name, vs[i], rule.nullable, rule.pattern, require)
      {
        ValidateAcceptsIff([], name, vs[i], rule.nullable, rule.pattern, rule.message, require);
      }
  }

  /**
    What `perform` appends does not depend on the errors already collected:
    two runs on the same instance with fresh lists report the same findings.
   */
  lemma PerformFromAnyErrors(errors: seq<string>, field: Field, rule: Rule, require: RequireCheck)
    ensures Perform(errors, field, rule, require) == errors + Perform([], field, rule, require)
  {
    var name := DetermineFieldName(rule, field);
    match field.contents
    case ScalarField(v) =>
      ValidateFromAnyErrors(errors, name, v, rule.nullable, rule.pattern, rule.message, require);
    case ArrayField(None) =>
    case ArrayField(Some(vs)) =>
      ValidateArrayIsConcatenation(errors, name, vs, rule, require);
      ValidateArrayIsConcatenation([], name, vs, rule, require);
    case CollectionField(None) =>
    case CollectionField(Some(vs)) =>
      ValidateCollectionIsConcatenation(errors, name, vs, rule, require);
      ValidateCollectionIsConcatenation([], name, vs, rule, require);
  }

  /**
    With a nullable rule the required check never runs, so every finding
    `perform` reports begins with the reported field name: followed by `[`
    for an array element, by a space otherwise.
   */
  lemma PerformFindingsNamed(field: Field, rule: Rule, require: RequireCheck)
    requires rule.nullable
    ensures var lead := DetermineFieldName(rule, field) + (if field.contents.ArrayField? then "[" else " ");
            forall m :: m in Perform([], field, rule, require) ==> lead <= m
  {
    var name := DetermineFieldName(rule, field);
    var r := Perform([], field, rule, require);
    match field.contents
    case ScalarField(v) =>
      ValidateFindingsNamed(name, v, rule.nullable, rule.pattern, rule.message, require);
    case ArrayField(None) =>
    case ArrayField(Some(vs)) =>
      var parts := ArrayFindings(name, vs, rule, require);
      ValidateArrayIsConcatenation([], name, vs, rule, require);
      forall m | m in r
        ensures name + "[" <= m
      {
        ConcatMember(parts, m);
        var i :| 0 <= i < |parts| && m in parts[i];
        ValidateFindingsNamed(ElementName(name, i), vs[i], rule.nullable, rule.pattern, rule.message, require);
        assert ElementName(name, i) + " " <= m;
      }
    case CollectionField(None) =>
    case CollectionField(Some(vs)) =>
      var parts := CollectionFindings(name, vs, rule, require);
      ValidateCollectionIsConcatenation([], name, vs, rule, require);
      forall m | m in r
        ensures name + " " <= m
      {
        ConcatMember(parts, m);
        var i :| 0 <= i < |parts| && m in parts[i];
        ValidateFindingsNamed(name, vs[i], rule.nullable, rule.pattern, rule.message, require);
      }
  }
}
