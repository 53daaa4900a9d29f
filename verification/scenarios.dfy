/**
  Concrete runs of the validator on a pattern accepting non-empty lower-case
  words (`^[a-z]+$`), showing the array and collection naming side by side.
  The default finding text is kept as its named constant `NoMatchText`.
 */
module RegexValidatorScenarios {
  import opened Wrappers
  import opened RegexValidator

  predicate LowercaseWord(s: string) {
    |s| > 0 && forall k :: 0 <= k < |s| ==> 'a' <= s[k] <= 'z'
  }

  function LowercaseRule(nullable: bool): Rule {
    Rule(Pattern("^[a-z]+$", LowercaseWord), nullable, None, "")
  }

  const Tags: seq<Value> := [Str("ab"), Str("2"), Str("c3")]

  lemma TagsMatching()
    ensures LowercaseWord("ab") && !LowercaseWord("2") && !LowercaseWord("c3")
  {
    assert "2"[0] == '2';
    assert "c3"[1] == '3';
  }

  /** Element 0, `"ab"`, matches and appends nothing. */
  lemma ArrayElementZero(errors: seq<string>, require: RequireCheck)
    ensures Validate(errors, ElementName("tag", 0), Tags[0], true, LowercaseRule(true).pattern, None, require) == errors
  {
    TagsMatching();
  }

  /** Element 1, `"2"`, is reported under `tag[1]` with the default text. */
  lemma ArrayElementOne(errors: seq<string>, require: RequireCheck)
    ensures Validate(errors, ElementName("tag", 1), Tags[1], true, LowercaseRule(true).pattern, None, require)
            == errors + ["tag[1] " + NoMatchText + "^[a-z]+$"]
  {
    TagsMatching();
    assert ElementName("tag", 1) == "tag[1]";
    assert MismatchMessage("tag[1]", LowercaseRule(true).pattern, None) == "tag[1] " + NoMatchText + "^[a-z]+$";
  }

  /** Element 2, `"c3"`, is reported under `tag[2]` with the default text. */
  lemma ArrayElementTwo(errors: seq<string>, require: RequireCheck)
    ensures Validate(errors, ElementName("tag", 2), Tags[2], true, LowercaseRule(true).pattern, None, require)
            == errors + ["tag[2] " + NoMatchText + "^[a-z]+$"]
  {
    TagsMatching();
    assert ElementName("tag", 2) == "tag[2]";
    assert MismatchMessage("tag[2]", LowercaseRule(true).pattern, None) == "tag[2] " + NoMatchText + "^[a-z]+$";
  }

  /** As an array, only elements 1 and 2 are reported, each under its own index. */
  lemma ArrayScenario(require: RequireCheck)
    ensures Perform([], Field("tag", ArrayField(Some(Tags))), LowercaseRule(true), require)
            == ["tag[1] " + NoMatchText + "^[a-z]+$", "tag[2] " + NoMatchText + "^[a-z]+$"]
  {
    var rule := LowercaseRule(true);
    var m1, m2 := "tag[1] " + NoMatchText + "^[a-z]+$", "tag[2] " + NoMatchText + "^[a-z]+$";
    ArrayElementZero([], require);
    ArrayElementOne([], require);
    ArrayElementTwo([m1], require);
    assert ValidateArrayFrom([m1, m2], "tag", Tags, 3, rule, require) == [m1, m2];
    assert ValidateArrayFrom([m1], "tag", Tags, 2, rule, require) == [m1, m2];
    assert ValidateArrayFrom([], "tag", Tags, 1, rule, require) == [m1, m2];
    assert ValidateArrayFrom([], "tag", Tags, 0, rule, require) == [m1, m2];
  }

  /** As a collection, the same two elements are reported, both under the bare name. */
  lemma CollectionScenario(require: RequireCheck)
    ensures Perform([], Field("tag", CollectionField(Some(Tags))), LowercaseRule(true), require)
            == ["tag " + NoMatchText + "^[a-z]+$", "tag " + NoMatchText + "^[a-z]+$"]
  {
    var rule := LowercaseRule(true);
    TagsMatching();
    var e1 := Validate([], "tag", Tags[0], true, rule.pattern, None, require);
    var e2 := Validate(e1, "tag", Tags[1], true, rule.pattern, None, require);
    var e3 := Validate(e2, "tag", Tags[2], true, rule.pattern, None, require);
    assert MismatchMessage("tag", rule.pattern, None) == "tag " + NoMatchText + "^[a-z]+$";
    assert e3 == ["tag " + NoMatchText + "^[a-z]+$", "tag " + NoMatchText + "^[a-z]+$"];
    assert Tags[1..][1..] == [Tags[2]];
    assert ValidateCollectionItems([], "tag", Tags, rule, require) == e3;
  }

  /** A null element inside a non-null array is still checked: here the required check reports it. */
  lemma NullElementScenario(require: RequireCheck)
    ensures Perform([], Field("tag", ArrayField(Some([Null]))), LowercaseRule(false), require)
            == require("tag[0]", None)
  {
    assert ElementName("tag", 0) == "tag[0]";
  }
}
