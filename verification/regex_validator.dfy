/**
  The regular-expression field validator of the Syntaxe annotation framework.

  Java's `validate(..., errors)` appends to a shared mutable list; here every
  operation takes the incoming error list and returns it extended, so
  "the validator only appends" becomes the statement `errors <= r`.
 */
module RegexValidator {
  import opened Wrappers
  import opened Strings

  /** A field value or collection element, as the validator sees it. */
  datatype Value = Null | Str(s: string) | Other

  /**
    A compiled pattern: the source text `pattern()` reports, and the
    whole-string match `matcher(s).matches()` of the regex engine.
   */
  datatype Pattern = Pattern(source: string, fullMatch: string -> bool)

  /** The annotation's settings together with the pattern compiled from its text. */
  datatype Rule = Rule(pattern: Pattern, nullable: bool, message: Option<string>, name: string)

  /** A field's declared shape together with the value read from the instance. */
  datatype Contents =
    | ScalarField(value: Value)
    | ArrayField(elements: Option<seq<Value>>)
    | CollectionField(items: Option<seq<Value>>)

  /** The annotated field: its declared name and what it holds on one instance. */
  datatype Field = Field(name: string, contents: Contents)

  /**
    `Validations.require`: the messages it appends for a name and a possibly-null string.
    It is assumed to only append to the shared error list, never to read or change it.
   */
  type RequireCheck = (string, Option<string>) -> seq<string>

  /** The default finding texts, each appended after the reported name and a space. */
  const NotAStringText := "must be a string"
  const NoMatchText := "does not match the regular expression pattern: "

  /** The string a value passes to the required check, or None for null. */
  function AsJavaString(value: Value): Option<string>
    requires !value.Other?
  {
    if value.Null? then None else Some(value.s)
  }

  /** The error for a value whose pattern does not match: the custom message unless it is missing or blank. */
  function MismatchMessage(name: string, pattern: Pattern, message: Option<string>): (m: string)
    ensures name + " " <= m
    ensures message.Some? && !IsBlank(message.value) ==> m == name + " " + message.value
    ensures message.None? || IsBlank(message.value) ==>
              m == name + " " + NoMatchText + pattern.source
  {
    if message.Some? && !IsBlank(message.value) then name + " " + message.value
    else
      name + " " + NoMatchText + pattern.source
  }

  /** Checks one value under `name`, appending the findings to `errors`. */
  function Validate(errors: seq<string>, name: string, value: Value, nullable: bool,
                    pattern: Pattern, message: Option<string>, require: RequireCheck): (r: seq<string>)
    ensures errors <= r
    // type gate: exactly one finding, neither the required check nor the pattern is consulted
    ensures value.Other? ==> r == errors + [name + " " + NotAStringText]
    // null: never matched against the pattern
    ensures value.Null? && nullable ==> r == errors
    ensures value.Null? && !nullable ==> r == errors + require(name, None)
    // string, matching: only the required check may report
    ensures value.Str? && nullable && pattern.fullMatch(value.s) ==> r == errors
    ensures value.Str? && !nullable && pattern.fullMatch(value.s) ==>
              r == errors + require(name, Some(value.s))
    // string, not matching (the empty string included): required findings first, then one mismatch
    ensures value.Str? && nullable && !pattern.fullMatch(value.s) ==>
              r == errors + [MismatchMessage(name, pattern, message)]
    ensures value.Str? && !nullable && !pattern.fullMatch(value.s) ==>
              r == errors + require(name, Some(value.s)) + [MismatchMessage(name, pattern, message)]
  {
    if value.Other? then
      errors + [name + " " + NotAStringText]
    else
      var checked := if nullable then errors else errors + require(name, AsJavaString(value));
      if value.Null? || pattern.fullMatch(value.s) then checked
      else checked + [MismatchMessage(name, pattern, message)]
  }

  /** The name an array element is reported under: `name[i]`. */
  function ElementName(name: string, i: nat): (r: string)
    ensures name + "[" <= r
    ensures r[|r| - 1] == ']'
    ensures r[|name| + 1..|r| - 1] == NatToString(i)
  {
    name + "[" + NatToString(i) + "]"
  }

  /** Elements `i..` of a non-null array, each under its indexed name. */
  function ValidateArrayFrom(errors: seq<string>, name: string, values: seq<Value>, i: nat,
                             rule: Rule, require: RequireCheck): (r: seq<string>)
    requires i <= |values|
    ensures errors <= r
    ensures i == |values| ==> r == errors
    decreases |values| - i
  {
    if i == |values| then errors
    else
      var next := Validate(errors, ElementName(name, i), values[i], rule.nullable,
                           rule.pattern, rule.message, require);
      ValidateArrayFrom(next, name, values, i + 1, rule, require)
  }

  /** An array field: nothing for a null array, otherwise every element from index 0, null ones included. */
  function ValidateArray(errors: seq<string>, name: string, values: Option<seq<Value>>,
                         rule: Rule, require: RequireCheck): (r: seq<string>)
    ensures errors <= r
    ensures values.None? ==> r == errors
  {
    match values
    case None => errors
    case Some(vs) => ValidateArrayFrom(errors, name, vs, 0, rule, require)
  }

  /** The elements of a non-null collection from the first one, all under the same name. */
  function ValidateCollectionItems(errors: seq<string>, name: string, values: seq<Value>,
                                   rule: Rule, require: RequireCheck): (r: seq<string>)
    ensures errors <= r
    ensures values == [] ==> r == errors
    decreases |values|
  {
    if values == [] then errors
    else
      var next := Validate(errors, name, values[0], rule.nullable, rule.pattern, rule.message, require);
      ValidateCollectionItems(next, name, values[1..], rule, require)
  }

  /** A collection field: nothing for a null collection, otherwise every element in iteration order. */
  function ValidateCollection(errors: seq<string>, name: string, values: Option<seq<Value>>,
                              rule: Rule, require: RequireCheck): (r: seq<string>)
    ensures errors <= r
    ensures values.None? ==> r == errors
  {
    match values
    case None => errors
    case Some(vs) => ValidateCollectionItems(errors, name, vs, rule, require)
  }

  /** The name errors are reported under: the annotation's name unless it is empty. */
  function DetermineFieldName(rule: Rule, field: Field): (name: string)
    ensures rule.name != [] ==> name == rule.name
    ensures rule.name == [] ==> name == field.name
  {
    if rule.name == [] then field.name else rule.name
  }

  /** Validates one annotated field of one instance, dispatching on its shape. */
  function Perform(errors: seq<string>, field: Field, rule: Rule, require: RequireCheck): (r: seq<string>)
    ensures errors <= r
    ensures field.contents.ArrayField? && field.contents.elements.None? ==> r == errors
    ensures field.contents.CollectionField? && field.contents.items.None? ==> r == errors
  {
    var name := DetermineFieldName(rule, field);
    match field.contents
    case CollectionField(items) => ValidateCollection(errors, name, items, rule, require)
    case ArrayField(elements) => ValidateArray(errors, name, elements, rule, require)
    case ScalarField(value) =>
      Validate(errors, name, value, rule.nullable, rule.pattern, rule.message, require)
  }
}
