# Regular-expression field validator (Syntaxe), modelled in Dafny

Syntaxe validates annotated fields of Java objects. This project models its
`RegexValidator`. For one field of one instance, the validator reads the value
and works out the name to report under. It then checks the value, or each
element of an array or collection field, against a compiled regular
expression, and it appends human-readable findings to a shared error list.

The model is functional. Each operation takes the incoming error list and
returns it extended, so "the validator only appends" is stated as `errors <= r`.

- `wrappers.dfy`: module `Wrappers`, an `Option` type standing for a Java reference that may be null.
- `strings.dfy`: module `Strings`. It holds the decimal rendering of the array index in `name + "[" + i + "]"`, and Java's `String.trim()` behind the "blank message" test.
- `regex_validator.dfy`: module `RegexValidator`. It holds the data model and the operations `validate`, `validateArray`, `validateCollection`, `determineFieldName` and `perform`.
- `regex_validator_properties.dfy`: module `RegexValidatorProperties`. It holds the reference definitions (`Accepts`, `FieldAccepted`, and the concatenation of per-element findings) and the lemmas that tie the operations to them.
- `scenarios.dfy`: module `RegexValidatorScenarios`. It holds concrete runs with a lower-case-word pattern.

The outside collaborators are inputs to the model:

- The regex engine is a `Pattern(source, fullMatch)` record. `source` is what `regex.pattern()` returns. `fullMatch: string -> bool` stands for `regex.matcher(s).matches()`. No regex semantics are assumed.
- `Validations.require` is a parameter `require: (string, Option<string>) -> seq<string>`. It gives the messages the check appends for a name and a possibly-null string. Nothing is assumed about its text.
- The field's declared shape and the value read from the instance form one `Contents` value: `ScalarField`, `ArrayField` or `CollectionField`. The Java code tests `isCollection()` before `isArray()`. Assuming both test the field's declared type (`AnnotatedFieldValidator`, not modelled), the two tests never both hold, since no Java type is both an array and a `Collection`, and their order cannot change a result.

An empty string under a non-nullable rule is still matched against the pattern; only a null value skips it (lines 107-122). So an empty string gets the required check's output and then, if it does not match, a mismatch finding.

## Model

| member | source | states |
|---|---|---|
| RegexValidator.Validate | src/java/com/strategicgains/syntaxe/validator/impl/RegexValidator.java:92-123 | Only appends. A non-null, non-string value gets exactly `name must be a string`, with no required check and no pattern check. A null value never reaches the pattern: if nullable, nothing is appended; otherwise only the required check's output. A string (the empty string included) is always matched. A match adds only the required output, or nothing when nullable. A mismatch adds the required output first and then exactly one mismatch finding. |
| RegexValidator.MismatchMessage | src/java/com/strategicgains/syntaxe/validator/impl/RegexValidator.java:111-120 | The mismatch finding is `name + " " + message` when a message is present and not blank after trimming. Otherwise it is `name does not match the regular expression pattern: <pattern source>`. Either way it begins with the name and a space. |
| RegexValidator.ElementName | src/java/com/strategicgains/syntaxe/validator/impl/RegexValidator.java:77 | An element is reported as `name[i]`: the name, `[`, the decimal index, then `]`. |
| RegexValidator.ValidateArrayFrom | src/java/com/strategicgains/syntaxe/validator/impl/RegexValidator.java:73-78 | The per-element loop of `validateArray` only appends. Past the last element it appends nothing. |
| RegexValidator.ValidateArray | src/java/com/strategicgains/syntaxe/validator/impl/RegexValidator.java:70-79 | Only appends. A null array appends nothing. |
| RegexValidator.ValidateCollectionItems | src/java/com/strategicgains/syntaxe/validator/impl/RegexValidator.java:85-88 | The per-element loop of `validateCollection` only appends. An empty collection appends nothing. |
| RegexValidator.ValidateCollection | src/java/com/strategicgains/syntaxe/validator/impl/RegexValidator.java:81-89 | Only appends. A null collection appends nothing. |
| RegexValidator.DetermineFieldName | src/java/com/strategicgains/syntaxe/validator/impl/RegexValidator.java:65-68 | Findings are reported under the annotation's name when it is non-empty, else under the field's declared name. |
| RegexValidator.Perform | src/java/com/strategicgains/syntaxe/validator/impl/RegexValidator.java:45-63 | Only appends. A null array field or a null collection field appends nothing. |
| RegexValidatorProperties.ValidateAcceptsIff | src/java/com/strategicgains/syntaxe/validator/impl/RegexValidator.java:92-123 | `validate` leaves the list unchanged exactly when `Accepts` holds. `Accepts` means: not a non-string; the required check is silent unless the rule is nullable; and a string fully matches. Both directions are proved. |
| RegexValidatorProperties.ValidateFromAnyErrors | src/java/com/strategicgains/syntaxe/validator/impl/RegexValidator.java:92-123 | What `validate` appends does not depend on the errors already in the list. |
| RegexValidatorProperties.ValidateFindingsNamed | src/java/com/strategicgains/syntaxe/validator/impl/RegexValidator.java:94-120 | Each finding `validate` appends either comes from the required check for this name, or begins with the name and a space. |
| RegexValidatorProperties.ConcatEmptyIff | src/java/com/strategicgains/syntaxe/validator/impl/RegexValidator.java:75-78 | The element loops append nothing overall exactly when no single element appends anything. |
| RegexValidatorProperties.ElementNamesPrefixFree | src/java/com/strategicgains/syntaxe/validator/impl/RegexValidator.java:77 | A message reported under `name[i]` never begins with `name[j]` for a different `j`. |
| RegexValidatorProperties.ArrayFindingsAttributed | src/java/com/strategicgains/syntaxe/validator/impl/RegexValidator.java:75-77 | With a nullable rule, every finding that array element `i` contributes begins with `name[i] ` and with no `name[j]` for `j != i`, so such findings name exactly the element they are about. |
| RegexValidatorProperties.ArrayFromIsConcatenation | src/java/com/strategicgains/syntaxe/validator/impl/RegexValidator.java:73-78 | From index `i` on, the array loop appends, in order, what each element appends alone under `name[k]`. |
| RegexValidatorProperties.ValidateArrayIsConcatenation | src/java/com/strategicgains/syntaxe/validator/impl/RegexValidator.java:70-79 | A non-null array appends exactly the in-order concatenation of `validate(name[i], values[i])` for `i` from 0. Null elements are still validated. |
| RegexValidatorProperties.CollectionItemsIsConcatenation | src/java/com/strategicgains/syntaxe/validator/impl/RegexValidator.java:85-88 | The collection loop appends, in order, what each element appends alone under the same name. |
| RegexValidatorProperties.ValidateCollectionIsConcatenation | src/java/com/strategicgains/syntaxe/validator/impl/RegexValidator.java:81-89 | A non-null collection appends exactly the in-order concatenation of `validate(name, value)` over its elements, with no index suffix. |
| RegexValidatorProperties.PerformAcceptsIff | src/java/com/strategicgains/syntaxe/validator/impl/RegexValidator.java:45-63 | `perform` leaves the list unchanged exactly when every value the field holds is accepted under its reported name. A null container holds no values. |
| RegexValidatorProperties.PerformFromAnyErrors | src/java/com/strategicgains/syntaxe/validator/impl/RegexValidator.java:45-63 | What `perform` appends does not depend on the list it is given. Two runs with fresh lists report the same findings. |
| RegexValidatorProperties.PerformFindingsNamed | src/java/com/strategicgains/syntaxe/validator/impl/RegexValidator.java:48-63 | With a nullable rule, every finding begins with the name from `determineFieldName`. For an array field it is followed by `[`; otherwise by a space. |
| Strings.NatToString | src/java/com/strategicgains/syntaxe/validator/impl/RegexValidator.java:77 | The index text is a non-empty run of decimal digits. It has no leading zero, and it is `0` only for index 0. |
| Strings.ParseNatToString | src/java/com/strategicgains/syntaxe/validator/impl/RegexValidator.java:77 | Reading the index text back as a decimal number gives the index. |
| Strings.NatToStringInjective | src/java/com/strategicgains/syntaxe/validator/impl/RegexValidator.java:77 | Distinct indices have distinct texts. |
| Strings.Trim | src/java/com/strategicgains/syntaxe/validator/impl/RegexValidator.java:113 | `message.trim()` is no longer than the message. When non-empty, it neither starts nor ends with a character at or below U+0020. |
| Strings.TrimIsInfix | src/java/com/strategicgains/syntaxe/validator/impl/RegexValidator.java:113 | `message.trim()` is one contiguous stretch of the message. Everything before it and everything after it is at or below U+0020, so exactly the leading and trailing white space is removed. |
| Strings.BlankIffAllTrimmable | src/java/com/strategicgains/syntaxe/validator/impl/RegexValidator.java:113 | `message.trim().isEmpty()` holds exactly when every character of the message is at or below U+0020. |
| RegexValidatorScenarios.ArrayScenario | src/java/com/strategicgains/syntaxe/validator/impl/RegexValidator.java:70-79 | With a nullable rule, the array `["ab", "2", "c3"]`, pattern `^[a-z]+$` and name `tag`, the findings are the default mismatch messages for `tag[1]` and `tag[2]` only, in that order. |
| RegexValidatorScenarios.CollectionScenario | src/java/com/strategicgains/syntaxe/validator/impl/RegexValidator.java:81-89 | With the same nullable rule and the same values as a collection, the findings are two default mismatch messages, both under `tag`. |
| RegexValidatorScenarios.NullElementScenario | src/java/com/strategicgains/syntaxe/validator/impl/RegexValidator.java:72-77 | A null element inside a non-null array under a non-nullable rule yields exactly the required check's output for `tag[0]`. |

## Left out

- The constructor, which compiles the annotation's pattern with `Pattern.compile` (lines 37-41). A `PatternSyntaxException` there is a library fault, not validator logic. The model starts from an already compiled `Pattern`.
- Regular-expression semantics. `Matcher.matches` is the `fullMatch` field of `Pattern`, and no property of it is assumed.
- `Validations.require` is not part of this model. It is the `require` parameter, and its messages are taken as given. Java hands it the shared error list itself (line 104); the model assumes it only appends to that list and never reads or changes what is already there. The append-only contracts (`errors <= r` on every operation) and `ValidateFromAnyErrors` / `PerformFromAnyErrors` rest on that assumption.
- RegexValidatorProperties.ArrayFindingsAttributed: covers nullable rules only. Under a non-nullable rule the required check's messages need not mention the element at all.
- Reflection in `AnnotatedFieldValidator`, which is not part of this model: `getValue`, `isCollection`, `isArray`, `getAnnotation` and `getFieldName`. The value, shape, annotation settings and field name are inputs (`Field`, `Rule`).
- A `ClassCastException` when a field declared as an array holds something other than an `Object[]`, such as a primitive array. The `Contents` type cannot express that state.
- Java `int` overflow of the array index `i`. Java arrays have fewer than 2^31 elements, so the index never wraps. The model uses an unbounded `nat`.
- Mutation of a shared `List<String>`, and any concurrent use of it. Each operation returns the extended list instead.
- Java strings are UTF-16 code units, while Dafny's `char` is a Unicode scalar value. `trim()` compares against U+0020 either way, so the blank test is unaffected.
- Strings.Trim: its own contract bounds only the length and the end characters. How the result sits inside the message is stated by `Strings.TrimIsInfix`, and its one use, `IsBlank`, is fully characterised by `Strings.BlankIffAllTrimmable`.
- RegexValidatorProperties.PerformFindingsNamed: covers nullable rules only. When the rule is not nullable, the required check also appends messages, and their text is unknown.
