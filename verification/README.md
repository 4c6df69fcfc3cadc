# Person validation and value matching from the Vavr workshop, in Dafny

This project models the parts of the Vavr workshop (`VavrWorkshop.java`) whose
logic the repository writes itself:

- `PersonValidator` checks a name and an age and combines the two checks
  applicatively into a `Validation<Seq<String>, Person>`. A name is valid
  when it consists only of characters of the class `[a-zA-Z ]`. An invalid
  name is reported as `Name contains invalid characters: '<chars>'`, where
  `<chars>` are the leftover characters with duplicates removed, in
  ascending order. An age is valid when it is at least `MIN_AGE = 0`.
  Otherwise the error is `Age must be at least 0`. When both checks pass the
  result is `Valid(Person(name, age))`. When either fails, every error is
  listed, the name's first.
- `Person` is a plain record of a name and an age. It is the `Person`
  datatype in `PersonValidator`.
- The pattern-matching example has two value-dispatch tables. The first maps
  `1` to "one", `2` to "two" and anything else to "?". The second maps
  "-h"/"--help" to help, "-v"/"--version" to version, and any other argument
  to an `IllegalArgumentException` that carries the argument.

The Vavr library features these rely on are restated as small local
definitions:

- `Validations`: `Validation` and `combine(...).ap(...)`, written as Vavr's
  builder does it, as a curried function applied through `ap` twice.
- `CharSeqs`: the `CharSeq` operations `replaceAll`, `distinct` and `sorted`.
- `Matching`: `Match(x).of(Case(...), ...)` with first-match semantics, and
  `MatchError` when no case matches.
- `JavaTypes`: Java's 32-bit `int`, as the subset type `Int32`.

The comment at `VavrWorkshop.java:201` gives the expected age error as
"Age must be greater than 0". The code at `:255` builds
"Age must be at least 0". The model follows the code: `AgeError` is the
code's text, and `InvalidExample` proves the comment's expected result with
that text in place of the comment's.

## Model

| member | source | states |
|---|---|---|
| Validations.Validation.Ap | src/test/java/it/thadumi/workshop/vavr/VavrWorkshop.java:243 | `v.ap(vf)` is valid exactly when both are valid, and then holds `vf`'s function applied to `v`'s value. Otherwise the errors already held by `vf` come first and `v`'s own error is appended last; a lone failure gives a one-entry list. |
| Validations.Combine2 | src/test/java/it/thadumi/workshop/vavr/VavrWorkshop.java:242-244 | `combine(v1, v2).ap(f)` is valid exactly when both checks are valid, and then holds `f` applied to both values. Otherwise it holds the errors of the failed checks: the first check's error, then the second's, so no failure is dropped. |
| CharSeqs.RemoveAll | src/test/java/it/thadumi/workshop/vavr/VavrWorkshop.java:239-247 | Replacing every match of a one-character class with "" keeps exactly the characters outside the class, each with its original number of occurrences, and never lengthens the text. |
| CharSeqs.Distinct | src/test/java/it/thadumi/workshop/vavr/VavrWorkshop.java:250 | `distinct()` keeps every character of the input and no other, with no character twice. |
| CharSeqs.Sort | src/test/java/it/thadumi/workshop/vavr/VavrWorkshop.java:250 | `sorted()` returns a permutation of its input in non-decreasing order. When the input has no duplicates, the order is strictly ascending. |
| CharSeqs.DistinctSorted | src/test/java/it/thadumi/workshop/vavr/VavrWorkshop.java:250 | `distinct().sorted()` lists exactly the characters of its input, once each, in strictly ascending order. |
| CharSeqs.StrictlyIncreasingUnique | src/test/java/it/thadumi/workshop/vavr/VavrWorkshop.java:250 | Two strictly ascending texts with the same characters are equal. So the listed characters depend only on which characters the name contains, not on the sort used. |
| PersonValidator.NameErrorShape | src/test/java/it/thadumi/workshop/vavr/VavrWorkshop.java:249-250 | The name error is the fixed prefix, the listed characters and a closing quote, and the listed characters can be read back from it. |
| PersonValidator.ValidateName | src/test/java/it/thadumi/workshop/vavr/VavrWorkshop.java:246-251 | A name is valid exactly when every character is an ASCII letter or a space, so the empty name is valid. A valid name is returned unchanged. An invalid name yields an error listing exactly its characters outside the class, each once, in ascending order. |
| PersonValidator.ReportUnique | src/test/java/it/thadumi/workshop/vavr/VavrWorkshop.java:249-250 | For a given name there is only one text that has the shape of a name error for it. |
| PersonValidator.NameErrorDetermined | src/test/java/it/thadumi/workshop/vavr/VavrWorkshop.java:246-251 | For an invalid name, the name check's result is exactly the error that lists its offending characters. |
| PersonValidator.ValidateAge | src/test/java/it/thadumi/workshop/vavr/VavrWorkshop.java:253-257 | An age is valid exactly when it is at least 0, so the boundary 0 is accepted. A valid age is returned unchanged. Every rejected age gets the error "Age must be at least 0". |
| PersonValidator.ValidatePerson | src/test/java/it/thadumi/workshop/vavr/VavrWorkshop.java:242-244 | Builds the Person (constructor at :231-234): the result is valid exactly when the name and the age are both valid, and the Person then has exactly the given name and age. When both fail, there are two errors: a name error for this name, then the age error. When only one fails, its error is the only entry. |
| PersonValidator.BothFail | src/test/java/it/thadumi/workshop/vavr/VavrWorkshop.java:242-244 | When both checks fail, the error list is exactly two entries: the name error, then the age error. |
| PersonValidator.OnlyNameFailsIgnoresAge | src/test/java/it/thadumi/workshop/vavr/VavrWorkshop.java:243 | When only the name fails, the result is the same for every valid age, so the age plays no part. |
| PersonValidator.OnlyAgeFailsIgnoresName | src/test/java/it/thadumi/workshop/vavr/VavrWorkshop.java:243 | When only the age fails, the result is the same for every valid name, so the name plays no part. |
| PersonValidator.ValidExample | src/test/java/it/thadumi/workshop/vavr/VavrWorkshop.java:198-199 | `validatePerson("John Doe", 30)` is `Valid(Person(John Doe, 30))`. |
| PersonValidator.InvalidExampleOffending | src/test/java/it/thadumi/workshop/vavr/VavrWorkshop.java:201-202 | The characters of "John? Doe!4" outside the class are exactly '!', '4' and '?'. |
| PersonValidator.InvalidExampleNameError | src/test/java/it/thadumi/workshop/vavr/VavrWorkshop.java:201-202 | For "John? Doe!4", the name error lists '!4?'. |
| PersonValidator.InvalidExample | src/test/java/it/thadumi/workshop/vavr/VavrWorkshop.java:201-202 | `validatePerson("John? Doe!4", -1)` reports the name error listing '!4?', followed by the age error. |
| Matching.MatchOf | src/test/java/it/thadumi/workshop/vavr/VavrWorkshop.java:155-159 | `Match(x).of(cases)` fails with `MatchError` exactly when no case matches. Otherwise it returns the result of a case that matches, with no earlier case matching. |
| Matching.FirstMatchDecides | src/test/java/it/thadumi/workshop/vavr/VavrWorkshop.java:155-159 | The first case whose pattern matches gives the result of the match. |
| Matching.WildcardLastIsTotal | src/test/java/it/thadumi/workshop/vavr/VavrWorkshop.java:185 | A case list that ends with the wildcard `$()` always matches. |
| PatternMatching.LiteralMatch | src/test/java/it/thadumi/workshop/vavr/VavrWorkshop.java:155-159 | The literal match is total. It gives "one" exactly for 1, "two" exactly for 2, and "?" exactly for every other int. |
| PatternMatching.ClassifyArg | src/test/java/it/thadumi/workshop/vavr/VavrWorkshop.java:182-188 | "-h" and "--help", and only they, select help. "-v" and "--version", and only they, select version. Every other argument is rejected with an `IllegalArgumentException` that carries that argument. |

## Left out

- Every other example method is left out: `functions`, `function2`, `partial_functions_and_total`, `option`, `stream`, the `Number` and `Option` matches, and `properties`. They only exercise library behaviour (memoization, currying, Option/Try/Either, lazy streams with floating point, runtime-type and structural patterns, random property testing) and print the results.
- Console output is not modelled. This covers `System.out.println`, `displayHelp` and `displayVersion`. `ClassifyArg` records which branch `run` would execute, not its output.
- The thrown `IllegalArgumentException` is modelled as a result value, `IllegalArgument(arg)`, not as control flow.
- A `null` name is not modelled. In Java it fails with a `NullPointerException` before any check runs.
- Characters are Dafny `char` values (Unicode scalar values), compared by code point. In Java, `CharSeq.distinct()` and `sorted()` both work on UTF-16 code units. Inside the Basic Multilingual Plane the two views agree. Outside it, the listed characters can differ in content as well as in order: for "😀😁", Java drops the repeated high surrogate and lists an unpaired low surrogate, while `ValidateName` lists both emoji whole. A Java `String` holding unpaired surrogates cannot be expressed as a Dafny `string` at all.
- The Java regular-expression engine behind `replaceAll` is not modelled. For the single-character class `[a-zA-Z ]`, replacing every match with "" is the same as removing each character of the class, and that is what `CharSeqs.RemoveAll` does.
- `PersonValidator.AgeError` is the literal "Age must be at least 0". javac folds `"Age must be at least " + MIN_AGE` into that text at compile time, so general integer-to-text conversion is not modelled.
- Vavr's own source (`Validation`, `CharSeq`, `API.Match`) is not part of this model. `Validations.Combine2` restates the library's documented accumulation order, `CharSeqs` restates the three `CharSeq` operations, and `Matching.MatchOf` restates the first-match rule. The restatements cover only the patterns the workshop uses: `$(v)`, `$(isIn(...))` and `$()`.
