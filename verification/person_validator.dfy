/**
 * `Person` and `PersonValidator`: a name check, an age check, and their
 * combination into a validated `Person` that reports every failed check.
 */
module PersonValidator {
  import opened JavaTypes
  import opened Validations
  import opened CharSeqs

  /** A plain record of a name and an age. */
  datatype Person = Person(name: string, age: Int32)

  /** `MIN_AGE`: the smallest accepted age. */
  const MinAge: Int32 := 0

  /** The age error; the constant `MIN_AGE` is folded into the text. */
  const AgeError: string := "Age must be at least 0"

  /** The text in front of the listed characters of a name error. */
  const NameErrorPrefix: string := "Name contains invalid characters: '"

  /** `VALID_NAME_CHARS`, the class `[a-zA-Z ]`: an ASCII letter or a space. */
  predicate IsNameChar(c: char) {
    'a' <= c <= 'z' || 'A' <= c <= 'Z' || c == ' '
  }

  /** Every character of the name belongs to the class. */
  predicate IsValidName(name: string) {
    forall i :: 0 <= i < |name| ==> IsNameChar(name[i])
  }

  /** The characters a name error lists: those between the prefix and the closing quote. */
  function Listed(msg: string): string
    requires |NameErrorPrefix| < |msg|
  {
    msg[|NameErrorPrefix|..|msg| - 1]
  }

  /**
   * `msg` is a name error for `name`: the prefix, then each character of
   * `name` outside the class exactly once in ascending order, then a quote.
   */
  predicate ReportsOffending(msg: string, name: string) {
    && |NameErrorPrefix| < |msg|
    && msg[..|NameErrorPrefix|] == NameErrorPrefix
    && msg[|msg| - 1] == '\''
    && StrictlyIncreasing(Listed(msg))
    && (forall c :: c in Listed(msg) <==> c in name && !IsNameChar(c))
  }

  /** The prefix, the listed characters and the quote can be read back from a name error. */
  lemma NameErrorShape(listed: string)
    ensures var msg := NameErrorPrefix + listed + "'";
      && |NameErrorPrefix| < |msg|
      && msg[..|NameErrorPrefix|] == NameErrorPrefix
      && msg[|msg| - 1] == '\''
      && Listed(msg) == listed
  {
  }

  /**
   * `validateName`: removes every character of the class; the name is valid
   * when nothing is left, otherwise the leftovers, without duplicates and
   * sorted, are quoted in the error.
   */
  function ValidateName(name: string): (r: Validation<string, string>)
    ensures r.Valid? <==> IsValidName(name)
    ensures r.Valid? ==> r.value == name
    ensures r.Invalid? ==> ReportsOffending(r.error, name)
  {
    var rest := RemoveAll(name, IsNameChar);
    if |rest| == 0 then
      Valid(name)
    else
      var msg := NameErrorPrefix + DistinctSorted(rest) + "'";
      NameErrorShape(DistinctSorted(rest));
      Invalid(msg)
  }

  /** `validateAge`: ages below `MIN_AGE` are rejected, the others kept. */
  function ValidateAge(age: Int32): (r: Validation<string, Int32>)
    ensures r.Valid? <==> 0 <= age
    ensures r.Valid? ==> r.value == age
    ensures r.Invalid? ==> r.error == AgeError
  {
    if age < MinAge then Invalid(AgeError) else Valid(age)
  }

  /**
   * `validatePerson`: both checks run, the person is built when both pass,
   * and otherwise the errors are listed name first and age second.
   */
  function ValidatePerson(name: string, age: Int32): (r: Validation<seq<string>, Person>)
    ensures r.Valid? <==> IsValidName(name) && 0 <= age
    ensures r.Valid? ==> r.value.name == name && r.value.age == age
    ensures !IsValidName(name) && age < 0 ==>
              |r.error| == 2 && ReportsOffending(r.error[0], name) && r.error[1] == AgeError
    ensures !IsValidName(name) && 0 <= age ==>
              |r.error| == 1 && ReportsOffending(r.error[0], name)
    ensures IsValidName(name) && age < 0 ==> r.error == [AgeError]
  {
    var vn, va := ValidateName(name), ValidateAge(age);
    Combine2(vn, va, (n: string, a: Int32) => Person(n, a))
  }

  /** A name error is determined by the name: two of them for one name are the same text. */
  lemma ReportUnique(m1: string, m2: string, name: string)
    requires ReportsOffending(m1, name) && ReportsOffending(m2, name)
    ensures m1 == m2
  {
    StrictlyIncreasingUnique(Listed(m1), Listed(m2));
    assert m1 == m1[..|NameErrorPrefix|] + Listed(m1) + [m1[|m1| - 1]];
    assert m2 == m2[..|NameErrorPrefix|] + Listed(m2) + [m2[|m2| - 1]];
  }

  /** A failed name check reports exactly the error that lists the name's offending characters. */
  lemma NameErrorDetermined(name: string, msg: string)
    requires !IsValidName(name) && ReportsOffending(msg, name)
    ensures ValidateName(name) == Invalid(msg)
  {
    ReportUnique(ValidateName(name).error, msg, name);
  }

  /** When only the name fails, the age plays no part in the result. */
  lemma OnlyNameFailsIgnoresAge(name: string, a1: Int32, a2: Int32)
    requires !IsValidName(name) && 0 <= a1 && 0 <= a2
    ensures ValidatePerson(name, a1) == ValidatePerson(name, a2)
  {
  }

  /** When only the age fails, the name plays no part in the result. */
  lemma OnlyAgeFailsIgnoresName(n1: string, n2: string, age: Int32)
    requires IsValidName(n1) && IsValidName(n2) && age < 0
    ensures ValidatePerson(n1, age) == ValidatePerson(n2, age)
  {
  }

  /** The valid call of the workshop builds the person it describes. */
  lemma ValidExample()
    ensures ValidatePerson("John Doe", 30) == Valid(Person("John Doe", 30))
  {
    assert IsValidName("John Doe");
  }

  /** The characters of "John? Doe!4" outside the class are exactly '!', '4' and '?'. */
  lemma InvalidExampleOffending()
    ensures forall c :: c in "!4?" <==> c in "John? Doe!4" && !IsNameChar(c)
  {
  }

  /** The name error the workshop records for "John? Doe!4" lists '!', '4' and '?'. */
  lemma InvalidExampleNameError()
    ensures ReportsOffending("Name contains invalid characters: '!4?'", "John? Doe!4")
  {
    NameErrorShape("!4?");
    assert "Name contains invalid characters: '!4?'" == NameErrorPrefix + "!4?" + "'";
    InvalidExampleOffending();
  }

  /** When both checks fail, the result is exactly the name error followed by the age error. */
  lemma BothFail(name: string, age: Int32, nameError: string)
    requires !IsValidName(name) && age < 0
    requires ReportsOffending(nameError, name)
    ensures ValidatePerson(name, age) == Invalid([nameError, AgeError])
  {
    var r := ValidatePerson(name, age);
    ReportUnique(r.error[0], nameError, name);
    assert r.error == [r.error[0], r.error[1]];
  }

  /** The invalid call of the workshop reports both errors, the name's first. */
  lemma InvalidExample()
    ensures ValidatePerson("John? Doe!4", -1)
              == Invalid(["Name contains invalid characters: '!4?'", AgeError])
  {
    InvalidExampleNameError();
    assert !IsNameChar("John? Doe!4"[4]);
    BothFail("John? Doe!4", -1, "Name contains invalid characters: '!4?'");
  }
}
