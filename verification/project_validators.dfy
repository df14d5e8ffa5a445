/**
 The project-level validators: the pattern-based username check attached to the
 `username` column of the account model, and the year check of titles.

 In the character class `[a-zA-Z0-9.@+-_]` the three characters `+-_` form a
 range, U+002B..U+005F, which besides `+`, `-` and `_` holds
 `, . / 0-9 : ; < = > ? @ A-Z [ \ ] ^`. The pattern is applied with a
 start-anchored match, and its `$` also matches just before one newline that
 ends the string.
 */
module ProjectValidators {
  import opened Wrappers
  import opened Usernames

  /** Membership in the character class as the regular-expression engine reads it. */
  predicate InPatternClass(c: char) {
    IsAsciiLetter(c) || IsAsciiDigit(c) || c == '.' || c == '@' || ('+' <= c <= '_')
  }

  predicate AllInPatternClass(s: string) {
    forall i :: 0 <= i < |s| ==> InPatternClass(s[i])
  }

  /** How many leading characters the greedy `[...]+` consumes. */
  function GreedyPrefix(s: string): (n: nat)
    ensures n <= |s|
    ensures forall i :: 0 <= i < n ==> InPatternClass(s[i])
    ensures n < |s| ==> !InPatternClass(s[n])
  {
    if s == [] || !InPatternClass(s[0]) then 0 else 1 + GreedyPrefix(s[1..])
  }

  /**
   Whether the start-anchored match of `^[...]+$` succeeds: after the greedy run
   `$` must see the end of the string or a final newline. Giving back characters
   cannot help, since every character of the run is in the class and so is
   neither the end nor a newline.
   */
  function PatternMatches(s: string): (matched: bool)
    ensures matched <==>
      (|s| >= 1 && AllInPatternClass(s)) ||
      (|s| >= 2 && s[|s| - 1] == '\n' && AllInPatternClass(s[..|s| - 1]))
  {
    var n := GreedyPrefix(s);
    assert !InPatternClass('\n');
    n >= 1 && (n == |s| || (n == |s| - 1 && s[n] == '\n'))
  }

  /** `validate_username` of the project: the reserved word, then the pattern. */
  function ValidateUsername(value: string): (o: Outcome<UsernameError>)
    ensures o.Pass? <==> value != Reserved && PatternMatches(value)
    ensures value == Reserved ==> o == Fail(ReservedWord)
    ensures value != Reserved && o.Fail? ==> o == Fail(PatternMismatch)
  {
    if value == Reserved then Fail(ReservedWord)
    else if !PatternMatches(value) then Fail(PatternMismatch)
    else Pass
  }

  /** The empty name fails, because the class must match at least once. */
  lemma EmptyRejected()
    ensures ValidateUsername("") == Fail(PatternMismatch)
  {
  }

  /** Every character of the range, on its own, forms an accepted name. */
  lemma RangeCharacterAccepted(c: char)
    requires '+' <= c <= '_'
    ensures ValidateUsername([c]) == Pass
  {
    assert [c] != Reserved;
    assert AllInPatternClass([c]);
  }

  /** Names built only from the explicit allowed set pass here too, when non-empty. */
  lemma ExplicitSetImpliesPattern(s: string)
    requires s != [] && s != Reserved && AllAllowed(s)
    ensures ValidateUsername(s) == Pass
  {
    assert AllInPatternClass(s);
  }

  /** As written, a slash, angle brackets, square brackets and a comma are accepted. */
  lemma PunctuationAccepted()
    ensures ValidateUsername("a/b") == Pass && !AllAllowed("a/b")
    ensures ValidateUsername("x<y>") == Pass
    ensures ValidateUsername("[x]") == Pass
    ensures ValidateUsername("a,b") == Pass
  {
    assert "a/b"[1] == '/';
    assert AllInPatternClass("a/b");
    assert AllInPatternClass("x<y>");
    assert AllInPatternClass("[x]");
    assert AllInPatternClass("a,b");
  }

  /** As written, an accepted name followed by one newline is accepted as well. */
  lemma TrailingNewlineAccepted(s: string)
    requires s != [] && s != Reserved && AllInPatternClass(s)
    ensures ValidateUsername(s + "\n") == Pass
  {
    var t := s + "\n";
    assert t[..|t| - 1] == s;
    assert t != Reserved by {
      assert t[|t| - 1] == '\n';
    }
  }

  /**
   The check the pattern evidently means: `+`, `-` and `_` as three literal
   characters and the whole string matched, i.e. a non-empty name drawn from the
   explicit allowed set, other than the reserved word.
   */
  function IntendedValidateUsername(value: string): (o: Outcome<UsernameError>)
    ensures o.Pass? <==> value != [] && value != Reserved && AllAllowed(value)
  {
    if value == Reserved then Fail(ReservedWord)
    else if value == [] || InvalidCharacters(value) != {} then
      NoInvalidCharactersIffAllAllowed(value);
      Fail(PatternMismatch)
    else
      NoInvalidCharactersIffAllAllowed(value);
      Pass
  }

  /** The intended check rejects the inputs the written pattern lets through, and accepts only what the written pattern accepts. */
  lemma IntendedClosesTheGaps(s: string)
    ensures IntendedValidateUsername("a/b").Fail?
    ensures IntendedValidateUsername("abc\n").Fail?
    ensures ValidateUsername("abc\n") == Pass
    ensures IntendedValidateUsername(s) == Pass ==> ValidateUsername(s) == Pass
  {
    assert !AllAllowed("a/b") by { assert "a/b"[1] == '/'; }
    assert !AllAllowed("abc\n") by { assert "abc\n"[3] == '\n'; }
    assert AllInPatternClass("abc");
    TrailingNewlineAccepted("abc");
    assert "abc" + "\n" == "abc\n";
    if IntendedValidateUsername(s) == Pass {
      ExplicitSetImpliesPattern(s);
    }
  }

  datatype YearError = YearInFuture(value: int, currentYear: int)

  /** `validate_year`, with the clock reading passed in as `currentYear`. */
  function ValidateYear(value: int, currentYear: int): (o: Outcome<YearError>)
    ensures o.Pass? <==> value <= currentYear
    ensures o.Fail? ==> o.error.value == value && o.error.currentYear == currentYear
  {
    if value > currentYear then Fail(YearInFuture(value, currentYear)) else Pass
  }

  /** The current year itself passes, and there is no lower bound. */
  lemma YearBoundary(currentYear: int, past: int)
    requires past <= currentYear
    ensures ValidateYear(currentYear, currentYear) == Pass
    ensures ValidateYear(past, currentYear) == Pass
    ensures ValidateYear(currentYear + 1, currentYear).Fail?
  {
  }
}
