/**
 Character classes and error values shared by the username validators.

 The explicit allowed set is the literal
 `abcdefghijklmnopqrstuvwxyzABCDEFGHIJKLMNOPQRSTUVWXYZ0123456789.@+-_`
 that two of the validators subtract from a name's characters; it is written
 here as the ranges it enumerates.
 */
module Usernames {

  /** The one name every validator but one reserves for the self-profile alias. */
  const Reserved: string := "me"

  datatype UsernameError =
    | ReservedWord
    | BadCharacters(chars: set<char>)
    | PatternMismatch

  predicate IsAsciiLetter(c: char) {
    'a' <= c <= 'z' || 'A' <= c <= 'Z'
  }

  predicate IsAsciiDigit(c: char) {
    '0' <= c <= '9'
  }

  /** Membership in the explicit allowed set. */
  predicate InAllowedSet(c: char) {
    IsAsciiLetter(c) || IsAsciiDigit(c) || c == '.' || c == '@' || c == '+' || c == '-' || c == '_'
  }

  predicate AllAllowed(s: string) {
    forall i :: 0 <= i < |s| ==> InAllowedSet(s[i])
  }

  /** The characters of `s` outside the allowed set, gathered one character at a time. */
  function InvalidCharacters(s: string): (bad: set<char>)
    ensures forall c :: c in bad <==> c in s && !InAllowedSet(c)
  {
    if s == [] then {}
    else (if InAllowedSet(s[0]) then {} else {s[0]}) + InvalidCharacters(s[1..])
  }

  /** No invalid character is reported exactly when every character is allowed. */
  lemma NoInvalidCharactersIffAllAllowed(s: string)
    ensures InvalidCharacters(s) == {} <==> AllAllowed(s)
  {
    if InvalidCharacters(s) == {} {
      forall i | 0 <= i < |s| ensures InAllowedSet(s[i]) {
        assert s[i] in s;
        assert s[i] !in InvalidCharacters(s);
      }
    } else {
      var c :| c in InvalidCharacters(s);
      var i :| 0 <= i < |s| && s[i] == c;
      assert !InAllowedSet(s[i]);
    }
  }
}

/** The validator of the `user` application: reserved word first, then the explicit set. */
module UserValidators {
  import opened Wrappers
  import opened Usernames

  function ValidateUsername(value: string): (o: Outcome<UsernameError>)
    ensures o.Pass? <==> value != Reserved && AllAllowed(value)
    ensures value == Reserved ==> o == Fail(ReservedWord)
    ensures value != Reserved && o.Fail? ==>
      o.error.BadCharacters? && o.error.chars != {} &&
      forall c :: c in o.error.chars <==> c in value && !InAllowedSet(c)
  {
    NoInvalidCharactersIffAllAllowed(value);
    var invalid := InvalidCharacters(value);
    if value == Reserved then Fail(ReservedWord)
    else if invalid != {} then Fail(BadCharacters(invalid))
    else Pass
  }

  /** The empty name passes: nothing in it lies outside the allowed set. */
  lemma EmptyAccepted()
    ensures ValidateUsername("") == Pass
  {
  }

  /** Only the exact value is reserved: a different case or a longer name passes. */
  lemma OnlyExactMeReserved()
    ensures ValidateUsername("me") == Fail(ReservedWord)
    ensures ValidateUsername("Me") == Pass
    ensures ValidateUsername("me1") == Pass
  {
    assert AllAllowed("Me");
    assert AllAllowed("me1");
  }
}

/** The validator of the `api` application: the explicit set only, no reserved word. */
module ApiValidators {
  import opened Wrappers
  import opened Usernames

  function ValidateUsername(value: string): (o: Outcome<UsernameError>)
    ensures o.Pass? <==> AllAllowed(value)
    ensures o.Fail? ==>
      o.error.BadCharacters? && o.error.chars != {} &&
      forall c :: c in o.error.chars <==> c in value && !InAllowedSet(c)
  {
    NoInvalidCharactersIffAllAllowed(value);
    var invalid := InvalidCharacters(value);
    if invalid != {} then Fail(BadCharacters(invalid)) else Pass
  }

  /** The reserved word and the empty name both pass this validator. */
  lemma MeAndEmptyAccepted()
    ensures ValidateUsername("me") == Pass
    ensures ValidateUsername("") == Pass
  {
    assert AllAllowed("me");
  }
}
