/**
 Payload validation of the API: the account serializer used for sign-up, for
 account creation by an administrator and for the self-profile; the review and
 comment serializers with their read-only fields and the duplicate-review check.
 */
module Serializers {
  import opened Wrappers
  import opened Text
  import opened Users
  import opened Usernames
  import opened Catalog
  import opened Permissions
  import ProjectValidators

  /** `max_length` of the username and email fields of the account serializer. */
  const MaxUsernameLength: nat := 150
  const MaxEmailLength: nat := 254

  /**
   The settings `MAX_USER_LENGTH` and `MAX_EMAIL_LENGTH`: the model's limits on
   the username and the names, and on the email.
   */
  const MaxUserLength: nat := 150
  const MaxUserEmailLength: nat := 254

  datatype Problem =
    | Missing
    | BlankValue
    | TooLong
    | NoMatch
    | NotAnEmail
    | NullCharacter
    | NotAChoice
    | ReservedName
    | OutOfRange
    | DuplicateReview

  // ---------------------------------------------------------------------------
  // Character fields
  // ---------------------------------------------------------------------------

  /**
   Every character field of the framework refuses a value holding the null
   character, after stripping.
   */
  predicate HasNullCharacter(v: string) {
    '\0' in v
  }

  /** A sent value as a character field hands it on: stripped of surrounding whitespace. */
  function Stripped(v: Option<string>): (r: Option<string>)
    ensures r.Some? <==> v.Some?
    ensures v.Some? ==> r.value == Strip(v.value)
  {
    match v
    case None => None
    case Some(x) => Some(Strip(x))
  }

  /**
   A required character field: a value that is blank once stripped is refused
   as blank; otherwise the stripped value is validated and handed on.
   */
  function CheckTextField(value: string): (r: Result<string, seq<Problem>>)
    ensures r.Ok? <==> Strip(value) != [] && !HasNullCharacter(Strip(value))
    ensures r.Ok? ==> r.value == Strip(value)
    ensures AllWhitespace(value) ==> r == Err([BlankValue])
  {
    var v := Strip(value);
    if v == [] then Err([BlankValue])
    else if HasNullCharacter(v) then Err([NullCharacter])
    else Ok(v)
  }

  /** A required character field with a `max_length` (the title's name): the limit applies to the stripped value. */
  function CheckLimitedTextField(value: string, limit: nat): (r: Result<string, seq<Problem>>)
    ensures r.Ok? <==> 0 < |Strip(value)| <= limit && !HasNullCharacter(Strip(value))
    ensures r.Ok? ==> r.value == Strip(value)
    ensures AllWhitespace(value) ==> r == Err([BlankValue])
  {
    match CheckTextField(value)
    case Err(e) => Err(e)
    case Ok(v) => if |v| > limit then Err([TooLong]) else Ok(v)
  }

  /** A character field that allows blank and has no length limit (the biography): stripped, and blank is kept. */
  function CheckBlankableField(value: string): (r: Result<string, seq<Problem>>)
    ensures r.Ok? <==> !HasNullCharacter(Strip(value))
    ensures r.Ok? ==> r.value == Strip(value)
  {
    var v := Strip(value);
    if HasNullCharacter(v) then Err([NullCharacter]) else Ok(v)
  }

  /** A blankable character field with a `max_length` (names, title description): the limit applies to the stripped value. */
  function CheckLimitedBlankableField(value: string, limit: nat): (r: Result<string, seq<Problem>>)
    ensures r.Ok? <==> |Strip(value)| <= limit && !HasNullCharacter(Strip(value))
    ensures r.Ok? ==> r.value == Strip(value)
  {
    var v := Strip(value);
    var problems :=
      (if |v| > limit then [TooLong] else []) +
      (if HasNullCharacter(v) then [NullCharacter] else []);
    if problems != [] then Err(problems) else Ok(v)
  }

  /** Surrounding whitespace never decides whether a required text is accepted, nor what is kept. */
  lemma TextFieldIgnoresPadding(before: string, value: string, after: string)
    requires AllWhitespace(before) && AllWhitespace(after)
    ensures CheckTextField(before + value + after) == CheckTextField(value)
  {
    PaddingIgnored(before, value, after);
  }

  /** A text of spaces and tabs is blank, and a padded word is kept without its padding. */
  lemma BlankAndPaddedText()
    ensures CheckTextField("   ") == Err([BlankValue])
    ensures CheckTextField("\t ok ") == Ok("ok")
  {
    assert AllWhitespace("   ");
    assert Strip("\t ok ") == "ok" by {
      assert "\t ok " == "\t " + "ok" + " ";
      PaddedWord("\t ", "ok", " ");
    }
  }

  // ---------------------------------------------------------------------------
  // The account serializer
  // ---------------------------------------------------------------------------

  /** The class `[\w.@+-]`, with `\w` read as ASCII letters, digits and underscore. */
  predicate InWordPatternClass(c: char) {
    IsAsciiLetter(c) || IsAsciiDigit(c) || c == '_' || c == '.' || c == '@' || c == '+' || c == '-'
  }

  predicate AllInWordPatternClass(s: string) {
    forall i :: 0 <= i < |s| ==> InWordPatternClass(s[i])
  }

  /** The sign-up pattern admits exactly the characters of the explicit allowed set. */
  lemma WordPatternIsAllowedSet(s: string)
    ensures AllInWordPatternClass(s) <==> AllAllowed(s)
  {
    assert forall c :: InWordPatternClass(c) <==> InAllowedSet(c);
  }

  /** `UserCreateSerializer.validate_username`: refuses the reserved word, returns anything else unchanged. */
  function ValidateUsernameHook(value: string): (r: Result<string, Problem>)
    ensures r.Ok? <==> value != Reserved
    ensures r.Ok? ==> r.value == value
    ensures r.Err? ==> r.error == ReservedName
  {
    if value == Reserved then Err(ReservedName) else Ok(value)
  }

  /**
   The username field: the value is stripped; blank is refused first; then the
   length, null-character and pattern validators run and report together; only
   a value that passed them reaches the reserved-word hook.
   */
  function CheckUsernameField(value: string): (r: Result<string, seq<Problem>>)
    ensures r.Ok? <==>
      0 < |Strip(value)| <= MaxUsernameLength && AllInWordPatternClass(Strip(value)) && Strip(value) != Reserved
    ensures r.Ok? ==> r.value == Strip(value)
    ensures Strip(value) == Reserved ==> r == Err([ReservedName])
  {
    var v := Strip(value);
    if v == [] then Err([BlankValue])
    else
      var problems :=
        (if |v| > MaxUsernameLength then [TooLong] else []) +
        (if HasNullCharacter(v) then [NullCharacter] else []) +
        (if !AllInWordPatternClass(v) then [NoMatch] else []);
      if problems != [] then Err(problems)
      else match ValidateUsernameHook(v)
        case Ok(u) => Ok(u)
        case Err(e) => Err([e])
  }

  /**
   The email field: stripped; required, non-blank, at most 254 characters,
   without a null character, and well formed by `looksLikeEmail`.
   */
  function CheckEmailField(value: string, looksLikeEmail: string -> bool): (r: Result<string, seq<Problem>>)
    ensures r.Ok? <==>
      0 < |Strip(value)| <= MaxEmailLength && !HasNullCharacter(Strip(value)) && looksLikeEmail(Strip(value))
    ensures r.Ok? ==> r.value == Strip(value)
  {
    var v := Strip(value);
    if v == [] then Err([BlankValue])
    else
      var problems :=
        (if |v| > MaxEmailLength then [TooLong] else []) +
        (if HasNullCharacter(v) then [NullCharacter] else []) +
        (if !looksLikeEmail(v) then [NotAnEmail] else []);
      if problems != [] then Err(problems) else Ok(v)
  }

  /** The fields a client may send to the account serializer, each possibly absent. */
  datatype UserPayload = UserPayload(
    username: Option<string>,
    email: Option<string>,
    firstName: Option<string>,
    lastName: Option<string>,
    bio: Option<string>,
    role: Option<string>)

  /** What validation hands on: the same fields, with the role parsed. */
  datatype UserData = UserData(
    username: Option<string>,
    email: Option<string>,
    firstName: Option<string>,
    lastName: Option<string>,
    bio: Option<string>,
    role: Option<Role>)

  /** A present field is checked; an absent one is an error unless the update is partial. */
  function CheckOptional<T>(v: Option<string>, partial: bool, check: string -> Result<T, seq<Problem>>)
    : (r: Result<Option<T>, seq<Problem>>)
    ensures v.None? ==> (r.Ok? <==> partial) && (r.Ok? ==> r.value == None)
    ensures v.Some? ==> (r.Ok? <==> check(v.value).Ok?) && (r.Ok? ==> r.value == Some(check(v.value).value))
  {
    match v
    case None => if partial then Ok(None) else Err([Missing])
    case Some(x) =>
      match check(x)
      case Ok(y) => Ok(Some(y))
      case Err(e) => Err(e)
  }

  function CheckRoleField(value: string): (r: Result<Role, seq<Problem>>)
    ensures r.Ok? <==> ParseRole(value).Some?
    ensures r.Ok? ==> r.value.Key() == value
  {
    match ParseRole(value)
    case Some(role) => Ok(role)
    case None => Err([NotAChoice])
  }

  /**
   The names and biography, which allow blank: each sent one is stripped and
   must hold no null character; a first or last name is at most
   `MaxUserLength` long, while the biography has no limit.
   */
  predicate NamesClean(p: UserPayload) {
    && (p.firstName.Some? ==> |Strip(p.firstName.value)| <= MaxUserLength && !HasNullCharacter(Strip(p.firstName.value)))
    && (p.lastName.Some? ==> |Strip(p.lastName.value)| <= MaxUserLength && !HasNullCharacter(Strip(p.lastName.value)))
    && (p.bio.Some? ==> !HasNullCharacter(Strip(p.bio.value)))
  }

  /** Validated data carry the stripped sent values and the parsed role. */
  predicate CarriesPayload(d: UserData, p: UserPayload) {
    && d.username == Stripped(p.username) && d.email == Stripped(p.email)
    && d.firstName == Stripped(p.firstName) && d.lastName == Stripped(p.lastName) && d.bio == Stripped(p.bio)
    && (p.role.Some? ==> d.role.Some? && d.role.value.Key() == p.role.value)
    && (p.role.None? ==> d.role.None?)
  }

  /** The names and biography as the serializer hands them on. */
  function CheckNames(p: UserPayload): (r: Result<(Option<string>, Option<string>, Option<string>), seq<Problem>>)
    ensures r.Ok? <==> NamesClean(p)
    ensures r.Ok? ==> r.value == (Stripped(p.firstName), Stripped(p.lastName), Stripped(p.bio))
  {
    var first := CheckOptional(p.firstName, true, (v: string) => CheckLimitedBlankableField(v, MaxUserLength));
    var last := CheckOptional(p.lastName, true, (v: string) => CheckLimitedBlankableField(v, MaxUserLength));
    var bio := CheckOptional(p.bio, true, CheckBlankableField);
    if first.Err? || last.Err? || bio.Err? then
      Err((if first.Err? then first.error else []) +
          (if last.Err? then last.error else []) +
          (if bio.Err? then bio.error else []))
    else Ok((first.value, last.value, bio.value))
  }

  /**
   The account serializer's validation. `partial` is set by the self-profile
   update: username and email may then be left out.
   */
  function ValidateUserPayload(p: UserPayload, partial: bool, looksLikeEmail: string -> bool)
    : (r: Result<UserData, seq<Problem>>)
    ensures r.Ok? <==>
      && (p.username.Some? ==> CheckUsernameField(p.username.value).Ok?)
      && (p.email.Some? ==> CheckEmailField(p.email.value, looksLikeEmail).Ok?)
      && NamesClean(p)
      && (p.role.Some? ==> ParseRole(p.role.value).Some?)
      && (!partial ==> p.username.Some? && p.email.Some?)
    ensures r.Ok? ==> CarriesPayload(r.value, p)
  {
    var username := CheckOptional(p.username, partial, CheckUsernameField);
    var email := CheckOptional(p.email, partial, (e: string) => CheckEmailField(e, looksLikeEmail));
    var names := CheckNames(p);
    var role := CheckOptional(p.role, true, CheckRoleField);
    var problems :=
      (if username.Err? then username.error else []) +
      (if email.Err? then email.error else []) +
      (if names.Err? then names.error else []) +
      (if role.Err? then role.error else []);
    if username.Err? || email.Err? || names.Err? || role.Err? then
      Err(if problems == [] then [Missing] else problems)
    else
      Ok(UserData(username.value, email.value, names.value.0, names.value.1, names.value.2, role.value))
  }

  /**
   A full account payload is valid exactly when its stripped username and
   email are, its names hold no null character, and its role (if sent) is a
   choice.
   */
  lemma SignUpPayloadRules(p: UserPayload, looksLikeEmail: string -> bool)
    ensures ValidateUserPayload(p, false, looksLikeEmail).Ok? <==>
      && p.username.Some? && 0 < |Strip(p.username.value)| <= MaxUsernameLength
      && AllAllowed(Strip(p.username.value)) && Strip(p.username.value) != Reserved
      && p.email.Some? && 0 < |Strip(p.email.value)| <= MaxEmailLength
      && !HasNullCharacter(Strip(p.email.value)) && looksLikeEmail(Strip(p.email.value))
      && NamesClean(p)
      && (p.role.Some? ==> ParseRole(p.role.value).Some?)
  {
    if p.username.Some? {
      WordPatternIsAllowedSet(Strip(p.username.value));
    }
  }

  /** A sign-up username is stripped before it is checked: " bob " signs up "bob", and "   " is blank. */
  lemma SignUpUsernameStripped()
    ensures CheckUsernameField(" bob ") == Ok("bob")
    ensures CheckUsernameField("   ") == Err([BlankValue])
  {
    assert Strip(" bob ") == "bob" by {
      assert " bob " == " " + "bob" + " ";
      PaddedWord(" ", "bob", " ");
    }
    assert AllInWordPatternClass("bob");
    assert Strip("   ") == [] by {
      assert AllWhitespace("   ");
    }
  }

  /** A word with no whitespace at its ends, padded with whitespace, strips back to the word. */
  lemma PaddedWord(before: string, word: string, after: string)
    requires AllWhitespace(before) && AllWhitespace(after) && Trimmed(word)
    ensures Strip(before + word + after) == word
  {
    PaddingIgnored(before, word, after);
  }

  /**
   The account serializer generated from the model, used by administrators to
   update an account: the username field carries the model's validator, the
   email field the email format; every field is optional (a partial update)
   and every character field is stripped. Uniqueness is checked against the
   store by the caller.
   */
  function ValidateAccountUpdate(p: UserPayload, looksLikeEmail: string -> bool): (r: Result<UserData, seq<Problem>>)
    ensures r.Ok? <==>
      && (p.username.Some? ==> CheckModelUsernameField(p.username.value).Ok?)
      && (p.email.Some? ==> CheckModelEmailField(p.email.value, looksLikeEmail).Ok?)
      && NamesClean(p)
      && (p.role.Some? ==> ParseRole(p.role.value).Some?)
    ensures r.Ok? ==> CarriesPayload(r.value, p)
  {
    var username := CheckOptional(p.username, true, CheckModelUsernameField);
    var email := CheckOptional(p.email, true, (e: string) => CheckModelEmailField(e, looksLikeEmail));
    var names := CheckNames(p);
    var role := CheckOptional(p.role, true, CheckRoleField);
    if username.Err? || email.Err? || names.Err? || role.Err? then
      Err((if username.Err? then username.error else []) +
          (if email.Err? then email.error else []) +
          (if names.Err? then names.error else []) +
          (if role.Err? then role.error else []))
    else
      Ok(UserData(username.value, email.value, names.value.0, names.value.1, names.value.2, role.value))
  }

  /** The model's username field: stripped, not blank, within `MaxUserLength`, no null character, then the model's validator. */
  function CheckModelUsernameField(value: string): (r: Result<string, seq<Problem>>)
    ensures r.Ok? <==>
      ProjectValidators.ValidateUsername(Strip(value)).Pass? && |Strip(value)| <= MaxUserLength && !HasNullCharacter(Strip(value))
    ensures r.Ok? ==> r.value == Strip(value)
  {
    var v := Strip(value);
    if v == [] then
      ProjectValidators.EmptyRejected();
      Err([BlankValue])
    else if |v| > MaxUserLength then Err([TooLong])
    else if HasNullCharacter(v) then Err([NullCharacter])
    else match ProjectValidators.ValidateUsername(v)
      case Pass => Ok(v)
      case Fail(ReservedWord) => Err([ReservedName])
      case Fail(_) => Err([NoMatch])
  }

  /** The model's email field: stripped, not blank, within `MaxUserEmailLength`, no null character, well formed. */
  function CheckModelEmailField(value: string, looksLikeEmail: string -> bool): (r: Result<string, seq<Problem>>)
    ensures r.Ok? <==>
      0 < |Strip(value)| <= MaxUserEmailLength && !HasNullCharacter(Strip(value)) && looksLikeEmail(Strip(value))
    ensures r.Ok? ==> r.value == Strip(value)
  {
    match CheckTextField(value)
    case Err(e) => Err(e)
    case Ok(v) =>
      if |v| > MaxUserEmailLength then Err([TooLong])
      else if looksLikeEmail(v) then Ok(v) else Err([NotAnEmail])
  }

  /** An administrator's rename to " abc" is stored as "abc". */
  lemma AccountUpdateStripsUsername(looksLikeEmail: string -> bool)
    ensures var r := ValidateAccountUpdate(UserPayload(Some(" abc"), None, None, None, None, None), looksLikeEmail);
      r.Ok? && r.value.username == Some("abc")
  {
    assert Strip(" abc") == "abc" by {
      assert " abc" == " " + "abc" + [];
      PaddedWord(" ", "abc", []);
    }
    assert AllAllowed("abc");
    ProjectValidators.ExplicitSetImpliesPattern("abc");
  }

  /**
   Where sign-up and administrator updates disagree: "a/b" is refused at
   sign-up but accepted as an administrator's rename, and "me" is refused by
   both.
   */
  lemma UsernameRulesDiverge()
    ensures CheckUsernameField("a/b").Err? && CheckModelUsernameField("a/b").Ok?
    ensures CheckUsernameField(Reserved).Err? && CheckModelUsernameField(Reserved).Err?
  {
    assert Trimmed("a/b") && Trimmed(Reserved);
    assert !InWordPatternClass("a/b"[1]);
    ProjectValidators.PunctuationAccepted();
  }

  // ---------------------------------------------------------------------------
  // The review and comment serializers
  // ---------------------------------------------------------------------------

  /** What a client may send for a review, including the read-only `author` and `title`. */
  datatype ReviewPayload = ReviewPayload(
    text: Option<string>,
    score: Option<int>,
    author: Option<UserId>,
    title: Option<TitleId>)

  /** The writable part of a review payload. */
  datatype ReviewData = ReviewData(text: Option<string>, score: Option<int>)

  /**
   Field validation of a review: the text is a required character field
   (stripped, never blank), the score must lie in the validators' range; on a
   full update both are required. The read-only `author` and `title` of the
   payload are ignored.
   */
  function CheckReviewFields(p: ReviewPayload, partial: bool): (r: Result<ReviewData, seq<Problem>>)
    ensures r.Ok? <==>
      && (p.text.Some? ==> Strip(p.text.value) != [] && !HasNullCharacter(Strip(p.text.value)))
      && (p.score.Some? ==> MinScore <= p.score.value <= MaxScore)
      && (!partial ==> p.text.Some? && p.score.Some?)
    ensures r.Ok? ==> r.value == ReviewData(Stripped(p.text), p.score)
  {
    var text := CheckOptional(p.text, partial, CheckTextField);
    var problems :=
      (if text.Err? then text.error else []) +
      (if p.score.Some? && !(MinScore <= p.score.value <= MaxScore) then [OutOfRange] else []) +
      (if p.score.None? && !partial then [Missing] else []);
    if text.Err? || problems != [] then Err(if problems == [] then [Missing] else problems)
    else Ok(ReviewData(text.value, p.score))
  }

  /**
   `ReviewSerializer.validate`: refuses a second review of the title by the
   requesting author, but only when the request is a POST; otherwise hands the
   data on unchanged.
   */
  function ValidateReview(m: Method, author: UserId, title: TitleId, reviews: map<ReviewId, Review>, data: ReviewData)
    : (r: Result<ReviewData, Problem>)
    ensures r.Err? <==> m == POST && HasReview(reviews, author, title)
    ensures r.Ok? ==> r.value == data
    ensures r.Err? ==> r.error == DuplicateReview
  {
    if HasReview(reviews, author, title) && m == POST then Err(DuplicateReview) else Ok(data)
  }

  /** An update never trips the duplicate check, even when the author has reviewed the title. */
  lemma UpdateSkipsDuplicateCheck(m: Method, author: UserId, title: TitleId, reviews: map<ReviewId, Review>, data: ReviewData)
    requires m != POST
    ensures ValidateReview(m, author, title, reviews, data) == Ok(data)
  {
  }

  /** What a client may send for a comment, including the read-only `author` and `review`. */
  datatype CommentPayload = CommentPayload(text: Option<string>, author: Option<UserId>, review: Option<ReviewId>)

  /**
   Field validation of a comment: the text is a required character field on
   creation and full update; it is stripped and never blank.
   */
  function CheckCommentFields(p: CommentPayload, partial: bool): (r: Result<Option<string>, seq<Problem>>)
    ensures r.Ok? <==>
      && (p.text.Some? ==> Strip(p.text.value) != [] && !HasNullCharacter(Strip(p.text.value)))
      && (!partial ==> p.text.Some?)
    ensures r.Ok? ==> r.value == Stripped(p.text)
  {
    CheckOptional(p.text, partial, CheckTextField)
  }

  /** A whitespace-only review or comment text is refused, whatever the score. */
  lemma WhitespaceTextRefused(score: Option<int>, partial: bool)
    ensures CheckReviewFields(ReviewPayload(Some("   "), score, None, None), partial).Err?
    ensures CheckCommentFields(CommentPayload(Some("   "), None, None), partial).Err?
  {
    assert AllWhitespace("   ");
  }

  // ---------------------------------------------------------------------------
  // The title serializer
  // ---------------------------------------------------------------------------

  /** What a client may send to create a title, with the category and genres already resolved from their slugs. */
  datatype TitlePayload = TitlePayload(
    name: Option<string>,
    year: Option<int>,
    category: Option<CategoryId>,
    description: Option<string>,
    genres: Option<set<GenreId>>)

  /**
   `TitleWriteSerializer`'s own rules: name, year, category and genres are
   required, and the declared category field refuses null; the name is a
   required character field and the description a blankable one, both
   stripped and held to the model's `max_length`. The model's field rules
   (`validate_year`, existing references) are `Catalog.CheckTitle`.
   */
  function CheckTitleWrite(p: TitlePayload): (r: Result<Title, seq<Problem>>)
    ensures r.Ok? <==>
      && p.name.Some? && 0 < |Strip(p.name.value)| <= MaxNameLength && !HasNullCharacter(Strip(p.name.value))
      && p.year.Some? && p.category.Some? && p.genres.Some?
      && (p.description.Some? ==>
            |Strip(p.description.value)| <= MaxDescriptionLength && !HasNullCharacter(Strip(p.description.value)))
    ensures r.Ok? ==> r.value == Title(Strip(p.name.value), p.year.value, p.category, Stripped(p.description), p.genres.value)
  {
    var name := CheckOptional(p.name, false, (v: string) => CheckLimitedTextField(v, MaxNameLength));
    var description := CheckOptional(p.description, true, (v: string) => CheckLimitedBlankableField(v, MaxDescriptionLength));
    if name.Err? || description.Err? || p.year.None? || p.category.None? || p.genres.None? then
      Err((if name.Err? then name.error else []) +
          (if description.Err? then description.error else []) +
          (if p.year.None? || p.category.None? || p.genres.None? then [Missing] else []))
    else
      Ok(Title(name.value.value, p.year.value, p.category, description.value, p.genres.value))
  }
}
