/**
 The request handlers of the API as transitions on the store.

 Each handler takes the store, the requesting actor and the payload, and gives
 the response status with the store after the request. Collaborators the model
 cannot see are parameters: `looksLikeEmail` (the email format check),
 `makeToken` and `checkToken` (the confirmation-code generator and its checker)
 and `issue` (the access-token minting). Sending mail is an output: the
 message the handler would send.
 */
module Views {
  import opened Wrappers
  import opened Text
  import opened Users
  import opened Usernames
  import opened Permissions
  import opened Catalog
  import opened Serializers

  datatype Status =
    | Ok200 | Created201 | NoContent204
    | BadRequest400 | Unauthorized401 | Forbidden403 | NotFound404 | MethodNotAllowed405
    | ServerError500

  /** The answer to a denied permission: 401 without credentials, 403 with them. */
  function Denied(a: Actor): (st: Status)
    ensures st == Unauthorized401 <==> a.Anonymous?
    ensures st == Unauthorized401 || st == Forbidden403
  {
    if a.Anonymous? then Unauthorized401 else Forbidden403
  }

  /** An authenticated actor is an account of the store, as loaded for the request. */
  predicate ActorInStore(s: Store, a: Actor) {
    a.Authenticated? ==> a.id in s.users && s.users[a.id] == a.account
  }

  // ---------------------------------------------------------------------------
  // Account lookups
  // ---------------------------------------------------------------------------

  /** The account holding `name`, which the unique constraint makes at most one. */
  function FindByUsername(s: Store, name: string): (r: Option<UserId>)
    requires UniqueAccounts(s.users)
    ensures r.Some? ==> r.value in s.users && s.users[r.value].username == name
    ensures r.None? ==> forall k :: k in s.users ==> s.users[k].username != name
  {
    if exists k :: k in s.users && s.users[k].username == name then
      var k :| k in s.users && s.users[k].username == name;
      Some(k)
    else None
  }

  predicate UsernameTaken(s: Store, name: string) {
    exists k :: k in s.users && s.users[k].username == name
  }

  predicate EmailTaken(s: Store, email: string) {
    exists k :: k in s.users && s.users[k].email == email
  }

  /** The columns `get_or_create` receives: username and email, with whatever else the payload carried. */
  datatype AccountFields = AccountFields(
    username: string,
    email: string,
    firstName: Option<string>,
    lastName: Option<string>,
    bio: Option<string>,
    role: Option<Role>)

  /** The lookup half of `get_or_create`: every given column equals the account's. */
  predicate MatchesFields(u: User, f: AccountFields) {
    && u.username == f.username
    && u.email == f.email
    && (f.firstName.Some? ==> u.firstName == f.firstName.value)
    && (f.lastName.Some? ==> u.lastName == f.lastName.value)
    && (f.bio.Some? ==> u.bio == f.bio.value)
    && (f.role.Some? ==> u.role == f.role.value)
  }

  /** The create half of `get_or_create`: defaults overridden by the given columns. */
  function BuildAccount(f: AccountFields): (u: User)
    ensures MatchesFields(u, f)
    ensures !u.isStaff && !u.isSuperuser && u.confirmationCode == None
    ensures f.role.None? ==> u.role == RoleUser
  {
    var base := NewUser(f.username, f.email);
    base.(
      firstName := f.firstName.GetOr(base.firstName),
      lastName := f.lastName.GetOr(base.lastName),
      bio := f.bio.GetOr(base.bio),
      role := f.role.GetOr(base.role))
  }

  /** What `get_or_create` produced: the store, the account's key and whether it is new. */
  datatype GetOrCreated = GetOrCreated(store: Store, id: UserId, created: bool)

  /**
   `User.objects.get_or_create(**fields)`: an account matching every given
   column is returned as it is; otherwise one is inserted, which the unique
   constraints refuse if the username or the email is already held.
   */
  function GetOrCreate(s: Store, f: AccountFields): (r: Result<GetOrCreated, DbError>)
    requires Valid(s)
    ensures r.Err? <==>
      !(exists k :: k in s.users && MatchesFields(s.users[k], f)) &&
      (UsernameTaken(s, f.username) || EmailTaken(s, f.email))
    ensures r.Ok? && !r.value.created ==>
      r.value.store == s && r.value.id in s.users && MatchesFields(s.users[r.value.id], f)
    ensures r.Ok? && r.value.created ==>
      && r.value.id !in s.users
      && r.value.store == s.(users := s.users[r.value.id := BuildAccount(f)], nextId := r.value.store.nextId)
    ensures r.Ok? ==> Valid(r.value.store) && r.value.id in r.value.store.users
  {
    match FindByUsername(s, f.username)
    case Some(k) =>
      OnlyHolderCanMatch(s.users, f, k);
      if MatchesFields(s.users[k], f) then Ok(GetOrCreated(s, k, false))
      else Err(IntegrityError)
    case None =>
      if EmailTaken(s, f.email) then Err(IntegrityError)
      else Ok(GetOrCreated(InsertAccount(s, BuildAccount(f)), s.nextId, true))
  }

  /** Inserting an account whose username and email are free, under the next key. */
  function InsertAccount(s: Store, u: User): (r: Store)
    requires Valid(s) && !UsernameTaken(s, u.username) && !EmailTaken(s, u.email)
    ensures s.nextId !in s.users
    ensures r == s.(users := s.users[s.nextId := u], nextId := r.nextId)
    ensures Valid(r)
  {
    AddAccountKeepsValid(s, u);
    s.(users := s.users[s.nextId := u], nextId := s.nextId + 1)
  }

  /** `get_or_create` leaves every existing account as it was; the only account it may add is the built one. */
  lemma GetOrCreateFrame(s: Store, f: AccountFields)
    requires Valid(s) && GetOrCreate(s, f).Ok?
    ensures var g := GetOrCreate(s, f).value;
      && g.store.users.Keys >= s.users.Keys
      && (forall k :: k in s.users ==> g.store.users[k] == s.users[k])
      && (forall k :: k in g.store.users && k !in s.users ==> k == g.id && g.store.users[k] == BuildAccount(f))
      && MatchesFields(g.store.users[g.id], f)
  {
    FrameOf(s, GetOrCreate(s, f).value, f);
  }

  /** `GetOrCreateFrame` for an outcome described by the postconditions of `get_or_create` alone. */
  lemma FrameOf(s: Store, g: GetOrCreated, f: AccountFields)
    requires !g.created ==> g.store == s && g.id in s.users && MatchesFields(s.users[g.id], f)
    requires g.created ==> g.id !in s.users && g.store.users == s.users[g.id := BuildAccount(f)]
    ensures g.store.users.Keys >= s.users.Keys
    ensures forall k :: k in s.users ==> g.store.users[k] == s.users[k]
    ensures forall k :: k in g.store.users && k !in s.users ==> k == g.id && g.store.users[k] == BuildAccount(f)
    ensures g.id in g.store.users && MatchesFields(g.store.users[g.id], f)
  {
  }

  /** Only the account holding the username can match the columns, since usernames are unique. */
  lemma OnlyHolderCanMatch(users: map<UserId, User>, f: AccountFields, k: UserId)
    requires UniqueAccounts(users) && k in users && users[k].username == f.username
    ensures (exists j :: j in users && MatchesFields(users[j], f)) <==> MatchesFields(users[k], f)
  {
  }

  /** The get half of `get_or_create`: an account matching every given column is returned, and nothing is inserted. */
  lemma GetFindsMatch(s: Store, f: AccountFields, id: UserId)
    requires Valid(s) && id in s.users && MatchesFields(s.users[id], f)
    ensures GetOrCreate(s, f) == Ok(GetOrCreated(s, id, false))
  {
    var found := FindByUsername(s, f.username);
    assert found == Some(id) by {
      assert UniqueAccounts(s.users);
    }
  }

  /** The create half of `get_or_create`: with the username and email free, the built account is inserted under the next key. */
  lemma CreateWhenFree(s: Store, f: AccountFields)
    requires Valid(s) && !UsernameTaken(s, f.username) && !EmailTaken(s, f.email)
    ensures GetOrCreate(s, f) ==
      Ok(GetOrCreated(s.(users := s.users[s.nextId := BuildAccount(f)], nextId := s.nextId + 1), s.nextId, true))
  {
    assert FindByUsername(s, f.username).None?;
  }

  /** A new account whose username and email are free keeps every constraint. */
  lemma AddAccountKeepsValid(s: Store, u: User)
    requires Valid(s)
    requires !UsernameTaken(s, u.username) && !EmailTaken(s, u.email)
    ensures Valid(s.(users := s.users[s.nextId := u], nextId := s.nextId + 1))
  {
    var s' := s.(users := s.users[s.nextId := u], nextId := s.nextId + 1);
    assert KeysBelow(s') by { assert KeysBelow(s); }
    assert NoDanglingReferences(s') by { assert NoDanglingReferences(s); }
    assert UniqueAccounts(s'.users) by { assert UniqueAccounts(s.users); }
  }

  /** The columns a validated full account payload hands to `get_or_create`. */
  function FieldsOf(d: UserData): (f: AccountFields)
    requires d.username.Some? && d.email.Some?
    ensures f.username == d.username.value && f.email == d.email.value && f.role == d.role
  {
    AccountFields(d.username.value, d.email.value, d.firstName, d.lastName, d.bio, d.role)
  }

  // ---------------------------------------------------------------------------
  // Sign-up and token
  // ---------------------------------------------------------------------------

  datatype Mail = Mail(recipient: string, code: string)

  datatype SignUpReply = SignUpReply(status: Status, store: Store, mail: Option<Mail>)

  /** Storing a confirmation code on an account; nothing else changes. */
  function StoreCode(s: Store, id: UserId, code: string): (r: Store)
    requires Valid(s) && id in s.users
    ensures r.users.Keys == s.users.Keys
    ensures r.users[id] == s.users[id].(confirmationCode := Some(code))
    ensures forall k :: k in s.users && k != id ==> r.users[k] == s.users[k]
    ensures r == s.(users := r.users)
    ensures Valid(r)
  {
    var r := s.(users := s.users[id := s.users[id].(confirmationCode := Some(code))]);
    assert KeysBelow(r) by { assert KeysBelow(s); }
    assert NoDanglingReferences(r) by { assert NoDanglingReferences(s); }
    assert UniqueAccounts(r.users) by { assert UniqueAccounts(s.users); }
    r
  }

  /** An account created by sign-up: the payload's stripped username and email, its role (by default a plain user), no staff flags. */
  predicate SignedUpFrom(u: User, p: UserPayload) {
    && p.username.Some? && u.username == Strip(p.username.value)
    && p.email.Some? && u.email == Strip(p.email.value)
    && !u.isStaff && !u.isSuperuser
    && (p.role.None? ==> u.role == RoleUser)
    && (p.role.Some? ==> u.role.Key() == p.role.value)
  }

  /**
   `SignUpView.post`: validate, `get_or_create` the account (a clash is a 400),
   store a freshly generated confirmation code on it and mail the code to the
   account's email.
   */
  function SignUp(s: Store, p: UserPayload, looksLikeEmail: string -> bool, makeToken: (UserId, User) -> string)
    : (r: SignUpReply)
    requires Valid(s)
    ensures r.status == Ok200 || r.status == BadRequest400
    ensures r.status == BadRequest400 ==> r.store == s && r.mail == None
    ensures r.status == Ok200 ==>
      && r.mail.Some? && p.username.Some? && p.email.Some?
      && r.mail.value.recipient == Strip(p.email.value)
      && (exists id :: id in r.store.users && r.store.users[id].username == Strip(p.username.value)
            && r.store.users[id].confirmationCode == Some(r.mail.value.code)
            && r.mail.value.code ==
                 makeToken(id, if id in s.users then s.users[id] else r.store.users[id].(confirmationCode := None)))
    ensures r.status == Ok200 ==>
      && r.store == s.(users := r.store.users, nextId := r.store.nextId)
      && (forall k :: k in s.users ==>
            k in r.store.users && r.store.users[k].(confirmationCode := None) == s.users[k].(confirmationCode := None))
      && (forall k :: k in r.store.users && k !in s.users ==> SignedUpFrom(r.store.users[k], p))
    ensures Valid(r.store)
  {
    match ValidateUserPayload(p, false, looksLikeEmail)
    case Err(_) => SignUpReply(BadRequest400, s, None)
    case Ok(d) =>
      match GetOrCreate(s, FieldsOf(d))
      case Err(_) => SignUpReply(BadRequest400, s, None)
      case Ok(g) =>
        var u := g.store.users[g.id];
        var code := makeToken(g.id, u);
        var store := StoreCode(g.store, g.id, code);
        CodeAfterGetOrCreate(s, FieldsOf(d), code);
        assert store.users[g.id].username == Strip(p.username.value);
        SignUpReply(Ok200, store, Some(Mail(u.email, code)))
  }

  /**
   Sign-up succeeds exactly when the payload validates and `get_or_create`
   accepts its columns; anything else is a 400.
   */
  lemma SignUpSucceedsExactly(s: Store, p: UserPayload, looksLikeEmail: string -> bool, makeToken: (UserId, User) -> string)
    requires Valid(s)
    ensures var v := ValidateUserPayload(p, false, looksLikeEmail);
      SignUp(s, p, looksLikeEmail, makeToken).status == Ok200 <==> v.Ok? && GetOrCreate(s, FieldsOf(v.value)).Ok?
  {
  }

  /** The reserved name, a name outside the pattern or a blank email is refused with 400 and changes nothing. */
  lemma InvalidSignUpRefused(s: Store, p: UserPayload, looksLikeEmail: string -> bool, makeToken: (UserId, User) -> string)
    requires Valid(s)
    requires p.username == Some(Reserved) || p.username == Some("a/b") || p.email == Some("")
    ensures SignUp(s, p, looksLikeEmail, makeToken) == SignUpReply(BadRequest400, s, None)
  {
    assert Trimmed(Reserved) && Trimmed("a/b") && Strip("") == "";
    assert !InWordPatternClass("a/b"[1]);
  }

  /** After `get_or_create` and storing a code, old accounts differ at most in their code, and the only new account is built from the fields. */
  lemma CodeAfterGetOrCreate(s: Store, f: AccountFields, code: string)
    requires Valid(s) && GetOrCreate(s, f).Ok?
    ensures var g := GetOrCreate(s, f).value;
      var r := StoreCode(g.store, g.id, code);
      && r == s.(users := r.users, nextId := r.nextId)
      && (forall k :: k in s.users ==>
            k in r.users && r.users[k].(confirmationCode := None) == s.users[k].(confirmationCode := None))
      && (forall k :: k in r.users && k !in s.users ==> r.users[k] == BuildAccount(f).(confirmationCode := Some(code)))
      && g.store.users[g.id] == (if g.id in s.users then s.users[g.id] else r.users[g.id].(confirmationCode := None))
  {
    CodeAfter(s, GetOrCreate(s, f).value, f, code);
  }

  /** `CodeAfterGetOrCreate` for an outcome described by the postconditions of `get_or_create` alone. */
  lemma CodeAfter(s: Store, g: GetOrCreated, f: AccountFields, code: string)
    requires Valid(g.store) && g.id in g.store.users
    requires !g.created ==> g.store == s
    requires g.created ==> g.id !in s.users && g.store == s.(users := s.users[g.id := BuildAccount(f)], nextId := g.store.nextId)
    ensures var r := StoreCode(g.store, g.id, code);
      && r == s.(users := r.users, nextId := r.nextId)
      && (forall k :: k in s.users ==>
            k in r.users && r.users[k].(confirmationCode := None) == s.users[k].(confirmationCode := None))
      && (forall k :: k in r.users && k !in s.users ==> r.users[k] == BuildAccount(f).(confirmationCode := Some(code)))
      && g.store.users[g.id] == (if g.id in s.users then s.users[g.id] else r.users[g.id].(confirmationCode := None))
  {
    var r := StoreCode(g.store, g.id, code);
    if g.created {
      forall k | k in s.users
        ensures k in r.users && r.users[k].(confirmationCode := None) == s.users[k].(confirmationCode := None)
      {
        assert r.users[k] == g.store.users[k];
      }
    } else {
      assert r.users.Keys == s.users.Keys;
    }
  }

  /**
   A valid sign-up whose username is held by an account with other columns, or
   whose email is held while the username is free, is refused with 400 and sends
   no mail.
   */
  lemma SignUpConflict(s: Store, p: UserPayload, looksLikeEmail: string -> bool, makeToken: (UserId, User) -> string)
    requires Valid(s)
    requires ValidateUserPayload(p, false, looksLikeEmail).Ok?
    requires !(exists k :: k in s.users && MatchesFields(s.users[k], FieldsOf(ValidateUserPayload(p, false, looksLikeEmail).value)))
    requires UsernameTaken(s, Strip(p.username.value)) || EmailTaken(s, Strip(p.email.value))
    ensures SignUp(s, p, looksLikeEmail, makeToken) == SignUpReply(BadRequest400, s, None)
  {
  }

  /** Repeating a sign-up that succeeded (a valid payload `get_or_create` accepts) finds the same account: it succeeds again and adds no account. */
  lemma SignUpRepeatable(s: Store, p: UserPayload, looksLikeEmail: string -> bool, makeToken: (UserId, User) -> string)
    requires Valid(s) && ValidateUserPayload(p, false, looksLikeEmail).Ok?
    requires GetOrCreate(s, FieldsOf(ValidateUserPayload(p, false, looksLikeEmail).value)).Ok?
    ensures var s1 := SignUp(s, p, looksLikeEmail, makeToken).store;
      var r2 := SignUp(s1, p, looksLikeEmail, makeToken);
      r2.status == Ok200 && r2.store.users.Keys == s1.users.Keys
  {
    var f := FieldsOf(ValidateUserPayload(p, false, looksLikeEmail).value);
    var g := GetOrCreate(s, f).value;
    GetOrCreateFrame(s, f);
    SignUpOutcome(s, p, looksLikeEmail, makeToken);
    var s1 := StoreCode(g.store, g.id, makeToken(g.id, g.store.users[g.id]));
    assert MatchesFields(s1.users[g.id], f);
    RepeatFindsAccount(s1, p, looksLikeEmail, makeToken, g.id);
  }

  /** A sign-up whose columns an account already matches succeeds and adds no account. */
  lemma RepeatFindsAccount(s: Store, p: UserPayload, looksLikeEmail: string -> bool, makeToken: (UserId, User) -> string, id: UserId)
    requires Valid(s) && ValidateUserPayload(p, false, looksLikeEmail).Ok?
    requires id in s.users && MatchesFields(s.users[id], FieldsOf(ValidateUserPayload(p, false, looksLikeEmail).value))
    ensures SignUp(s, p, looksLikeEmail, makeToken).status == Ok200
    ensures SignUp(s, p, looksLikeEmail, makeToken).store.users.Keys == s.users.Keys
  {
    GetFindsMatch(s, FieldsOf(ValidateUserPayload(p, false, looksLikeEmail).value), id);
  }

  /** A valid sign-up that `get_or_create` accepts stores a code on the account it found or made. */
  lemma SignUpOutcome(s: Store, p: UserPayload, looksLikeEmail: string -> bool, makeToken: (UserId, User) -> string)
    requires Valid(s) && ValidateUserPayload(p, false, looksLikeEmail).Ok?
    requires GetOrCreate(s, FieldsOf(ValidateUserPayload(p, false, looksLikeEmail).value)).Ok?
    ensures var g := GetOrCreate(s, FieldsOf(ValidateUserPayload(p, false, looksLikeEmail).value)).value;
      var r := SignUp(s, p, looksLikeEmail, makeToken);
      r.status == Ok200 && r.store == StoreCode(g.store, g.id, makeToken(g.id, g.store.users[g.id]))
  {
  }

  /** A first sign-up with a free username and email succeeds and adds exactly one account, at the next key. */
  lemma FreshSignUpAddsOneAccount(s: Store, p: UserPayload, looksLikeEmail: string -> bool, makeToken: (UserId, User) -> string)
    requires Valid(s)
    requires ValidateUserPayload(p, false, looksLikeEmail).Ok?
    requires !UsernameTaken(s, Strip(p.username.value)) && !EmailTaken(s, Strip(p.email.value))
    ensures var r := SignUp(s, p, looksLikeEmail, makeToken);
      r.status == Ok200 && r.store.users.Keys == s.users.Keys + {s.nextId}
  {
    CreateWhenFree(s, FieldsOf(ValidateUserPayload(p, false, looksLikeEmail).value));
    SignUpOutcome(s, p, looksLikeEmail, makeToken);
  }

  /** A sign-up that asks for the administrator role. */
  const AdminSignUp := UserPayload(Some("eve"), Some("eve@example.com"), None, None, None, Some("admin"))

  /**
   The sign-up serializer accepts `role`, and the view passes it on to
   `get_or_create`: an anonymous client whose username and email are free
   obtains an administrator account.
   */
  lemma SignUpCanCreateAdmin(s: Store, looksLikeEmail: string -> bool, makeToken: (UserId, User) -> string)
    requires Valid(s) && !UsernameTaken(s, "eve") && !EmailTaken(s, "eve@example.com")
    requires looksLikeEmail("eve@example.com")
    ensures var r := SignUp(s, AdminSignUp, looksLikeEmail, makeToken);
      r.status == Ok200 && exists k :: k in r.store.users && k !in s.users && IsAdmin(r.store.users[k])
  {
    AdminSignUpValidates(looksLikeEmail);
    var f := AccountFields("eve", "eve@example.com", None, None, None, Some(RoleAdmin));
    CreateWhenFree(s, f);
    SignUpOutcome(s, AdminSignUp, looksLikeEmail, makeToken);
    var r := SignUp(s, AdminSignUp, looksLikeEmail, makeToken);
    assert r.store.users[s.nextId].role == RoleAdmin;
  }

  /** The administrator sign-up passes validation with its role parsed. */
  lemma AdminSignUpValidates(looksLikeEmail: string -> bool)
    requires looksLikeEmail("eve@example.com")
    ensures ValidateUserPayload(AdminSignUp, false, looksLikeEmail) ==
      Ok(UserData(Some("eve"), Some("eve@example.com"), None, None, None, Some(RoleAdmin)))
  {
    AdminSignUpFields(looksLikeEmail);
    assert ParseRole("admin") == Some(RoleAdmin);
  }

  lemma AdminSignUpFields(looksLikeEmail: string -> bool)
    requires looksLikeEmail("eve@example.com")
    ensures CheckUsernameField("eve") == Ok("eve")
    ensures CheckEmailField("eve@example.com", looksLikeEmail) == Ok("eve@example.com")
  {
    assert Trimmed("eve") && AllInWordPatternClass("eve");
    assert Trimmed("eve@example.com");
  }

  /** Sign-up as evidently intended: the account's role is not the client's to choose. */
  function SignUpIntended(s: Store, p: UserPayload, looksLikeEmail: string -> bool, makeToken: (UserId, User) -> string)
    : (r: SignUpReply)
    requires Valid(s)
    ensures r.status == BadRequest400 ==> r.store == s && r.mail == None
    ensures forall k :: k in r.store.users ==> (IsAdmin(r.store.users[k]) <==> k in s.users && IsAdmin(s.users[k]))
    ensures forall k :: k in r.store.users && k !in s.users ==> r.store.users[k].role == RoleUser
    ensures Valid(r.store)
  {
    SignUp(s, p.(role := None), looksLikeEmail, makeToken)
  }

  datatype TokenPayload = TokenPayload(username: Option<string>, confirmationCode: Option<string>)

  datatype TokenReply = TokenReply(status: Status, token: Option<string>)

  /** Both token fields are sent and pass as required character fields. */
  predicate TokenFieldsValid(p: TokenPayload) {
    && p.username.Some? && CheckTextField(p.username.value).Ok?
    && p.confirmationCode.Some? && CheckTextField(p.confirmationCode.value).Ok?
  }

  /**
   `TokenView.post`: both fields are required character fields, so they are
   stripped; an unknown username is 404; a code the checker refuses is 400;
   otherwise an access token is issued. The store does not change.
   */
  function RequestToken(
    s: Store, p: TokenPayload,
    checkToken: (UserId, User, string) -> bool, issue: (UserId, User) -> string)
    : (r: TokenReply)
    requires Valid(s)
    ensures r.token.Some? <==> r.status == Ok200
    ensures r.status in {Ok200, BadRequest400, NotFound404}
    ensures !TokenFieldsValid(p) ==> r == TokenReply(BadRequest400, None)
    ensures r.status == NotFound404 <==> TokenFieldsValid(p) && !UsernameTaken(s, Strip(p.username.value))
    ensures r.status == Ok200 <==>
      TokenFieldsValid(p) &&
      exists id :: id in s.users && s.users[id].username == Strip(p.username.value)
        && checkToken(id, s.users[id], Strip(p.confirmationCode.value))
    ensures r.status == Ok200 ==>
      exists id :: id in s.users && s.users[id].username == Strip(p.username.value)
        && r.token == Some(issue(id, s.users[id]))
  {
    if !TokenFieldsValid(p) then TokenReply(BadRequest400, None)
    else
      var name := Strip(p.username.value);
      var code := Strip(p.confirmationCode.value);
      match FindByUsername(s, name)
      case None => TokenReply(NotFound404, None)
      case Some(id) =>
        assert forall k :: k in s.users && s.users[k].username == name ==> k == id by {
          assert UniqueAccounts(s.users);
        }
        if !checkToken(id, s.users[id], code) then TokenReply(BadRequest400, None)
        else TokenReply(Ok200, Some(issue(id, s.users[id])))
  }

  /** The right code for the named account gets that account's token. */
  lemma RightCodeGetsToken(
    s: Store, p: TokenPayload, id: UserId,
    checkToken: (UserId, User, string) -> bool, issue: (UserId, User) -> string)
    requires Valid(s) && TokenFieldsValid(p)
    requires id in s.users && s.users[id].username == Strip(p.username.value)
    requires checkToken(id, s.users[id], Strip(p.confirmationCode.value))
    ensures RequestToken(s, p, checkToken, issue) == TokenReply(Ok200, Some(issue(id, s.users[id])))
  {
    assert FindByUsername(s, Strip(p.username.value)) == Some(id) by {
      assert UniqueAccounts(s.users);
    }
  }

  /** A code the checker refuses for the named account yields 400 and no token. */
  lemma WrongCodeRefused(
    s: Store, p: TokenPayload, id: UserId,
    checkToken: (UserId, User, string) -> bool, issue: (UserId, User) -> string)
    requires Valid(s) && TokenFieldsValid(p)
    requires id in s.users && s.users[id].username == Strip(p.username.value)
    requires !checkToken(id, s.users[id], Strip(p.confirmationCode.value))
    ensures RequestToken(s, p, checkToken, issue) == TokenReply(BadRequest400, None)
  {
    assert FindByUsername(s, Strip(p.username.value)) == Some(id) by {
      assert UniqueAccounts(s.users);
    }
  }

  /** Whitespace around the username does not change the outcome: " bob" is looked up as "bob". */
  lemma TokenUsernamePaddingIgnored(
    s: Store, p: TokenPayload, before: string, after: string,
    checkToken: (UserId, User, string) -> bool, issue: (UserId, User) -> string)
    requires Valid(s) && p.username.Some? && AllWhitespace(before) && AllWhitespace(after)
    ensures RequestToken(s, p.(username := Some(before + p.username.value + after)), checkToken, issue)
      == RequestToken(s, p, checkToken, issue)
  {
    PaddingIgnored(before, p.username.value, after);
  }

  // ---------------------------------------------------------------------------
  // Account management
  // ---------------------------------------------------------------------------

  datatype Reply = Reply(status: Status, store: Store)

  /**
   `UsersViewSet.create`: administrators only; the same validation and
   `get_or_create` as sign-up, answered 201, with no code stored and no mail.
   */
  function AdminCreateUser(s: Store, a: Actor, p: UserPayload, looksLikeEmail: string -> bool): (r: Reply)
    requires Valid(s)
    ensures r.status in {Created201, BadRequest400, Unauthorized401, Forbidden403}
    ensures r.status != Created201 ==> r.store == s
    ensures !AdminOnly(a) ==> r.status == Denied(a)
    ensures AdminOnly(a) ==>
      (r.status == Created201 <==>
         ValidateUserPayload(p, false, looksLikeEmail).Ok? &&
         GetOrCreate(s, FieldsOf(ValidateUserPayload(p, false, looksLikeEmail).value)).Ok?)
    ensures r.status == Created201 ==>
      r.store == GetOrCreate(s, FieldsOf(ValidateUserPayload(p, false, looksLikeEmail).value)).value.store
    ensures r.status == Created201 ==>
      && p.username.Some? && p.email.Some?
      && r.store.users.Keys >= s.users.Keys
      && (forall k :: k in s.users ==> r.store.users[k] == s.users[k])
      && (forall k :: k in r.store.users && k !in s.users ==> r.store.users[k].confirmationCode == None)
      && exists id :: id in r.store.users && r.store.users[id].username == Strip(p.username.value)
    ensures Valid(r.store)
  {
    if !AdminOnly(a) then Reply(Denied(a), s)
    else
      match ValidateUserPayload(p, false, looksLikeEmail)
      case Err(_) => Reply(BadRequest400, s)
      case Ok(d) =>
        match GetOrCreate(s, FieldsOf(d))
        case Err(_) => Reply(BadRequest400, s)
        case Ok(g) =>
          GetOrCreateFrame(s, FieldsOf(d));
          Reply(Created201, g.store)
  }

  datatype ProfileReply = ProfileReply(status: Status, store: Store, shown: Option<User>)

  /** An account after a validated update: each sent column replaced, the rest and the staff flags kept. */
  function ApplyUpdate(u: User, d: UserData): (v: User)
    ensures v.isStaff == u.isStaff && v.isSuperuser == u.isSuperuser
    ensures v.confirmationCode == u.confirmationCode
    ensures d.username.Some? ==> v.username == d.username.value
    ensures d.username.None? ==> v.username == u.username
    ensures d.email.Some? ==> v.email == d.email.value
    ensures d.email.None? ==> v.email == u.email
    ensures d.role.Some? ==> v.role == d.role.value
    ensures d.role.None? ==> v.role == u.role
  {
    u.(
      username := d.username.GetOr(u.username),
      email := d.email.GetOr(u.email),
      firstName := d.firstName.GetOr(u.firstName),
      lastName := d.lastName.GetOr(u.lastName),
      bio := d.bio.GetOr(u.bio),
      role := d.role.GetOr(u.role))
  }

  /** An update that sends nothing changes nothing, and applying the same update twice is applying it once. */
  lemma ApplyUpdateLaws(u: User, d: UserData)
    ensures ApplyUpdate(u, UserData(None, None, None, None, None, None)) == u
    ensures ApplyUpdate(ApplyUpdate(u, d), d) == ApplyUpdate(u, d)
  {
  }

  /** Whether another account than `id` holds the username or email. */
  predicate ClashesWithOther(s: Store, id: UserId, u: User) {
    exists k :: k in s.users && k != id && (s.users[k].username == u.username || s.users[k].email == u.email)
  }

  /** The update `about_me` saves: the sent columns, with the role pinned to the account's own. */
  function SelfUpdate(u: User, d: UserData): (v: User)
    ensures v.role == u.role && v.isStaff == u.isStaff && v.isSuperuser == u.isSuperuser
  {
    ApplyUpdate(u, d.(role := Some(u.role)))
  }

  /**
   `UsersViewSet.about_me`: authenticated accounts only; routed for GET and
   PATCH. GET shows the caller's record. PATCH validates a partial payload and
   saves it with the role pinned to the caller's current role; a username or
   email held by another account breaks a unique constraint that nothing
   catches, so the request fails with a server error.
   */
  function AboutMe(s: Store, a: Actor, m: Method, p: UserPayload, looksLikeEmail: string -> bool)
    : (r: ProfileReply)
    requires Valid(s) && ActorInStore(s, a)
    ensures a.Anonymous? ==> r.status == Unauthorized401 && r.store == s
    ensures r.status != Ok200 ==> r.store == s && r.shown == None
    ensures m == GET && a.Authenticated? ==> r == ProfileReply(Ok200, s, Some(a.account))
    ensures m != GET && m != PATCH && a.Authenticated? ==> r.status == MethodNotAllowed405
    ensures m == PATCH && r.status == Ok200 ==>
      && a.Authenticated?
      && r.store.users.Keys == s.users.Keys
      && r.store.users[a.id].role == a.account.role
      && r.store.users[a.id].isStaff == a.account.isStaff
      && r.store.users[a.id].isSuperuser == a.account.isSuperuser
      && r.store.users[a.id].username == Stripped(p.username).GetOr(a.account.username)
      && r.store.users[a.id].email == Stripped(p.email).GetOr(a.account.email)
      && (forall k :: k in s.users && k != a.id ==> r.store.users[k] == s.users[k])
      && r == ProfileReply(Ok200, s.(users := r.store.users), Some(r.store.users[a.id]))
    ensures m == PATCH && a.Authenticated? ==>
      (r.status == BadRequest400 <==> ValidateUserPayload(p, true, looksLikeEmail).Err?)
    ensures m == PATCH && a.Authenticated? && ValidateUserPayload(p, true, looksLikeEmail).Ok? ==>
      var v := SelfUpdate(a.account, ValidateUserPayload(p, true, looksLikeEmail).value);
      && (r.status == Ok200 <==> !ClashesWithOther(s, a.id, v))
      && (r.status == ServerError500 <==> ClashesWithOther(s, a.id, v))
      && (r.status == Ok200 ==> r.store.users[a.id] == v)
    ensures r.status == ServerError500 ==>
      && m == PATCH && a.Authenticated?
      && exists k :: k in s.users && k != a.id &&
           ((p.username.Some? && s.users[k].username == Strip(p.username.value)) ||
            (p.email.Some? && s.users[k].email == Strip(p.email.value)))
    ensures Valid(r.store)
  {
    if a.Anonymous? then ProfileReply(Unauthorized401, s, None)
    else if m != GET && m != PATCH then ProfileReply(MethodNotAllowed405, s, None)
    else if m == GET then ProfileReply(Ok200, s, Some(a.account))
    else
      match ValidateUserPayload(p, true, looksLikeEmail)
      case Err(_) => ProfileReply(BadRequest400, s, None)
      case Ok(d) =>
        var v := SelfUpdate(a.account, d);
        if ClashesWithOther(s, a.id, v) then ProfileReply(ServerError500, s, None)
        else
          ReplaceAccountKeepsValid(s, a.id, v);
          var store := s.(users := s.users[a.id := v]);
          ProfileReply(Ok200, store, Some(v))
  }

  /** Replacing an account by one whose username and email no other account holds keeps every constraint. */
  lemma ReplaceAccountKeepsValid(s: Store, id: UserId, v: User)
    requires Valid(s) && id in s.users && !ClashesWithOther(s, id, v)
    ensures Valid(s.(users := s.users[id := v]))
  {
    var s' := s.(users := s.users[id := v]);
    assert KeysBelow(s') by { assert KeysBelow(s); }
    assert NoDanglingReferences(s') by { assert NoDanglingReferences(s); }
    assert UniqueAccounts(s'.users) by { assert UniqueAccounts(s.users); }
  }

  /** Whatever role a self-profile update sends, the stored role stays as it was. */
  lemma ProfileRoleCannotEscalate(s: Store, a: Actor, p: UserPayload, looksLikeEmail: string -> bool)
    requires Valid(s) && ActorInStore(s, a) && a.Authenticated?
    ensures var r := AboutMe(s, a, PATCH, p, looksLikeEmail);
      r.store.users[a.id].role == s.users[a.id].role
      && (!IsAdmin(s.users[a.id]) ==> !IsAdmin(r.store.users[a.id]))
  {
  }

  /**
   `UsersViewSet` on `/users/{username}/`: administrators only; GET, PATCH and
   DELETE are routed. GET shows the account; DELETE removes it with everything
   that references it; PATCH validates a partial payload with the model's
   field rules, refuses (400) a username or email another account holds, and
   saves every sent column, the role included.
   */
  function ManageAccount(s: Store, a: Actor, m: Method, name: string, p: UserPayload, looksLikeEmail: string -> bool)
    : (r: ProfileReply)
    requires Valid(s) && ActorInStore(s, a)
    ensures !AdminOnly(a) ==> r.status == Denied(a) && r.store == s
    ensures r.status != Ok200 && r.status != NoContent204 ==> r.store == s && r.shown == None
    ensures AdminOnly(a) && m != GET && m != PATCH && m != DELETE ==> r.status == MethodNotAllowed405
    ensures AdminOnly(a) && (m == GET || m == PATCH || m == DELETE) && !UsernameTaken(s, name) ==>
      r.status == NotFound404
    ensures AdminOnly(a) && m == GET && UsernameTaken(s, name) ==> r.status == Ok200
    ensures AdminOnly(a) && m == PATCH && UsernameTaken(s, name) ==>
      var id := FindByUsername(s, name).value;
      var update := ValidateAccountUpdate(p, looksLikeEmail);
      && (r.status == Ok200 <==> update.Ok? && !ClashesWithOther(s, id, ApplyUpdate(s.users[id], update.value)))
      && (r.status != Ok200 ==> r.status == BadRequest400)
    ensures m == GET && r.status == Ok200 ==>
      r.store == s && exists id :: id in s.users && s.users[id].username == name && r.shown == Some(s.users[id])
    ensures r.status == NoContent204 <==> AdminOnly(a) && m == DELETE && UsernameTaken(s, name)
    ensures r.status == NoContent204 ==>
      exists id :: id in s.users && s.users[id].username == name && r.store == DeleteUser(s, id)
    ensures m == PATCH && r.status == Ok200 ==>
      && AdminOnly(a)
      && ValidateAccountUpdate(p, looksLikeEmail).Ok?
      && r.store.users.Keys == s.users.Keys
      && exists id :: id in s.users && s.users[id].username == name
           && (forall k :: k in s.users && k != id ==> r.store.users[k] == s.users[k])
           && r.store.users[id] == ApplyUpdate(s.users[id], ValidateAccountUpdate(p, looksLikeEmail).value)
           && r.store == s.(users := r.store.users)
    ensures Valid(r.store)
  {
    if !AdminOnly(a) then ProfileReply(Denied(a), s, None)
    else if m != GET && m != PATCH && m != DELETE then ProfileReply(MethodNotAllowed405, s, None)
    else
      match FindByUsername(s, name)
      case None => ProfileReply(NotFound404, s, None)
      case Some(id) =>
        if m == GET then ProfileReply(Ok200, s, Some(s.users[id]))
        else if m == DELETE then
          DeleteUserKeepsValid(s, id);
          ProfileReply(NoContent204, DeleteUser(s, id), None)
        else PatchAccount(s, id, p, looksLikeEmail)
  }

  /** The PATCH branch of `UsersViewSet`, once the account `id` has been found. */
  function PatchAccount(s: Store, id: UserId, p: UserPayload, looksLikeEmail: string -> bool): (r: ProfileReply)
    requires Valid(s) && id in s.users
    ensures r.status == Ok200 || r.status == BadRequest400
    ensures r.status == Ok200 <==>
      && ValidateAccountUpdate(p, looksLikeEmail).Ok?
      && !ClashesWithOther(s, id, ApplyUpdate(s.users[id], ValidateAccountUpdate(p, looksLikeEmail).value))
    ensures r.status != Ok200 ==> r.store == s && r.shown == None
    ensures r.status == Ok200 ==>
      && ValidateAccountUpdate(p, looksLikeEmail).Ok?
      && r.store.users.Keys == s.users.Keys
      && (forall k :: k in s.users && k != id ==> r.store.users[k] == s.users[k])
      && r.store.users[id] == ApplyUpdate(s.users[id], ValidateAccountUpdate(p, looksLikeEmail).value)
      && r.store == s.(users := r.store.users)
    ensures Valid(r.store)
  {
    var update := ValidateAccountUpdate(p, looksLikeEmail);
    if update.Err? then ProfileReply(BadRequest400, s, None)
    else
      var v := ApplyUpdate(s.users[id], update.value);
      if ClashesWithOther(s, id, v) then ProfileReply(BadRequest400, s, None)
      else
        var store := s.(users := s.users[id := v]);
        ReplaceAccountKeepsValid(s, id, v);
        assert store.users.Keys == s.users.Keys;
        ProfileReply(Ok200, store, Some(v))
  }

  /**
   Unlike the self-profile update, an administrator's update sets the role it
   sends: an account promoted to moderator gains moderation rights.
   */
  lemma AdminSetsRole(s: Store, a: Actor, name: string, looksLikeEmail: string -> bool)
    requires Valid(s) && ActorInStore(s, a) && AdminOnly(a) && UsernameTaken(s, name)
    ensures var r := ManageAccount(s, a, PATCH, name, UserPayload(None, None, None, None, None, Some("moderator")), looksLikeEmail);
      && r.status == Ok200
      && exists id :: id in r.store.users && r.store.users[id].username == name && IsModerator(r.store.users[id])
  {
    var p := UserPayload(None, None, None, None, None, Some("moderator"));
    assert ParseRole("moderator") == Some(RoleModerator);
    var d := ValidateAccountUpdate(p, looksLikeEmail);
    assert d.Ok?;
    var id := FindByUsername(s, name).value;
    var v := ApplyUpdate(s.users[id], d.value);
    assert v.username == s.users[id].username && v.email == s.users[id].email;
    assert !ClashesWithOther(s, id, v);
    var r := ManageAccount(s, a, PATCH, name, p, looksLikeEmail);
    assert r.store.users[id] == v;
  }

  // ---------------------------------------------------------------------------
  // Reviews
  // ---------------------------------------------------------------------------

  /**
   Creating a review under `/titles/{title}/reviews/`: authenticated actors only;
   field validation; the duplicate check (this is a POST); the title must
   exist; the author and title come from the request, never from the payload.
   */
  function PostReview(s: Store, a: Actor, title: TitleId, p: ReviewPayload, now: int): (r: Reply)
    requires Valid(s) && ActorInStore(s, a)
    ensures a.Anonymous? ==> r.status == Unauthorized401
    ensures r.status != Created201 ==> r.store == s
    ensures a.Authenticated? && CheckReviewFields(p, false).Err? ==> r.status == BadRequest400
    ensures a.Authenticated? && CheckReviewFields(p, false).Ok? && HasReview(s.reviews, a.id, title) ==>
      r.status == BadRequest400
    ensures a.Authenticated? && CheckReviewFields(p, false).Ok? && !HasReview(s.reviews, a.id, title) && title !in s.titles ==>
      r.status == NotFound404
    ensures r.status == Created201 <==>
      a.Authenticated? && CheckReviewFields(p, false).Ok? && !HasReview(s.reviews, a.id, title) && title in s.titles
    ensures r.status == Created201 ==>
      && p.text.Some? && p.score.Some?
      && (exists id: ReviewId :: id !in s.reviews
            && r.store.reviews == s.reviews[id := Review(a.id, title, Strip(p.text.value), p.score.value, now)])
      && r.store == s.(reviews := r.store.reviews, nextId := r.store.nextId)
    ensures Valid(r.store)
  {
    UnsafeNeedsAuthentication(a, POST);
    if !ViewAllows(ReviewEndpoint, a, POST) then Reply(Denied(a), s)
    else
      match CheckReviewFields(p, false)
      case Err(_) => Reply(BadRequest400, s)
      case Ok(data) =>
        assert data.text == Some(Strip(p.text.value)) && data.score == p.score;
        match ValidateReview(POST, a.id, title, s.reviews, data)
        case Err(_) => Reply(BadRequest400, s)
        case Ok(_) =>
          if title !in s.titles then Reply(NotFound404, s)
          else
            match InsertReview(s, a.id, title, Strip(p.text.value), p.score.value, now)
            case Err(_) => Reply(BadRequest400, s)
            case Ok((store, id)) => Reply(Created201, store)
  }

  /** A first review by an authenticated account of an existing title, with valid fields, is created. */
  lemma FirstReviewCreated(s: Store, a: Actor, title: TitleId, p: ReviewPayload, now: int)
    requires Valid(s) && ActorInStore(s, a) && a.Authenticated?
    requires CheckReviewFields(p, false).Ok? && title in s.titles && !HasReview(s.reviews, a.id, title)
    ensures PostReview(s, a, title, p, now).status == Created201
  {
  }

  /** The read-only `author` and `title` a client sends have no effect on creating a review. */
  lemma ReviewReadOnlyFieldsIgnored(
    s: Store, a: Actor, title: TitleId, p: ReviewPayload, now: int, author': Option<UserId>, title': Option<TitleId>)
    requires Valid(s) && ActorInStore(s, a)
    ensures PostReview(s, a, title, p.(author := author', title := title'), now) == PostReview(s, a, title, p, now)
  {
    assert CheckReviewFields(p.(author := author', title := title'), false) == CheckReviewFields(p, false);
  }

  /** Looking up a review under its title, as the review viewset's queryset does. */
  predicate ReviewUnderTitle(s: Store, title: TitleId, id: ReviewId) {
    title in s.titles && id in s.reviews && s.reviews[id].title == title
  }

  /**
   Updating a review (PUT, or PATCH for a partial update): authenticated actors
   only; the review must exist under the title; the object test must grant;
   fields are validated but the duplicate check is skipped. Author, title and
   publication date stay.
   */
  function PutReview(s: Store, a: Actor, m: Method, title: TitleId, id: ReviewId, p: ReviewPayload): (r: Reply)
    requires Valid(s) && ActorInStore(s, a)
    requires m == PUT || m == PATCH
    ensures a.Anonymous? ==> r.status == Unauthorized401
    ensures r.status != Ok200 ==> r.store == s
    ensures a.Authenticated? && !ReviewUnderTitle(s, title, id) ==> r.status == NotFound404
    ensures a.Authenticated? && ReviewUnderTitle(s, title, id) && !ObjectAccess(ReviewEndpoint, a, m, s.reviews[id].author) ==>
      r.status == Forbidden403
    ensures a.Authenticated? && ReviewUnderTitle(s, title, id) && ObjectAccess(ReviewEndpoint, a, m, s.reviews[id].author) ==>
      (r.status == Ok200 <==> CheckReviewFields(p, m == PATCH).Ok?)
    ensures r.status == Ok200 ==>
      && ReviewUnderTitle(s, title, id)
      && ObjectAccess(ReviewEndpoint, a, m, s.reviews[id].author)
      && r.store.reviews.Keys == s.reviews.Keys
      && r.store.reviews[id].author == s.reviews[id].author
      && r.store.reviews[id].title == s.reviews[id].title
      && r.store.reviews[id].pubDate == s.reviews[id].pubDate
      && r.store.reviews[id].text == Stripped(p.text).GetOr(s.reviews[id].text)
      && r.store.reviews[id].score == p.score.GetOr(s.reviews[id].score)
      && (forall k :: k in s.reviews && k != id ==> r.store.reviews[k] == s.reviews[k])
      && r.store == s.(reviews := r.store.reviews)
    ensures Valid(r.store)
  {
    UnsafeNeedsAuthentication(a, m);
    if !ViewAllows(ReviewEndpoint, a, m) then Reply(Denied(a), s)
    else if !ReviewUnderTitle(s, title, id) then Reply(NotFound404, s)
    else if !ObjectAllows(ReviewEndpoint, a, m, s.reviews[id].author) then Reply(Denied(a), s)
    else ReviewEdit(s, a, m, title, id, CheckReviewFields(p, m == PATCH))
  }

  /**
   The saving half of a review update, once access is granted: invalid fields
   are a 400; otherwise the sent text and score replace the stored ones.
   */
  function ReviewEdit(s: Store, a: Actor, m: Method, title: TitleId, id: ReviewId, fields: Result<ReviewData, seq<Problem>>)
    : (r: Reply)
    requires Valid(s) && id in s.reviews && (m == PUT || m == PATCH) && a.Authenticated?
    requires fields.Ok? && fields.value.score.Some? ==> MinScore <= fields.value.score.value <= MaxScore
    ensures r.status == Ok200 <==> fields.Ok?
    ensures fields.Err? ==> r == Reply(BadRequest400, s)
    ensures fields.Ok? ==>
      && r.store == s.(reviews := r.store.reviews)
      && r.store.reviews.Keys == s.reviews.Keys
      && (forall k :: k in s.reviews && k != id ==> r.store.reviews[k] == s.reviews[k])
      && r.store.reviews[id].author == s.reviews[id].author
      && r.store.reviews[id].title == s.reviews[id].title
      && r.store.reviews[id].pubDate == s.reviews[id].pubDate
      && (fields.value.text.Some? ==> r.store.reviews[id].text == fields.value.text.value)
      && (fields.value.score.Some? ==> r.store.reviews[id].score == fields.value.score.value)
    ensures Valid(r.store)
  {
    match fields
    case Err(_) => Reply(BadRequest400, s)
    case Ok(data) =>
      UpdateSkipsDuplicateCheck(m, a.id, title, s.reviews, data);
      match ValidateReview(m, a.id, title, s.reviews, data)
      case Err(_) => Reply(BadRequest400, s)
      case Ok(data) =>
        var prior := s.reviews[id];
        var text := data.text.GetOr(prior.text);
        var score := data.score.GetOr(prior.score);
        assert MinScore <= prior.score <= MaxScore by { assert ScoresInRange(s.reviews); }
        UpdateReviewKeepsValid(s, id, text, score);
        Reply(Ok200, UpdateReview(s, id, text, score))
  }

  /** The read-only `author` and `title` a client sends have no effect on updating a review. */
  lemma ReviewUpdateIgnoresReadOnlyFields(
    s: Store, a: Actor, m: Method, title: TitleId, id: ReviewId, p: ReviewPayload,
    author': Option<UserId>, title': Option<TitleId>)
    requires Valid(s) && ActorInStore(s, a) && (m == PUT || m == PATCH)
    ensures PutReview(s, a, m, title, id, p.(author := author', title := title')) == PutReview(s, a, m, title, id, p)
  {
    var q := p.(author := author', title := title');
    assert CheckReviewFields(q, m == PATCH) == CheckReviewFields(p, m == PATCH);
  }

  /** Deleting a review: as for updates, then the review goes with its comments. */
  function DeleteReviewRequest(s: Store, a: Actor, title: TitleId, id: ReviewId): (r: Reply)
    requires Valid(s) && ActorInStore(s, a)
    ensures a.Anonymous? ==> r.status == Unauthorized401
    ensures r.status != NoContent204 ==> r.store == s
    ensures r.status == NoContent204 <==>
      a.Authenticated? && ReviewUnderTitle(s, title, id) && ObjectAccess(ReviewEndpoint, a, DELETE, s.reviews[id].author)
    ensures r.status == NoContent204 ==> r.store == DeleteReview(s, id)
    ensures a.Authenticated? && !ReviewUnderTitle(s, title, id) ==> r.status == NotFound404
    ensures a.Authenticated? && ReviewUnderTitle(s, title, id) && !ObjectAccess(ReviewEndpoint, a, DELETE, s.reviews[id].author) ==>
      r.status == Forbidden403
    ensures Valid(r.store)
  {
    UnsafeNeedsAuthentication(a, DELETE);
    if !ViewAllows(ReviewEndpoint, a, DELETE) then Reply(Denied(a), s)
    else if !ReviewUnderTitle(s, title, id) then Reply(NotFound404, s)
    else if !ObjectAllows(ReviewEndpoint, a, DELETE, s.reviews[id].author) then Reply(Denied(a), s)
    else
      DeleteReviewKeepsValid(s, id);
      Reply(NoContent204, DeleteReview(s, id))
  }

  /** A moderator may delete anyone's review. */
  lemma ModeratorDeletesAnyReview(s: Store, a: Actor, title: TitleId, id: ReviewId)
    requires Valid(s) && ActorInStore(s, a) && a.Authenticated? && ReviewUnderTitle(s, title, id)
    requires IsModerator(a.account)
    ensures DeleteReviewRequest(s, a, title, id).status == NoContent204
  {
    assert ObjectAccess(ReviewEndpoint, a, DELETE, s.reviews[id].author);
  }

  /** An account that is neither staff nor the author is refused with 403 when it deletes a review. */
  lemma PlainNonAuthorCannotDeleteReview(s: Store, a: Actor, title: TitleId, id: ReviewId)
    requires Valid(s) && ActorInStore(s, a) && a.Authenticated? && ReviewUnderTitle(s, title, id)
    requires !IsAdmin(a.account) && !IsModerator(a.account) && s.reviews[id].author != a.id
    ensures DeleteReviewRequest(s, a, title, id).status == Forbidden403
  {
    var author := s.reviews[id].author;
    assert !AuthorOrStaffOnObject(a, DELETE, author);
    assert !ObjectAccess(ReviewEndpoint, a, DELETE, author);
  }

  // ---------------------------------------------------------------------------
  // Comments
  // ---------------------------------------------------------------------------

  /** Looking up a review by key and title, as the comment viewset does. */
  predicate CommentParent(s: Store, title: TitleId, review: ReviewId) {
    review in s.reviews && s.reviews[review].title == title
  }

  /** Creating a comment: authenticated actors only; the text is validated before the review is looked up. */
  function PostComment(s: Store, a: Actor, title: TitleId, review: ReviewId, p: CommentPayload, now: int): (r: Reply)
    requires Valid(s) && ActorInStore(s, a)
    ensures a.Anonymous? ==> r.status == Unauthorized401
    ensures r.status != Created201 ==> r.store == s
    ensures a.Authenticated? && CheckCommentFields(p, false).Err? ==> r.status == BadRequest400
    ensures a.Authenticated? && CheckCommentFields(p, false).Ok? && !CommentParent(s, title, review) ==>
      r.status == NotFound404
    ensures r.status == Created201 <==> a.Authenticated? && CheckCommentFields(p, false).Ok? && CommentParent(s, title, review)
    ensures r.status == Created201 ==>
      && p.text.Some?
      && (exists id: CommentId :: id !in s.comments
            && r.store.comments == s.comments[id := Comment(a.id, review, Strip(p.text.value), now)])
      && r.store == s.(comments := r.store.comments, nextId := r.store.nextId)
    ensures Valid(r.store)
  {
    UnsafeNeedsAuthentication(a, POST);
    if !ViewAllows(CommentEndpoint, a, POST) then Reply(Denied(a), s)
    else
      match CheckCommentFields(p, false)
      case Err(_) => Reply(BadRequest400, s)
      case Ok(text) =>
        if !CommentParent(s, title, review) then Reply(NotFound404, s)
        else
          match InsertComment(s, a.id, review, text.value, now)
          case Err(_) => Reply(BadRequest400, s)
          case Ok((store, id)) => Reply(Created201, store)
  }

  /** The read-only `author` and `review` a client sends have no effect on creating a comment. */
  lemma CommentReadOnlyFieldsIgnored(
    s: Store, a: Actor, title: TitleId, review: ReviewId, p: CommentPayload, now: int,
    author': Option<UserId>, review': Option<ReviewId>)
    requires Valid(s) && ActorInStore(s, a)
    ensures PostComment(s, a, title, review, p.(author := author', review := review'), now)
      == PostComment(s, a, title, review, p, now)
  {
    assert CheckCommentFields(p.(author := author', review := review'), false) == CheckCommentFields(p, false);
  }

  /** Nor on updating one. */
  lemma CommentUpdateIgnoresReadOnlyFields(
    s: Store, a: Actor, m: Method, title: TitleId, review: ReviewId, id: CommentId, p: CommentPayload,
    author': Option<UserId>, review': Option<ReviewId>)
    requires Valid(s) && ActorInStore(s, a) && (m == PUT || m == PATCH)
    ensures PutComment(s, a, m, title, review, id, p.(author := author', review := review'))
      == PutComment(s, a, m, title, review, id, p)
  {
    assert CheckCommentFields(p.(author := author', review := review'), m == PATCH) == CheckCommentFields(p, m == PATCH);
  }

  /** Looking up a comment under its review and title. */
  predicate CommentUnder(s: Store, title: TitleId, review: ReviewId, id: CommentId) {
    CommentParent(s, title, review) && id in s.comments && s.comments[id].review == review
  }

  /** Updating a comment's text: the same gates as for reviews; author and review stay. */
  function PutComment(s: Store, a: Actor, m: Method, title: TitleId, review: ReviewId, id: CommentId, p: CommentPayload)
    : (r: Reply)
    requires Valid(s) && ActorInStore(s, a)
    requires m == PUT || m == PATCH
    ensures a.Anonymous? ==> r.status == Unauthorized401
    ensures r.status != Ok200 ==> r.store == s
    ensures a.Authenticated? && !CommentUnder(s, title, review, id) ==> r.status == NotFound404
    ensures a.Authenticated? && CommentUnder(s, title, review, id) && !ObjectAccess(CommentEndpoint, a, m, s.comments[id].author) ==>
      r.status == Forbidden403
    ensures a.Authenticated? && CommentUnder(s, title, review, id) && ObjectAccess(CommentEndpoint, a, m, s.comments[id].author) ==>
      (r.status == Ok200 <==> CheckCommentFields(p, m == PATCH).Ok?)
    ensures r.status == Ok200 ==>
      && CommentUnder(s, title, review, id)
      && ObjectAccess(CommentEndpoint, a, m, s.comments[id].author)
      && r.store.comments.Keys == s.comments.Keys
      && r.store.comments[id].author == s.comments[id].author
      && r.store.comments[id].review == s.comments[id].review
      && r.store.comments[id].pubDate == s.comments[id].pubDate
      && r.store.comments[id].text == Stripped(p.text).GetOr(s.comments[id].text)
      && (forall k :: k in s.comments && k != id ==> r.store.comments[k] == s.comments[k])
      && r.store == s.(comments := r.store.comments)
    ensures Valid(r.store)
  {
    UnsafeNeedsAuthentication(a, m);
    if !ViewAllows(CommentEndpoint, a, m) then Reply(Denied(a), s)
    else if !CommentUnder(s, title, review, id) then Reply(NotFound404, s)
    else if !ObjectAllows(CommentEndpoint, a, m, s.comments[id].author) then Reply(Denied(a), s)
    else CommentEdit(s, id, CheckCommentFields(p, m == PATCH))
  }

  /** The saving half of a comment update: invalid fields are a 400; otherwise a sent text replaces the stored one. */
  function CommentEdit(s: Store, id: CommentId, fields: Result<Option<string>, seq<Problem>>): (r: Reply)
    requires Valid(s) && id in s.comments
    ensures r.status == Ok200 <==> fields.Ok?
    ensures fields.Err? ==> r == Reply(BadRequest400, s)
    ensures fields.Ok? ==>
      && r.store == s.(comments := r.store.comments)
      && r.store.comments.Keys == s.comments.Keys
      && (forall k :: k in s.comments && k != id ==> r.store.comments[k] == s.comments[k])
      && r.store.comments[id].author == s.comments[id].author
      && r.store.comments[id].review == s.comments[id].review
      && r.store.comments[id].pubDate == s.comments[id].pubDate
      && r.store.comments[id].text == fields.value.GetOr(s.comments[id].text)
    ensures Valid(r.store)
  {
    match fields
    case Err(_) => Reply(BadRequest400, s)
    case Ok(text) =>
      var t := text.GetOr(s.comments[id].text);
      UpdateCommentKeepsValid(s, id, t);
      Reply(Ok200, UpdateComment(s, id, t))
  }

  /** Deleting a comment: the same gates as for reviews. */
  function DeleteCommentRequest(s: Store, a: Actor, title: TitleId, review: ReviewId, id: CommentId): (r: Reply)
    requires Valid(s) && ActorInStore(s, a)
    ensures a.Anonymous? ==> r.status == Unauthorized401
    ensures r.status == NoContent204 <==>
      a.Authenticated? && CommentUnder(s, title, review, id) && ObjectAccess(CommentEndpoint, a, DELETE, s.comments[id].author)
    ensures r.status != NoContent204 ==> r.store == s
    ensures r.status == NoContent204 ==> r.store == DeleteComment(s, id)
    ensures a.Authenticated? && !CommentUnder(s, title, review, id) ==> r.status == NotFound404
    ensures a.Authenticated? && CommentUnder(s, title, review, id) && !ObjectAccess(CommentEndpoint, a, DELETE, s.comments[id].author) ==>
      r.status == Forbidden403
    ensures Valid(r.store)
  {
    UnsafeNeedsAuthentication(a, DELETE);
    if !ViewAllows(CommentEndpoint, a, DELETE) then Reply(Denied(a), s)
    else if !CommentUnder(s, title, review, id) then Reply(NotFound404, s)
    else if !ObjectAllows(CommentEndpoint, a, DELETE, s.comments[id].author) then Reply(Denied(a), s)
    else
      DeleteCommentKeepsValid(s, id);
      Reply(NoContent204, DeleteComment(s, id))
  }

  // ---------------------------------------------------------------------------
  // Categories, genres and titles
  // ---------------------------------------------------------------------------

  /** The category with `slug`, which the unique constraint makes at most one. */
  function FindCategory(s: Store, slug: string): (r: Option<CategoryId>)
    requires UniqueCategorySlugs(s.categories)
    ensures r.Some? ==> r.value in s.categories && s.categories[r.value].slug == slug
    ensures r.None? ==> forall k :: k in s.categories ==> s.categories[k].slug != slug
  {
    if exists k :: k in s.categories && s.categories[k].slug == slug then
      var k :| k in s.categories && s.categories[k].slug == slug;
      Some(k)
    else None
  }

  /** The genre with `slug`, which the unique constraint makes at most one. */
  function FindGenre(s: Store, slug: string): (r: Option<GenreId>)
    requires UniqueGenreSlugs(s.genres)
    ensures r.Some? ==> r.value in s.genres && s.genres[r.value].slug == slug
    ensures r.None? ==> forall k :: k in s.genres ==> s.genres[k].slug != slug
  {
    if exists k :: k in s.genres && s.genres[k].slug == slug then
      var k :| k in s.genres && s.genres[k].slug == slug;
      Some(k)
    else None
  }

  /**
   Deleting a category by slug: administrators only; the titles filed under it
   stay, without a category.
   */
  function DeleteCategoryRequest(s: Store, a: Actor, slug: string): (r: Reply)
    requires Valid(s)
    ensures !AdminOnly(a) ==> r.status == Denied(a)
    ensures r.status != NoContent204 ==> r.store == s
    ensures r.status == NoContent204 <==>
      AdminOnly(a) && exists k :: k in s.categories && s.categories[k].slug == slug
    ensures r.status == NoContent204 ==>
      && r.store.titles.Keys == s.titles.Keys
      && exists k :: k in s.categories && s.categories[k].slug == slug && r.store == DeleteCategory(s, k)
    ensures Valid(r.store)
  {
    if !ViewAllows(CategoryEndpoint, a, DELETE) then Reply(Denied(a), s)
    else
      match FindCategory(s, slug)
      case None => Reply(NotFound404, s)
      case Some(k) =>
        DeleteCategoryKeepsValid(s, k);
        Reply(NoContent204, DeleteCategory(s, k))
  }

  /** Deleting a genre by slug: administrators only; titles lose the genre and stay. */
  function DeleteGenreRequest(s: Store, a: Actor, slug: string): (r: Reply)
    requires Valid(s)
    ensures !AdminOnly(a) ==> r.status == Denied(a)
    ensures r.status != NoContent204 ==> r.store == s
    ensures r.status == NoContent204 <==>
      AdminOnly(a) && exists k :: k in s.genres && s.genres[k].slug == slug
    ensures r.status == NoContent204 ==>
      && r.store.titles.Keys == s.titles.Keys
      && exists k :: k in s.genres && s.genres[k].slug == slug && r.store == DeleteGenre(s, k)
    ensures Valid(r.store)
  {
    if !ViewAllows(GenreEndpoint, a, DELETE) then Reply(Denied(a), s)
    else
      match FindGenre(s, slug)
      case None => Reply(NotFound404, s)
      case Some(k) =>
        DeleteGenreKeepsValid(s, k);
        Reply(NoContent204, DeleteGenre(s, k))
  }

  /**
   Creating a title: administrators only; the serializer's own rules (a
   category is required), then the model's field checks, `validate_year` among
   them, decide 201 or 400.
   */
  function PostTitle(s: Store, a: Actor, p: TitlePayload, currentYear: int): (r: Reply)
    requires Valid(s)
    ensures !AdminOnly(a) ==> r.status == Denied(a)
    ensures r.status != Created201 ==> r.store == s
    ensures AdminOnly(a) ==>
      (r.status == Created201 <==> CheckTitleWrite(p).Ok? && CheckTitle(s, CheckTitleWrite(p).value, currentYear).Pass?)
    ensures p.category.None? ==> r.status != Created201
    ensures p.year.Some? && p.year.value > currentYear ==> r.status != Created201
    ensures r.status == Created201 ==>
      && p.name.Some? && p.year.Some? && p.category.Some? && p.genres.Some?
      && exists id: TitleId :: id !in s.titles && r.store.titles ==
           s.titles[id := Title(Strip(p.name.value), p.year.value, p.category, Stripped(p.description), p.genres.value)]
    ensures r.status == Created201 ==> r.store == s.(titles := r.store.titles, nextId := r.store.nextId)
    ensures Valid(r.store)
  {
    if !ViewAllows(TitleEndpoint, a, POST) then Reply(Denied(a), s)
    else
      match CheckTitleWrite(p)
      case Err(_) => Reply(BadRequest400, s)
      case Ok(t) =>
        match InsertTitle(s, t, currentYear)
        case Err(_) => Reply(BadRequest400, s)
        case Ok((store, id)) => Reply(Created201, store)
  }

  /** A title sent without a category, or with a blank name, is refused with 400. */
  lemma TitleNeedsCategoryAndName(s: Store, a: Actor, p: TitlePayload, currentYear: int)
    requires Valid(s) && AdminOnly(a)
    requires p.category.None? || (p.name.Some? && AllWhitespace(p.name.value))
    ensures PostTitle(s, a, p, currentYear) == Reply(BadRequest400, s)
  {
    assert ViewAllows(TitleEndpoint, a, POST);
  }

  /** Deleting a title: administrators only; its reviews and their comments go with it. */
  function DeleteTitleRequest(s: Store, a: Actor, id: TitleId): (r: Reply)
    requires Valid(s)
    ensures !AdminOnly(a) ==> r.status == Denied(a)
    ensures r.status != NoContent204 ==> r.store == s
    ensures r.status == NoContent204 <==> AdminOnly(a) && id in s.titles
    ensures r.status == NoContent204 ==> r.store == DeleteTitle(s, id)
    ensures Valid(r.store)
  {
    if !ViewAllows(TitleEndpoint, a, DELETE) then Reply(Denied(a), s)
    else if id !in s.titles then Reply(NotFound404, s)
    else
      DeleteTitleKeepsValid(s, id);
      Reply(NoContent204, DeleteTitle(s, id))
  }
}
