/**
 The permission classes of the API and the way the viewsets combine them.

 Each class is a pair of Boolean tests: a request-level test (`has_permission`)
 and an object-level test (`has_object_permission`, which the framework answers
 `true` for when a class does not define it). A request is served only when
 every class in the viewset's `permission_classes` grants it.
 */
module Permissions {
  import opened Wrappers
  import opened Users

  datatype Method = GET | HEAD | OPTIONS | POST | PUT | PATCH | DELETE

  /** The read-only methods (the framework's SAFE_METHODS). */
  predicate IsSafe(m: Method) {
    m == GET || m == HEAD || m == OPTIONS
  }

  /** Who sends the request: nobody, or an account identified by its primary key. */
  datatype Actor = Anonymous | Authenticated(id: UserId, account: User)

  /** `IsAdmin.has_permission`. */
  predicate AdminOnly(a: Actor) {
    a.Authenticated? && IsAdmin(a.account)
  }

  /** `IsAdminUserOrReadOnly.has_permission`. */
  predicate AdminOrReadOnly(a: Actor, m: Method) {
    IsSafe(m) || AdminOnly(a)
  }

  /** `IsAuthorAdminSuperuserOrReadOnly.has_permission`. */
  predicate AuthenticatedOrReadOnly(a: Actor, m: Method) {
    IsSafe(m) || a.Authenticated?
  }

  /**
   `IsAuthorAdminSuperuserOrReadOnly.has_object_permission` on an object written
   by `author`. For an anonymous actor and an unsafe method the source would read
   `is_admin` off an anonymous user, which has no such attribute; the request-level
   test always denies that case first, so it is excluded here.
   */
  predicate AuthorOrStaffOnObject(a: Actor, m: Method, author: UserId)
    requires IsSafe(m) || a.Authenticated?
  {
    IsSafe(m) || IsAdmin(a.account) || IsModerator(a.account) || author == a.id
  }

  /** The framework's `IsAuthenticatedOrReadOnly`, paired with the class above on reviews and comments. */
  predicate FrameworkAuthenticatedOrReadOnly(a: Actor, m: Method) {
    IsSafe(m) || a.Authenticated?
  }

  /** The endpoints of the API, each with its own `permission_classes`. */
  datatype Endpoint =
    | SignUpEndpoint | TokenEndpoint | UsersEndpoint | ProfileEndpoint
    | CategoryEndpoint | GenreEndpoint | TitleEndpoint | ReviewEndpoint | CommentEndpoint

  /** Every request-level test of the endpoint's permission classes grants. */
  predicate ViewAllows(e: Endpoint, a: Actor, m: Method) {
    match e
    case SignUpEndpoint => true
    case TokenEndpoint => true
    case UsersEndpoint => AdminOnly(a)
    case ProfileEndpoint => a.Authenticated?
    case CategoryEndpoint => AdminOrReadOnly(a, m)
    case GenreEndpoint => AdminOrReadOnly(a, m)
    case TitleEndpoint => AdminOrReadOnly(a, m)
    case ReviewEndpoint => AuthenticatedOrReadOnly(a, m) && FrameworkAuthenticatedOrReadOnly(a, m)
    case CommentEndpoint => AuthenticatedOrReadOnly(a, m) && FrameworkAuthenticatedOrReadOnly(a, m)
  }

  /** Every object-level test grants, for an object written by `author`; asked only after `ViewAllows`. */
  predicate ObjectAllows(e: Endpoint, a: Actor, m: Method, author: UserId)
    requires ViewAllows(e, a, m)
  {
    match e
    case ReviewEndpoint => AuthorOrStaffOnObject(a, m, author)
    case CommentEndpoint => AuthorOrStaffOnObject(a, m, author)
    case _ => true
  }

  /** The full decision on a request that targets an existing object written by `author`. */
  predicate ObjectAccess(e: Endpoint, a: Actor, m: Method, author: UserId) {
    ViewAllows(e, a, m) && ObjectAllows(e, a, m, author)
  }

  // ---------------------------------------------------------------------------
  // An independent statement of the access policy, by standing of the actor.
  // ---------------------------------------------------------------------------

  /** The standing of an actor toward a resource, from least to most privileged. */
  datatype Standing = Guest | Member | Owner | Moderator | Administrator {
    function Rank(): nat {
      match this
      case Guest => 0
      case Member => 1
      case Owner => 2
      case Moderator => 3
      case Administrator => 4
    }
  }

  /** The highest standing the actor holds toward a resource written by `author` (if any). */
  function StandingOf(a: Actor, author: Option<UserId>): (s: Standing)
    ensures s == Guest <==> a.Anonymous?
    ensures s == Administrator <==> AdminOnly(a)
  {
    match a
    case Anonymous => Guest
    case Authenticated(id, u) =>
      if IsAdmin(u) then Administrator
      else if IsModerator(u) then Moderator
      else if author == Some(id) then Owner
      else Member
  }

  /** The policy for a request not aimed at one object: reads are public, writes as the resource demands. */
  predicate RequestPolicy(e: Endpoint, s: Standing, m: Method) {
    match e
    case SignUpEndpoint => true
    case TokenEndpoint => true
    case UsersEndpoint => s == Administrator
    case ProfileEndpoint => s != Guest
    case CategoryEndpoint => IsSafe(m) || s == Administrator
    case GenreEndpoint => IsSafe(m) || s == Administrator
    case TitleEndpoint => IsSafe(m) || s == Administrator
    case ReviewEndpoint => IsSafe(m) || s != Guest
    case CommentEndpoint => IsSafe(m) || s != Guest
  }

  /** The policy for a request aimed at one object: on reviews and comments writers must also be privileged or the author. */
  predicate ObjectPolicy(e: Endpoint, s: Standing, m: Method) {
    match e
    case ReviewEndpoint => IsSafe(m) || s.Rank() >= Owner.Rank()
    case CommentEndpoint => IsSafe(m) || s.Rank() >= Owner.Rank()
    case _ => RequestPolicy(e, s, m)
  }

  /** The combined permission classes of every endpoint implement the request policy. */
  lemma ViewMatchesPolicy(e: Endpoint, a: Actor, m: Method, author: Option<UserId>)
    ensures ViewAllows(e, a, m) <==> RequestPolicy(e, StandingOf(a, author), m)
  {
  }

  /** Request-level and object-level tests together implement the object policy. */
  lemma ObjectAccessMatchesPolicy(e: Endpoint, a: Actor, m: Method, author: UserId)
    ensures ObjectAccess(e, a, m, author) <==> ObjectPolicy(e, StandingOf(a, Some(author)), m)
  {
  }

  /** Both policies are monotone in standing: more privilege never loses access. */
  lemma PolicyMonotone(e: Endpoint, s: Standing, t: Standing, m: Method)
    requires s.Rank() <= t.Rank()
    ensures RequestPolicy(e, s, m) ==> RequestPolicy(e, t, m)
    ensures ObjectPolicy(e, s, m) ==> ObjectPolicy(e, t, m)
  {
  }

  // ---------------------------------------------------------------------------
  // Facts about the individual classes.
  // ---------------------------------------------------------------------------

  /** `IsAdmin` grants exactly an authenticated account with a staff flag, the admin role or a superuser flag. */
  lemma AdminOnlyExactly(a: Actor)
    ensures AdminOnly(a) <==>
      a.Authenticated? && AdminByColumns(a.account.isStaff, a.account.role.Key(), a.account.isSuperuser)
  {
    if a.Authenticated? {
      RolePredicatesMatchColumns(a.account);
    }
  }

  /** Safe methods are granted by every class, at request and at object level, even to an anonymous actor. */
  lemma SafeMethodsAlwaysGranted(a: Actor, m: Method, author: UserId)
    requires IsSafe(m)
    ensures AdminOrReadOnly(a, m) && AuthenticatedOrReadOnly(a, m)
    ensures AuthorOrStaffOnObject(a, m, author)
  {
  }

  /** For unsafe methods `IsAdminUserOrReadOnly` answers as `IsAdmin` does. */
  lemma UnsafeAdminOrReadOnlyIsAdminOnly(a: Actor, m: Method)
    requires !IsSafe(m)
    ensures AdminOrReadOnly(a, m) <==> AdminOnly(a)
  {
  }

  /** For unsafe methods the review/comment request test denies exactly the anonymous actor. */
  lemma UnsafeNeedsAuthentication(a: Actor, m: Method)
    requires !IsSafe(m)
    ensures !AuthenticatedOrReadOnly(a, m) <==> a.Anonymous?
  {
  }

  /** For unsafe methods the object test grants exactly administrators, moderators and the author. */
  lemma UnsafeObjectAccess(a: Actor, m: Method, author: UserId)
    requires !IsSafe(m) && a.Authenticated?
    ensures AuthorOrStaffOnObject(a, m, author) <==>
      IsAdmin(a.account) || IsModerator(a.account) || author == a.id
  {
  }

  /** A plain account that did not write the object cannot change or delete it. */
  lemma PlainNonAuthorDenied(a: Actor, m: Method, author: UserId)
    requires a.Authenticated? && !IsSafe(m)
    requires !IsAdmin(a.account) && !IsModerator(a.account) && author != a.id
    ensures ViewAllows(ReviewEndpoint, a, m)
    ensures !ObjectAccess(ReviewEndpoint, a, m, author) && !ObjectAccess(CommentEndpoint, a, m, author)
  {
  }

  /** The same actor with the admin role (an anonymous actor stays anonymous). */
  function Promote(a: Actor): (b: Actor)
    ensures b.Authenticated? ==> a.Authenticated? && b.id == a.id && IsAdmin(b.account)
    ensures a.Authenticated? ==> b.Authenticated?
  {
    match a
    case Anonymous => Anonymous
    case Authenticated(id, u) => Authenticated(id, u.(role := RoleAdmin))
  }

  /** Making the actor an administrator never turns a grant of any class into a denial. */
  lemma PromoteMonotone(a: Actor, m: Method, author: UserId)
    ensures AdminOnly(a) ==> AdminOnly(Promote(a))
    ensures AdminOrReadOnly(a, m) ==> AdminOrReadOnly(Promote(a), m)
    ensures AuthenticatedOrReadOnly(a, m) ==> AuthenticatedOrReadOnly(Promote(a), m)
    ensures (IsSafe(m) || a.Authenticated?) && AuthorOrStaffOnObject(a, m, author) ==>
      AuthorOrStaffOnObject(Promote(a), m, author)
  {
  }
}
