/**
 The account record of the service and its two role predicates.

 The source stores the role as a string column whose legal values are the keys
 of `USER_ROLE`; here the role is a closed enumeration and `Key` gives the
 stored string, so that string comparisons of the source can be stated exactly.
 */
module Users {
  import opened Wrappers

  type UserId = nat

  datatype Role = RoleUser | RoleModerator | RoleAdmin {
    /** The value kept in the `role` column for this role. */
    function Key(): string {
      match this
      case RoleUser => "user"
      case RoleModerator => "moderator"
      case RoleAdmin => "admin"
    }
  }

  /** The choices of the `role` field, in declaration order. */
  const RoleChoices: seq<Role> := [RoleUser, RoleModerator, RoleAdmin]

  /** The role a submitted string names, if it is one of the choices (the check a choice field applies). */
  function ParseRole(key: string): (r: Option<Role>)
    ensures r.Some? ==> r.value.Key() == key && r.value in RoleChoices
    ensures r.None? ==> forall i :: 0 <= i < |RoleChoices| ==> RoleChoices[i].Key() != key
  {
    if key == "user" then Some(RoleUser)
    else if key == "moderator" then Some(RoleModerator)
    else if key == "admin" then Some(RoleAdmin)
    else None
  }

  /** Parsing the stored key of a role gives that role back. */
  lemma ParseRoleKey(r: Role)
    ensures ParseRole(r.Key()) == Some(r)
  {
  }

  /** The longest key among `roles`: the column width the model computes from its choices. */
  function MaxKeyLength(roles: seq<Role>): (n: nat)
    ensures forall i :: 0 <= i < |roles| ==> |roles[i].Key()| <= n
    ensures |roles| > 0 ==> exists i :: 0 <= i < |roles| && |roles[i].Key()| == n
  {
    if |roles| == 0 then 0
    else
      var rest := MaxKeyLength(roles[1..]);
      if |roles[0].Key()| >= rest then |roles[0].Key()| else rest
  }

  /** `max_length` of the `role` column. */
  const RoleMaxLength: nat := MaxKeyLength(RoleChoices)

  /** The role column is exactly as wide as its longest key, so every role value fits. */
  lemma RoleFieldLength()
    ensures RoleMaxLength == 9
    ensures forall r: Role :: |r.Key()| <= RoleMaxLength
  {
    assert RoleChoices[1].Key() == "moderator";
    forall r: Role ensures |r.Key()| <= RoleMaxLength {
      assert r == RoleChoices[0] || r == RoleChoices[1] || r == RoleChoices[2];
    }
  }

  datatype User = User(
    username: string,
    email: string,
    firstName: string,
    lastName: string,
    bio: string,
    role: Role,
    isStaff: bool,
    isSuperuser: bool,
    confirmationCode: Option<string>)

  /** A freshly created account: every column not supplied takes its default. */
  function NewUser(username: string, email: string): (u: User)
    ensures u.username == username && u.email == email
    ensures u.role == RoleUser && u.confirmationCode == None
    ensures !IsAdmin(u) && !IsModerator(u)
  {
    User(username, email, "", "", "", RoleUser, false, false, None)
  }

  predicate IsAdmin(u: User) {
    u.isStaff || u.role == RoleAdmin || u.isSuperuser
  }

  predicate IsModerator(u: User) {
    u.role == RoleModerator
  }

  /** The admin test written over the stored columns, comparing the role string as the source does. */
  predicate AdminByColumns(isStaff: bool, roleColumn: string, isSuperuser: bool) {
    isStaff || roleColumn == "admin" || isSuperuser
  }

  /** The enumeration-based predicates agree with the string comparisons on the stored role column. */
  lemma RolePredicatesMatchColumns(u: User)
    ensures IsAdmin(u) <==> AdminByColumns(u.isStaff, u.role.Key(), u.isSuperuser)
    ensures IsModerator(u) <==> u.role.Key() == "moderator"
  {
  }

  /** Staff and superuser accounts are administrators whatever their role. */
  lemma StaffOrSuperuserIsAdmin(u: User)
    requires u.isStaff || u.isSuperuser
    ensures IsAdmin(u)
  {
  }

  /** A moderator holding neither flag is a moderator and not an administrator. */
  lemma PlainModeratorIsNotAdmin(u: User)
    requires u.role == RoleModerator && !u.isStaff && !u.isSuperuser
    ensures IsModerator(u) && !IsAdmin(u)
  {
  }
}
