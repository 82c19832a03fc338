/** Request and response records and the length constraints declared on
    their fields; `Violations` lists the fields at fault. Of the request
    records only `UserCreate` is the body of a route, so only its constraints
    are enforced before a service runs. */
module Schemas {
  import opened Entity

  const UsernameMaxLength: nat := 255
  const PasswordMinLength: nat := 8
  const PasswordMaxLength: nat := 255
  const ProfileFieldMaxLength: nat := 50
  const UserAgentMaxLength: nat := 255

  /** A point in time, as the database stores `datetime`. */
  type Timestamp = int

  /** The one-field report of a constraint check. */
  function Check(field: string, ok: bool): seq<string> {
    if ok then [] else [field]
  }

  predicate PasswordLengthOk(password: string) {
    PasswordMinLength <= |password| <= PasswordMaxLength
  }

  datatype UserCreate = UserCreate(
    username: string, password: string, firstName: string, lastName: string, email: string)

  /** The fields of a sign-up request that break their bounds. */
  function UserCreateViolations(r: UserCreate): (fields: seq<string>)
    ensures fields == [] <==>
      && |r.username| <= UsernameMaxLength
      && PasswordMinLength <= |r.password| <= PasswordMaxLength
      && |r.firstName| <= ProfileFieldMaxLength
      && |r.lastName| <= ProfileFieldMaxLength
      && |r.email| <= ProfileFieldMaxLength
    ensures forall f | f in fields :: f in ["username", "password", "first_name", "last_name", "email"]
  {
    Check("username", |r.username| <= UsernameMaxLength)
    + Check("password", PasswordLengthOk(r.password))
    + Check("first_name", |r.firstName| <= ProfileFieldMaxLength)
    + Check("last_name", |r.lastName| <= ProfileFieldMaxLength)
    + Check("email", |r.email| <= ProfileFieldMaxLength)
  }

  datatype UserChangePassword = UserChangePassword(
    username: string, password: string, repeadedOldPassword: string, newPassword: string)

  /** The fields of a change-password request that break their bounds. */
  function UserChangePasswordViolations(r: UserChangePassword): (fields: seq<string>)
    ensures fields == [] <==>
      && |r.username| <= UsernameMaxLength
      && PasswordMinLength <= |r.password| <= PasswordMaxLength
      && PasswordMinLength <= |r.repeadedOldPassword| <= PasswordMaxLength
      && PasswordMinLength <= |r.newPassword| <= PasswordMaxLength
    ensures forall f | f in fields :: f in ["username", "password", "repeaded_old_password", "new_password"]
  {
    Check("username", |r.username| <= UsernameMaxLength)
    + Check("password", PasswordLengthOk(r.password))
    + Check("repeaded_old_password", PasswordLengthOk(r.repeadedOldPassword))
    + Check("new_password", PasswordLengthOk(r.newPassword))
  }

  datatype UserSighIn = UserSighIn(username: string, password: string)

  /** The fields of a sign-in request that break their bounds. */
  function UserSighInViolations(r: UserSighIn): (fields: seq<string>)
    ensures fields == [] <==>
      |r.username| <= UsernameMaxLength && PasswordMinLength <= |r.password| <= PasswordMaxLength
    ensures forall f | f in fields :: f in ["username", "password"]
  {
    Check("username", |r.username| <= UsernameMaxLength)
    + Check("password", PasswordLengthOk(r.password))
  }

  /** The session and history records the authentication flow writes.
      `RefreshToDb` is a refresh session to be stored; `RefreshDelDb` is the
      key of one to be removed, without expiry or flag. */
  datatype SessionRecord =
    | RefreshToDb(userId: UserId, refreshJti: string, userAgent: string, expiredAt: Timestamp, isActive: bool)
    | RefreshDelDb(userId: UserId, refreshJti: string, userAgent: string)
    | UserLoginHistoryInDb(userId: UserId, userAgent: string)
    | UserLogoutHistoryInDb(userId: UserId, userAgent: string, logoutAt: Timestamp)

  /** Every session and history record is bounded only on its device string,
      at most 255 characters. */
  function SessionRecordViolations(r: SessionRecord): (fields: seq<string>)
    ensures fields == [] <==> |r.userAgent| <= UserAgentMaxLength
    ensures forall f | f in fields :: f == "user_agent"
  {
    Check("user_agent", |r.userAgent| <= UserAgentMaxLength)
  }

  /** The public view of a user: id and names, never the password hash. */
  datatype UserInDB = UserInDB(id: UserId, firstName: string, lastName: string)

  /** `UserInDB` built from a user's attributes. */
  function ToUserInDB(u: User): (view: UserInDB)
    ensures view.id == u.id && view.firstName == u.firstName && view.lastName == u.lastName
  {
    UserInDB(u.id, u.firstName, u.lastName)
  }

  /** Two users that differ only in their password, login or groups have
      the same public view: nothing of the password reaches it. */
  lemma PublicViewHidesPassword(u: User, password: string, login: string, groups: seq<GroupId>)
    ensures ToUserInDB(u) == ToUserInDB(u.(password := password, login := login, groups := groups))
  {
  }

  /** A group request body (`GroupCreate`, `GroupUpdate`). */
  datatype GroupRequest = GroupRequest(groupName: string, permissions: seq<string>)

  datatype PermissionName = PermissionName(permissionName: string)

  /** A group as returned after a write. */
  datatype GroupInDB = GroupInDB(id: GroupId, groupName: string, permissions: seq<PermissionName>)

  /** A group as listed. */
  datatype GroupRead = GroupRead(groupName: string, permissions: seq<PermissionName>)
}
