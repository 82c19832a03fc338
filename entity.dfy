/** The relational data model: permissions, groups (roles) and users, the two
    many-to-many association tables, and the column constraints the database
    enforces on them. */
module Entity {
  import opened Seqs

  /** Primary keys. The database draws fresh UUIDs; here they are naturals. */
  type PermissionId = nat
  type GroupId = nat
  type UserId = nat

  /** Widths of the `String(n)` columns. */
  const PermissionNameMaxLength: nat := 50
  const GroupNameMaxLength: nat := 50
  const LoginMaxLength: nat := 255
  const PasswordColumnMaxLength: nat := 255
  const ProfileNameMaxLength: nat := 50

  /** A row of `permissions`. */
  datatype Permission = Permission(id: PermissionId, permissionName: string)

  /** A row of `groups` together with its side of `groups_permissions`:
      the permission rows linked to the group, in the order loaded. */
  datatype Group = Group(id: GroupId, groupName: string, permissions: seq<Permission>)

  /** A row of `users` together with its side of `groups_users`. The stored
      password is the output of the password-hashing primitive. */
  datatype User = User(
    id: UserId,
    login: string,
    password: string,
    firstName: string,
    lastName: string,
    groups: seq<GroupId>)

  /** The password-hashing primitive, a foreign pair of calls: `generate`
      turns a plaintext and a random salt into the stored string, `check`
      tests a plaintext against a stored string. */
  type Salt = string
  datatype HashScheme = HashScheme(
    generate: (string, Salt) -> string,
    check: (string, string) -> bool)

  /** What the model assumes of the primitive: a hash verifies against the
      plaintext it was generated from. */
  ghost predicate Sound(h: HashScheme) {
    forall password, salt :: h.check(h.generate(password, salt), password)
  }

  /** The names of a list of permission rows, in order. */
  function NamesOf(ps: seq<Permission>): (names: seq<string>)
    ensures |names| == |ps|
    ensures forall i | 0 <= i < |ps| :: names[i] == ps[i].permissionName
  {
    if ps == [] then [] else [ps[0].permissionName] + NamesOf(ps[1..])
  }

  /** A row's name is among the names of any list holding the row. */
  lemma NameOfMember(p: Permission, ps: seq<Permission>)
    requires p in ps
    ensures p.permissionName in NamesOf(ps)
  {
    var k :| 0 <= k < |ps| && ps[k] == p;
    assert NamesOf(ps)[k] == p.permissionName;
  }

  /** The `permissions` table's constraints: unique primary key, unique
      non-null name of at most 50 characters. */
  ghost predicate PermissionTableValid(table: seq<Permission>) {
    && (forall i, j | 0 <= i < j < |table| :: table[i].id != table[j].id)
    && Distinct(NamesOf(table))
    && (forall p | p in table :: |p.permissionName| <= PermissionNameMaxLength)
  }

  /** The `groups` table's constraints: unique primary key, name of at most
      50 characters (not unique), and every linked permission is a row of the
      permission table (the foreign keys of `groups_permissions`). That table
      has no key of its own, so the database would take a link twice; that
      each group links a permission once is an invariant the store keeps,
      because its `IN` query returns each permission row once. */
  ghost predicate GroupTableValid(groups: seq<Group>, table: seq<Permission>) {
    && (forall i, j | 0 <= i < j < |groups| :: groups[i].id != groups[j].id)
    && (forall g | g in groups :: |g.groupName| <= GroupNameMaxLength)
    && (forall g, p | g in groups && p in g.permissions :: p in table)
    && (forall g | g in groups :: Distinct(g.permissions))
  }

  /** Appending a group with a new id, a fitting name and links to stored
      permissions, each once, keeps the groups table valid. */
  lemma GroupTableAppend(groups: seq<Group>, table: seq<Permission>, g: Group)
    requires GroupTableValid(groups, table)
    requires forall x | x in groups :: x.id != g.id
    requires |g.groupName| <= GroupNameMaxLength
    requires (forall p | p in g.permissions :: p in table) && Distinct(g.permissions)
    ensures GroupTableValid(groups + [g], table)
  {
    var gs := groups + [g];
    forall i, j | 0 <= i < j < |gs| ensures gs[i].id != gs[j].id {
      if j == |groups| {
        assert gs[i] in groups;
      } else {
        assert gs[i] == groups[i] && gs[j] == groups[j];
      }
    }
  }

  /** Removing the group at one position keeps the groups table valid. */
  lemma GroupTableRemove(groups: seq<Group>, table: seq<Permission>, k: nat)
    requires GroupTableValid(groups, table) && k < |groups|
    ensures GroupTableValid(groups[..k] + groups[k + 1..], table)
  {
    var gs := groups[..k] + groups[k + 1..];
    assert forall i | 0 <= i < |gs| :: gs[i] == groups[if i < k then i else i + 1];
  }

  /** Replacing the group at one position by one with the same id, a fitting
      name and links to stored permissions keeps the groups table valid. */
  lemma GroupTableReplace(groups: seq<Group>, table: seq<Permission>, k: nat, g: Group)
    requires GroupTableValid(groups, table) && k < |groups|
    requires g.id == groups[k].id
    requires |g.groupName| <= GroupNameMaxLength
    requires (forall p | p in g.permissions :: p in table) && Distinct(g.permissions)
    ensures GroupTableValid(groups[k := g], table)
  {
    var gs := groups[k := g];
    forall x | x in gs && x != g ensures x in groups {
      var i :| 0 <= i < |gs| && gs[i] == x;
    }
  }

  /** A larger permission table keeps every group's links resolvable. */
  lemma GroupTableGrow(groups: seq<Group>, table: seq<Permission>, p: Permission)
    requires GroupTableValid(groups, table)
    ensures GroupTableValid(groups, table + [p])
  {
  }

  /** The `users` table's constraints: unique primary key, unique login of at
      most 255 characters, a stored password of at most 255 and first and last
      names of at most 50. */
  ghost predicate UserTableValid(users: seq<User>) {
    && (forall i, j | 0 <= i < j < |users| :: users[i].id != users[j].id)
    && (forall i, j | 0 <= i < j < |users| :: users[i].login != users[j].login)
    && (forall u | u in users :: |u.login| <= LoginMaxLength)
    && (forall u | u in users :: |u.password| <= PasswordColumnMaxLength)
    && (forall u | u in users ::
          |u.firstName| <= ProfileNameMaxLength && |u.lastName| <= ProfileNameMaxLength)
  }

  /** `User(login, password, first_name, last_name)`: the login and names as
      given, no group memberships yet, and the hash of the password in place
      of the password. The id and the salt are the random draws of the
      database default and of the primitive. */
  function NewUser(
    id: UserId, login: string, password: string, firstName: string, lastName: string,
    salt: Salt, h: HashScheme): (u: User)
    ensures u.id == id && u.login == login
    ensures u.firstName == firstName && u.lastName == lastName
    ensures u.groups == []
    ensures u.password == h.generate(password, salt)
  {
    User(id, login, h.generate(password, salt), firstName, lastName, [])
  }

  /** `User.check_password`: the primitive's check of the stored hash. */
  function CheckPassword(u: User, password: string, h: HashScheme): bool {
    h.check(u.password, password)
  }

  /** A freshly built user accepts the password it was built with. */
  lemma NewUserAcceptsItsPassword(
    id: UserId, login: string, password: string, firstName: string, lastName: string,
    salt: Salt, h: HashScheme)
    requires Sound(h)
    ensures CheckPassword(NewUser(id, login, password, firstName, lastName, salt, h), password, h)
  {
  }

  /** The users a `WHERE login = ...` query returns, in table order. */
  function UsersWithLogin(users: seq<User>, login: string): (r: seq<User>)
    ensures forall u :: u in r <==> u in users && u.login == login
  {
    if users == [] then []
    else (if users[0].login == login then [users[0]] else []) + UsersWithLogin(users[1..], login)
  }

  /** Because logins are unique, a lookup by login finds at most one user. */
  lemma {:induction false} LoginSelectsAtMostOne(users: seq<User>, login: string)
    requires UserTableValid(users)
    ensures |UsersWithLogin(users, login)| <= 1
  {
    if users != [] {
      var rest := users[1..];
      assert UserTableValid(rest) by {
        forall i, j | 0 <= i < j < |rest| ensures rest[i].login != rest[j].login && rest[i].id != rest[j].id {
          assert rest[i] == users[i + 1] && rest[j] == users[j + 1];
        }
      }
      LoginSelectsAtMostOne(rest, login);
      if users[0].login == login {
        forall u | u in rest ensures u.login != login {
          var k :| 0 <= k < |rest| && rest[k] == u;
          assert u == users[k + 1];
        }
        NoUserWithLogin(rest, login);
      }
    }
  }

  /** A lookup by a login nobody holds finds nobody. */
  lemma {:induction false} NoUserWithLogin(users: seq<User>, login: string)
    requires forall u | u in users :: u.login != login
    ensures UsersWithLogin(users, login) == []
  {
    if users != [] {
      NoUserWithLogin(users[1..], login);
    }
  }
}
