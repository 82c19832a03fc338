# Group and permission core of the cinema authentication service

This project models three parts of the service in Dafny and proves properties of each.

- **The permission check** (`PermissionClaimsService.required_permissions`). It is meant to gate privileged endpoints; no route in the code calls it. A user who holds the wildcard permission `*.*` passes. Otherwise one permission that appears in both the user's list and the endpoint's list is enough: the endpoint's list is read with OR, not AND.
- **The group store** (`DatabaseSession`) and its service layer (`GroupService`). Groups (roles) are created, listed, updated and deleted. Each group links to permissions taken from a table whose names are unique. A write goes ahead only when every requested permission name resolves. Otherwise the store answers `None` and changes nothing.
- **The data model and the request validators**. These are the tables and their column constraints, the `User` constructor and password check, and the length bounds on request fields.

Modules, one per source file plus two helpers:

- `Wrappers` holds `Option` and `Result`.
- `Seqs` holds facts about lists: no repeats, and the size of a list's set of elements.
- `Entity` covers `models/entity.py`.
- `Schemas` covers `schemas/entity.py`, plus the group request and response records that `services/group.py` imports.
- `Authorization` covers `services/authorization.py`.
- `Groups` covers `services/group.py`, and the permission insert of `services/permissions.py` as a way to fill the permission table.

The tables are lists of rows in storage order, held in fields of the class `Groups.DatabaseSession`. Each method of that class states the whole new state and what it returns. The database draws ids as fresh UUIDs. Here each table has a counter that supplies fresh ids instead.

The store decides whether a write may go ahead by comparing the number of stored permissions whose name is in the request with the length of the request. `Groups.MatchCountIffResolvable` proves that this count test passes exactly when the request names only stored permissions and names none of them twice. So a request that repeats a known name, such as `["create", "create"]`, is refused like one that names an unknown permission. The store contracts are stated in these terms (`Resolvable`).

The source returns `None` when a group or a permission is not found. The model returns `Failure(NotFound)` in that case. When the database refuses a write because of a column constraint (a name longer than its `String(50)` column, or a permission name already stored), the source raises and the transaction is rolled back. The model returns `Failure(Rejected)` in that case, with the tables unchanged.

Three client methods replay the documented group scenarios using only the contracts: `Groups.CreateScenario`, `Groups.RefusalScenario` and `Groups.DeleteScenario`. The lemma `Authorization.ReadGroupsScenario` does the same for the permission check.

Two facts about the code shape the model:

- Group names are not checked for duplicates. The `group_name` column is not unique and no service looks a name up before a write, so two groups may share a name.
- No code issues tokens, stores refresh sessions, records login history or keeps a denylist. The schemas for those records exist, and the model covers only their field bounds (see Left out).

## Model

| member | source | states |
|---|---|---|
| `Authorization.RequiredPermissions` | src/services/authorization.py:13-24 | The wildcard test followed by the early-return scan grants access exactly when the user holds `*.*` or some held permission is listed by the endpoint. The method has no side effects. |
| `Authorization.WildcardGrantsAll` | src/services/authorization.py:18-19 | A user holding `*.*` is granted access to any endpoint, including one that lists nothing. |
| `Authorization.GrantedIffShared` | src/services/authorization.py:21-24 | Without the wildcard, access is granted if and only if some position of the user's list holds a permission the endpoint lists. |
| `Authorization.OneSharedSuffices` | src/services/authorization.py:21-23 | OR semantics: one shared permission grants access, whatever else the endpoint lists. |
| `Authorization.NothingHeldDenied` | src/services/authorization.py:18-24 | A user with an empty permission list is refused. |
| `Authorization.NothingRequiredNeedsWildcard` | src/services/authorization.py:18-24 | An endpoint listing nothing admits exactly the wildcard holders. |
| `Authorization.EndpointWildcardIsLiteral` | src/services/authorization.py:18-23 | The wildcard counts only on the user's side: an endpoint that lists only `*.*` admits exactly the users holding `*.*`. |
| `Authorization.Monotonic` | src/services/authorization.py:18-24 | Holding more permissions, or facing an endpoint that lists more, never turns a grant into a refusal. |
| `Authorization.MembershipOnly` | src/services/authorization.py:18-24 | The decision depends only on which names occur in each list, not on their order or repetition. |
| `Authorization.ReadGroupsScenario` | src/services/authorization.py:18-24 | Holding `groups.read_groups` grants an endpoint requiring it and refuses one requiring `groups.delete_group`. The wildcard grants the latter. |
| `Entity.PermissionTableValid` | src/models/entity.py:27-31 | The `permissions` table's constraints: unique ids, and unique names of at most 50 characters. |
| `Entity.GroupTableValid` | src/models/entity.py:19-43 | The `groups` table's constraints: unique ids, names of at most 50 characters that may repeat, and every linked permission is a stored row. It also holds the store's invariant that each group links a permission at most once; the link table itself does not enforce that. |
| `Entity.UserTableValid` | src/models/entity.py:53-63 | The `users` table's constraints: unique ids, unique logins of at most 255 characters, a stored password of at most 255, and first and last names of at most 50. |
| `Entity.NewUser` | src/models/entity.py:68-78 | The constructor stores the login and names as given, starts with no groups, and stores the hash of the password instead of the password. |
| `Entity.NewUserAcceptsItsPassword` | src/models/entity.py:76-81 | If the hash primitive verifies what it generated, `check_password` accepts the password the user was built with. |
| `Entity.CheckPassword` | src/models/entity.py:80-81 | `check_password` is the primitive's check of the stored hash against the given password. What it promises is stated by `Entity.NewUserAcceptsItsPassword`. |
| `Entity.LoginSelectsAtMostOne` | src/models/entity.py:60 | Because logins are unique, a lookup by login finds at most one user. |
| `Entity.GroupTableAppend` | src/models/entity.py:37-43 | Adding a group with a new id, a name of at most 50 characters and stored permissions, each linked once, keeps the groups table's constraints. |
| `Entity.GroupTableRemove` | src/models/entity.py:37-43 | Removing a group keeps the groups table's constraints. |
| `Entity.GroupTableReplace` | src/models/entity.py:37-43 | Replacing a group's name and links while keeping its id keeps the groups table's constraints. |
| `Entity.GroupTableGrow` | src/models/entity.py:19-24 | Adding permission rows keeps every group's permission links resolvable. |
| `Groups.Matching` | src/services/group.py:51-56 | The `permission_name IN (...)` query returns exactly the stored rows whose name is requested, in table order. |
| `Groups.MatchingKeepsNamesDistinct` | src/models/entity.py:31 | Because permission names are unique, the rows the query returns carry distinct names. |
| `Groups.MatchingNames` | src/services/group.py:71-76 | The names the query returns are the requested names that are stored. |
| `Groups.MatchCountIffResolvable` | src/services/group.py:76-79 | The test `len(permissions) == len(names)` passes exactly when every requested name is stored and none is repeated. |
| `Groups.ResolvedNames` | src/services/group.py:76-81 | When a request resolves, the matched rows carry exactly the requested names, one row per name. |
| `Groups.ResolvedRows` | src/services/group.py:76-81 | When a request resolves, the matched rows are stored rows, each matched once. |
| `Groups.NameSelectsAtMostOne` | src/models/entity.py:31 | Because permission names are unique, a lookup by one name matches at most one permission. |
| `Groups.FindGroup` | src/services/group.py:43-46 | The lookup by id finds the first group with that id, or reports that no group has it. |
| `Groups.RemovedAt` | src/services/group.py:25-31 | Because ids are unique, deleting the group at one position removes exactly the groups with that id. |
| `Groups.DatabaseSession.constructor` | src/services/group.py:12-14 | The source wraps a session over whatever the database holds. The model's starting point is a store over an empty database, which meets every table constraint. Every method is specified for any store that meets them. |
| `Groups.DatabaseSession.AddPermission` | src/services/permissions.py:15-28 | A new permission name of at most 50 characters is appended with a fresh id. A name already stored or too long is refused and nothing changes. |
| `Groups.DatabaseSession.DeleteGroup` | src/services/group.py:16-31 | An unknown id gives `None` and nothing changes. Otherwise exactly that group is removed, the other groups keep their order, and its id is returned. The permission table is untouched: a group does not own its permissions. |
| `Groups.DatabaseSession.ReadGroups` | src/services/group.py:34-36 | Returns every stored group. |
| `Groups.DatabaseSession.UpdateGroup` | src/services/group.py:38-65 | An unknown id, or a request that does not resolve, gives not-found and nothing changes, because both checks come before the writes. On success the group keeps its id and position and takes the new name and exactly the requested permissions. Every other group is untouched. |
| `Groups.DatabaseSession.AddGroup` | src/services/group.py:67-86 | A request that does not resolve gives not-found and nothing changes. Otherwise one group is appended with a fresh id, the requested name (which need not be new) and exactly the requested permissions. An empty permission list is accepted. |
| `Groups.PermissionRecords` | src/services/group.py:105-108 | The permission records carry the permissions' names, in order. |
| `Groups.ToGroupInDB` | src/services/group.py:102-109 | The response carries the group's id, its name and its permission names. |
| `Groups.ToGroupRead` | src/services/group.py:113-119 | The listing entry carries the group's name and its permission names. |
| `Groups.ReadView` | src/services/group.py:112-121 | The listing has one entry per stored group, in the same order. |
| `Groups.GroupService.constructor` | src/services/group.py:90-91 | The service wraps the given store. |
| `Groups.GroupService.CreateGroup` | src/services/group.py:93-109 | Fails exactly when the store does, for the same reason, and then nothing changes. On success one group is appended, every group stored before is kept as it was, and the response describes the new group: its name and exactly the requested permission names, in table order. |
| `Groups.GroupService.ReadGroups` | src/services/group.py:110-121 | Yields one entry per stored group, with its name and permission names. |
| `Groups.GroupService.UpdateGroup` | src/services/group.py:123-142 | Fails exactly when the store does, and then nothing changes. On success the group keeps its position, the response describes it as stored, with its id, new name and exactly the requested permission names, and every other group is untouched. |
| `Groups.GroupService.DeleteGroup` | src/services/group.py:144-153 | Passes the store's answer through: `None` for an unknown id. Otherwise the id is returned and exactly that group is removed, the other groups keeping their order. |
| `Schemas.UserCreateViolations` | src/schemas/entity.py:7-12 | A sign-up request is valid if and only if the username has at most 255 characters, the password 8 to 255, and the first name, last name and email at most 50 each. Only those fields are reported. |
| `Schemas.UserChangePasswordViolations` | src/schemas/entity.py:24-29 | A change-password request is valid if and only if the username has at most 255 characters and each of the three passwords 8 to 255. |
| `Schemas.UserSighInViolations` | src/schemas/entity.py:36-38 | A sign-in request is valid if and only if the username has at most 255 characters and the password 8 to 255. |
| `Schemas.SessionRecordViolations` | src/schemas/entity.py:41-67 | Each session and history record is valid if and only if its user agent has at most 255 characters. |
| `Schemas.ToUserInDB` | src/schemas/entity.py:15-21 | The public view of a user carries only the id, first name and last name. |
| `Schemas.PublicViewHidesPassword` | src/schemas/entity.py:15-18 | Users that differ only in password, login or group memberships have the same public view. |

## Left out

- The token pair issuance, refresh-session store, login and logout history, and access-token denylist are not modelled. The code has no implementation of them: `services/auth.py` is an empty class, `api/v1/auth.py` is a stub, `services/auth_services.py` is commented out, and the Redis handle in `db/storage.py` and `db/redis.py` is never used to hold state.
- `services/user_services.py` (user registration and lookup) is not modelled. It does not parse, and it reads a key the request record never has. The users table appears only through its constraints (`Entity.UserTableValid`) and the login lookup.
- The password-hashing primitive is a foreign call. It is a parameter of the model (`Entity.HashScheme`), and the one thing assumed of it (`Entity.Sound`) is a precondition. The salt is a random draw and is also a parameter.
- The fresh UUID defaults of the primary keys are random. The model replaces them with counters that never reuse a value.
- The users table's `created_at` column and its clock default are not modelled. The `expired_at` and `logout_at` fields of the session records are plain integers.
- The async database session, commits, refreshes, engine setup, configuration, application startup and the management CLI are I/O and framework code. They are not modelled. A commit is taken to succeed or to be rolled back as a whole.
- Rows come back from a `SELECT` without `ORDER BY`. The model takes their order to be the table's storage order.
- Deleting a group that users still belong to is not modelled. The store holds no users, so the `groups_users` links and the foreign key on them are outside it.
- The HTTP layer is not modelled. It maps `None` to 404, and a rejected `UserCreate` body (`Schemas.UserCreateViolations`) to 422. No route takes the other request records as a body, and the session records are never built, so their `Violations` functions state only the declared bounds. `api/v1/permissions.py` calls service methods that do not exist, and `api/v1/roles.py` is not mounted.
- The group request records `GroupCreate` and `GroupUpdate` are modelled as `Schemas.GroupRequest`, a name and a list of permission names. Their field constraints are not part of `schemas/entity.py` as given, so none are modelled. A missing or null `group_name` is excluded by the types.
- `Entity.NewUser`: says nothing about the length of the stored hash against the 255-character `password` column, because the length of the primitive's output is not known.
