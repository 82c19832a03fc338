/** The group (role) store and the service that projects its rows to response
    records. A group is written only when every requested permission name
    resolves to a stored permission; otherwise the store answers "not found"
    and changes nothing. */
module Groups {
  import opened Wrappers
  import opened Seqs
  import opened Entity
  import opened Schemas

  /** Why a store operation wrote nothing. `NotFound` is the source's `None`
      (unknown group, or a permission list that does not resolve); `Rejected`
      is a write the database refuses on a column constraint, after which the
      transaction is rolled back. */
  datatype StoreError = NotFound | Rejected

  /** The rows `SELECT ... WHERE permission_name IN (names)` returns, in table order. */
  function Matching(table: seq<Permission>, names: seq<string>): (r: seq<Permission>)
    ensures forall p :: p in r <==> p in table && p.permissionName in names
    ensures |r| <= |table|
  {
    if table == [] then []
    else (if table[0].permissionName in names then [table[0]] else []) + Matching(table[1..], names)
  }

  /** A permission list resolves when it names only stored permissions, each once. */
  ghost predicate Resolvable(table: seq<Permission>, names: seq<string>) {
    Distinct(names) && forall n | n in names :: n in NamesOf(table)
  }

  /** Distinct names mean distinct rows. */
  lemma DistinctNamesDistinctRows(ps: seq<Permission>)
    requires Distinct(NamesOf(ps))
    ensures Distinct(ps)
  {
    forall i, j | 0 <= i < j < |ps| ensures ps[i] != ps[j] {
      assert NamesOf(ps)[i] != NamesOf(ps)[j];
    }
  }

  /** A selection from a table with unique names has unique names. */
  lemma {:induction false} MatchingKeepsNamesDistinct(table: seq<Permission>, names: seq<string>)
    requires Distinct(NamesOf(table))
    ensures Distinct(NamesOf(Matching(table, names)))
  {
    if table != [] {
      var head, rest := table[0], table[1..];
      assert NamesOf(table) == [head.permissionName] + NamesOf(rest);
      DistinctTail(NamesOf(table));
      MatchingKeepsNamesDistinct(rest, names);
      var tail := Matching(rest, names);
      if head.permissionName in names {
        assert NamesOf([head] + tail) == [head.permissionName] + NamesOf(tail);
        DistinctCons(head.permissionName, NamesOf(tail));
      }
    }
  }

  /** The names the query returns are the requested names that are stored. */
  lemma MatchingNames(table: seq<Permission>, names: seq<string>)
    ensures Elements(NamesOf(Matching(table, names))) == Elements(names) * Elements(NamesOf(table))
  {
    var r := Matching(table, names);
    forall x | x in Elements(NamesOf(r)) ensures x in names && x in NamesOf(table) {
      var i :| 0 <= i < |r| && NamesOf(r)[i] == x;
      NameOfMember(r[i], table);
    }
    forall x | x in names && x in NamesOf(table) ensures x in Elements(NamesOf(r)) {
      var k :| 0 <= k < |table| && NamesOf(table)[k] == x;
      NameOfMember(table[k], r);
    }
  }

  /** The store's test `len(permissions) == len(names)` accepts a request
      exactly when it names only stored permissions, each once: an unknown
      name and a repeated name are both refused. */
  lemma MatchCountIffResolvable(table: seq<Permission>, names: seq<string>)
    requires Distinct(NamesOf(table))
    ensures |Matching(table, names)| == |names| <==> Resolvable(table, names)
  {
    var r := Matching(table, names);
    var a, t := Elements(names), Elements(NamesOf(table));
    MatchingKeepsNamesDistinct(table, names);
    ElementsCardinality(NamesOf(r));
    MatchingNames(table, names);
    ElementsCardinality(names);
    SubsetCardinality(a * t, a);
    assert |r| == |a * t|;
    if |r| == |names| {
      SubsetOfEqualSize(a * t, a);
      forall n | n in names ensures n in NamesOf(table) {
        assert n in a * t;
      }
    }
    if Resolvable(table, names) {
      assert a * t == a;
    }
  }

  /** On success the group carries exactly the requested names, each once. */
  lemma ResolvedNames(table: seq<Permission>, names: seq<string>)
    requires Distinct(NamesOf(table)) && Resolvable(table, names)
    ensures Elements(NamesOf(Matching(table, names))) == Elements(names)
    ensures |Matching(table, names)| == |names|
  {
    MatchingNames(table, names);
    MatchCountIffResolvable(table, names);
  }

  /** What a resolved request links a group to: stored rows, each once,
      carrying exactly the requested names. */
  lemma ResolvedRows(table: seq<Permission>, names: seq<string>)
    requires Distinct(NamesOf(table)) && Resolvable(table, names)
    ensures forall p | p in Matching(table, names) :: p in table
    ensures Distinct(Matching(table, names))
    ensures Elements(NamesOf(Matching(table, names))) == Elements(names)
    ensures |Matching(table, names)| == |names|
  {
    ResolvedNames(table, names);
    MatchingKeepsNamesDistinct(table, names);
    DistinctNamesDistinctRows(Matching(table, names));
  }

  /** Permission names are unique, so a lookup by one name finds at most one row. */
  lemma NameSelectsAtMostOne(table: seq<Permission>, name: string)
    requires PermissionTableValid(table)
    ensures |Matching(table, [name])| <= 1
  {
    var r := Matching(table, [name]);
    MatchingKeepsNamesDistinct(table, [name]);
    ElementsCardinality(NamesOf(r));
    MatchingNames(table, [name]);
    assert Elements([name]) == {name};
    SubsetCardinality(Elements(NamesOf(r)), {name});
  }

  /** `SELECT ... WHERE id = group_id` then `.scalar()`: the position of the
      first group with that id. */
  function FindGroup(groups: seq<Group>, id: GroupId): (r: Option<nat>)
    ensures r.Some? ==> r.value < |groups| && groups[r.value].id == id
    ensures r.Some? ==> forall j | 0 <= j < r.value :: groups[j].id != id
    ensures r.None? <==> forall g | g in groups :: g.id != id
  {
    if groups == [] then None
    else if groups[0].id == id then Some(0)
    else match FindGroup(groups[1..], id)
      case None => None
      case Some(k) => Some(k + 1)
  }

  /** With unique ids, dropping the group at one position drops exactly the
      groups with that group's id. */
  lemma RemovedAt(groups: seq<Group>, table: seq<Permission>, k: nat)
    requires GroupTableValid(groups, table) && k < |groups|
    ensures forall g :: g in groups[..k] + groups[k + 1..] <==> g in groups && g.id != groups[k].id
  {
    var gs := groups[..k] + groups[k + 1..];
    forall g ensures g in gs <==> g in groups && g.id != groups[k].id {
      if g in groups && g.id != groups[k].id {
        var i :| 0 <= i < |groups| && groups[i] == g;
        if i < k { assert gs[i] == g; } else { assert gs[i - 1] == g; }
      }
      if g in gs {
        var i :| 0 <= i < |gs| && gs[i] == g;
        var j := if i < k then i else i + 1;
        assert groups[j] == g && j != k;
      }
    }
  }

  /** The store behind `DatabaseSession`: the `groups` table with its
      permission links, and the `permissions` table. */
  class DatabaseSession {
    var groups: seq<Group>
    var permissions: seq<Permission>
    /** Stand-ins for the database's fresh-UUID defaults. */
    var nextGroupId: GroupId
    var nextPermissionId: PermissionId

    ghost predicate Valid()
      reads this
    {
      && PermissionTableValid(permissions)
      && GroupTableValid(groups, permissions)
      && (forall p | p in permissions :: p.id < nextPermissionId)
      && (forall g | g in groups :: g.id < nextGroupId)
    }

    /** The model's starting point: a store over an empty database. */
    constructor ()
      ensures Valid()
      ensures groups == [] && permissions == []
    {
      groups, permissions := [], [];
      nextGroupId, nextPermissionId := 0, 0;
    }

    /** Inserts a permission row. The database refuses a name already stored
        or longer than its column. */
    method AddPermission(name: string) returns (r: Result<Permission, StoreError>)
      requires Valid()
      modifies this
      ensures Valid()
      ensures groups == old(groups) && nextGroupId == old(nextGroupId)
      ensures r.Failure? <==> name in old(NamesOf(permissions)) || |name| > PermissionNameMaxLength
      ensures r.Failure? ==> r.error == Rejected && permissions == old(permissions)
      ensures r.Success? ==> r.value.permissionName == name && forall x | x in old(permissions) :: x.id != r.value.id
      ensures r.Success? ==> permissions == old(permissions) + [r.value]
    {
      if name in NamesOf(permissions) || |name| > PermissionNameMaxLength {
        return Failure(Rejected);
      }
      var p := Permission(nextPermissionId, name);
      ghost var before := permissions;
      permissions := permissions + [p];
      nextPermissionId := nextPermissionId + 1;
      GroupTableGrow(groups, before, p);
      assert NamesOf(permissions) == NamesOf(before) + [name];
      forall i, j | 0 <= i < j < |permissions| ensures permissions[i].id != permissions[j].id {
        if j == |before| {
          assert permissions[i] in before;
        }
      }
      forall i, j | 0 <= i < j < |permissions| ensures NamesOf(permissions)[i] != NamesOf(permissions)[j] {
        if j == |before| {
          assert NamesOf(permissions)[i] == NamesOf(before)[i];
        } else {
          assert NamesOf(before)[i] != NamesOf(before)[j];
        }
      }
      r := Success(p);
    }

    /** `delete_group`: `None` for an unknown id; otherwise the group's row
        (and its permission links) is removed and its id returned. */
    method DeleteGroup(groupId: GroupId) returns (r: Option<GroupId>)
      requires Valid()
      modifies this
      ensures Valid()
      ensures permissions == old(permissions)
      ensures nextGroupId == old(nextGroupId) && nextPermissionId == old(nextPermissionId)
      ensures r.None? <==> forall g | g in old(groups) :: g.id != groupId
      ensures r.Some? ==> r.value == groupId
      ensures r.None? ==> groups == old(groups)
      ensures r.Some? ==> |groups| == |old(groups)| - 1
      ensures r.Some? ==> exists k | 0 <= k < |old(groups)| && old(groups)[k].id == groupId ::
                            groups == old(groups)[..k] + old(groups)[k + 1..]
      ensures forall g :: g in groups <==> g in old(groups) && g.id != groupId
    {
      var found := FindGroup(groups, groupId);
      if found.None? {
        return None;
      }
      var k := found.value;
      ghost var before := groups;
      GroupTableRemove(groups, permissions, k);
      RemovedAt(groups, permissions, k);
      groups := groups[..k] + groups[k + 1..];
      r := Some(groupId);
    }

    /** `read_groups`: every stored group. */
    method ReadGroups() returns (r: seq<Group>)
      ensures r == groups
    {
      r := groups;
    }

    /** `update_group`: `None` for an unknown id, and `None` when the
        permission list does not resolve, both before anything is written;
        otherwise the group keeps its id and position and takes the new name
        and exactly the resolved permissions. */
    method UpdateGroup(groupId: GroupId, data: GroupRequest) returns (r: Result<Group, StoreError>)
      requires Valid()
      modifies this
      ensures Valid()
      ensures permissions == old(permissions)
      ensures nextGroupId == old(nextGroupId) && nextPermissionId == old(nextPermissionId)
      ensures r.Success? <==>
        (exists g | g in old(groups) :: g.id == groupId) && Resolvable(permissions, data.permissions)
        && |data.groupName| <= GroupNameMaxLength
      ensures r == Failure(NotFound) <==>
        (forall g | g in old(groups) :: g.id != groupId) || !Resolvable(permissions, data.permissions)
      ensures r == Failure(Rejected) <==>
        (exists g | g in old(groups) :: g.id == groupId) && Resolvable(permissions, data.permissions)
        && |data.groupName| > GroupNameMaxLength
      ensures r.Failure? ==> groups == old(groups)
      ensures r.Success? ==> r.value == Group(groupId, data.groupName, Matching(permissions, data.permissions))
      ensures r.Success? ==> Elements(NamesOf(r.value.permissions)) == Elements(data.permissions)
      ensures r.Success? ==> |groups| == |old(groups)|
      ensures r.Success? ==> forall i | 0 <= i < |groups| ::
                               groups[i] == if old(groups)[i].id == groupId then r.value else old(groups)[i]
    {
      var found := FindGroup(groups, groupId);
      if found.None? {
        return Failure(NotFound);
      }
      var matched := Matching(permissions, data.permissions);
      MatchCountIffResolvable(permissions, data.permissions);
      if |matched| != |data.permissions| {
        return Failure(NotFound);
      }
      if |data.groupName| > GroupNameMaxLength {
        return Failure(Rejected);
      }
      ResolvedRows(permissions, data.permissions);
      var k := found.value;
      var g := Group(groupId, data.groupName, matched);
      ghost var before := groups;
      GroupTableReplace(groups, permissions, k, g);
      groups := groups[k := g];
      forall i | 0 <= i < |groups| ensures groups[i] == if before[i].id == groupId then g else before[i] {
        if i != k {
          assert before[i].id != before[k].id;
        }
      }
      forall x | x in groups ensures x.id < nextGroupId {
        if x != g { assert x in before; }
      }
      r := Success(g);
    }

    /** `add_group`: `None` when the permission list does not resolve, before
        anything is written; otherwise one new group with a fresh id, the
        requested name and exactly the resolved permissions. The name need
        not be new. */
    method AddGroup(data: GroupRequest) returns (r: Result<Group, StoreError>)
      requires Valid()
      modifies this
      ensures Valid()
      ensures permissions == old(permissions) && nextPermissionId == old(nextPermissionId)
      ensures r.Success? <==> Resolvable(permissions, data.permissions) && |data.groupName| <= GroupNameMaxLength
      ensures r == Failure(NotFound) <==> !Resolvable(permissions, data.permissions)
      ensures r == Failure(Rejected) <==>
        Resolvable(permissions, data.permissions) && |data.groupName| > GroupNameMaxLength
      ensures r.Failure? ==> groups == old(groups)
      ensures r.Success? ==> r.value.groupName == data.groupName
      ensures r.Success? ==> r.value.permissions == Matching(permissions, data.permissions)
      ensures r.Success? ==> Elements(NamesOf(r.value.permissions)) == Elements(data.permissions)
      ensures r.Success? ==> |r.value.permissions| == |data.permissions|
      ensures r.Success? ==> forall x | x in old(groups) :: x.id != r.value.id
      ensures r.Success? ==> groups == old(groups) + [r.value]
    {
      var matched := Matching(permissions, data.permissions);
      MatchCountIffResolvable(permissions, data.permissions);
      if |matched| != |data.permissions| {
        return Failure(NotFound);
      }
      if |data.groupName| > GroupNameMaxLength {
        return Failure(Rejected);
      }
      ResolvedRows(permissions, data.permissions);
      var g := Group(nextGroupId, data.groupName, matched);
      assert forall x | x in groups :: x.id < g.id;
      GroupTableAppend(groups, permissions, g);
      assert forall x | x in groups + [g] :: x.id < nextGroupId + 1;
      groups := groups + [g];
      nextGroupId := nextGroupId + 1;
      r := Success(g);
    }
  }

  /** The names carried by a list of permission records. */
  function NamesOfRecords(rs: seq<PermissionName>): (names: seq<string>)
    ensures |names| == |rs|
    ensures forall i | 0 <= i < |rs| :: names[i] == rs[i].permissionName
  {
    seq(|rs|, i requires 0 <= i < |rs| => rs[i].permissionName)
  }

  /** `[PermissionName(permission_name=p.permission_name) for p in ...]`. */
  function PermissionRecords(ps: seq<Permission>): (rs: seq<PermissionName>)
    ensures NamesOfRecords(rs) == NamesOf(ps)
  {
    seq(|ps|, i requires 0 <= i < |ps| => PermissionName(ps[i].permissionName))
  }

  /** `GroupInDB` built from a stored group. */
  function ToGroupInDB(g: Group): (dto: GroupInDB)
    ensures dto.id == g.id && dto.groupName == g.groupName
    ensures NamesOfRecords(dto.permissions) == NamesOf(g.permissions)
  {
    GroupInDB(g.id, g.groupName, PermissionRecords(g.permissions))
  }

  /** `GroupRead` built from a stored group. */
  function ToGroupRead(g: Group): (dto: GroupRead)
    ensures dto.groupName == g.groupName
    ensures NamesOfRecords(dto.permissions) == NamesOf(g.permissions)
  {
    GroupRead(g.groupName, PermissionRecords(g.permissions))
  }

  /** One listing entry per stored group, in the same order. */
  function ReadView(groups: seq<Group>): (view: seq<GroupRead>)
    ensures |view| == |groups|
    ensures forall i | 0 <= i < |groups| ::
      view[i].groupName == groups[i].groupName
      && NamesOfRecords(view[i].permissions) == NamesOf(groups[i].permissions)
  {
    seq(|groups|, i requires 0 <= i < |groups| => ToGroupRead(groups[i]))
  }

  /** `GroupService`: the store's results projected to response records. */
  class GroupService {
    const session: DatabaseSession

    constructor (session: DatabaseSession)
      ensures this.session == session
    {
      this.session := session;
    }

    /** `create_group`: fails exactly when the store does; on success the
        response lists the new group's id, name and exactly the requested
        permission names. */
    method CreateGroup(data: GroupRequest) returns (r: Result<GroupInDB, StoreError>)
      requires session.Valid()
      modifies session
      ensures session.Valid() && session.permissions == old(session.permissions)
      ensures r.Success? <==> Resolvable(session.permissions, data.permissions) && |data.groupName| <= GroupNameMaxLength
      ensures r == Failure(NotFound) <==> !Resolvable(session.permissions, data.permissions)
      ensures r == Failure(Rejected) <==>
        Resolvable(session.permissions, data.permissions) && |data.groupName| > GroupNameMaxLength
      ensures r.Failure? ==> session.groups == old(session.groups)
      ensures r.Success? ==> |session.groups| == |old(session.groups)| + 1
      ensures r.Success? ==> session.groups[..|old(session.groups)|] == old(session.groups)
      ensures r.Success? ==> r.value == ToGroupInDB(session.groups[|session.groups| - 1])
      ensures r.Success? ==> r.value.groupName == data.groupName
      ensures r.Success? ==> NamesOfRecords(r.value.permissions) == NamesOf(Matching(session.permissions, data.permissions))
      ensures r.Success? ==> Elements(NamesOfRecords(r.value.permissions)) == Elements(data.permissions)
      ensures r.Success? ==> |r.value.permissions| == |data.permissions|
    {
      var stored := session.AddGroup(data);
      match stored
      case Failure(e) => r := Failure(e);
      case Success(g) => r := Success(ToGroupInDB(g));
    }

    /** `read_groups`: one entry per stored group, with its name and permission names. */
    method ReadGroups() returns (r: seq<GroupRead>)
      ensures |r| == |session.groups|
      ensures forall i | 0 <= i < |r| ::
        r[i].groupName == session.groups[i].groupName
        && NamesOfRecords(r[i].permissions) == NamesOf(session.groups[i].permissions)
    {
      var groups := session.ReadGroups();
      r := ReadView(groups);
    }

    /** `update_group`: fails exactly when the store does; on success the
        response carries the group's id, its new name and the requested
        permission names. */
    method UpdateGroup(groupId: GroupId, data: GroupRequest) returns (r: Result<GroupInDB, StoreError>)
      requires session.Valid()
      modifies session
      ensures session.Valid() && session.permissions == old(session.permissions)
      ensures r.Success? <==>
        (exists g | g in old(session.groups) :: g.id == groupId) && Resolvable(session.permissions, data.permissions)
        && |data.groupName| <= GroupNameMaxLength
      ensures r == Failure(NotFound) <==>
        (forall g | g in old(session.groups) :: g.id != groupId) || !Resolvable(session.permissions, data.permissions)
      ensures r == Failure(Rejected) <==>
        (exists g | g in old(session.groups) :: g.id == groupId) && Resolvable(session.permissions, data.permissions)
        && |data.groupName| > GroupNameMaxLength
      ensures r.Failure? ==> session.groups == old(session.groups)
      ensures r.Success? ==> |session.groups| == |old(session.groups)|
      ensures r.Success? ==> forall i | 0 <= i < |session.groups| ::
                               if old(session.groups)[i].id == groupId
                               then r.value == ToGroupInDB(session.groups[i])
                               else session.groups[i] == old(session.groups)[i]
      ensures r.Success? ==> r.value.id == groupId && r.value.groupName == data.groupName
      ensures r.Success? ==> NamesOfRecords(r.value.permissions) == NamesOf(Matching(session.permissions, data.permissions))
      ensures r.Success? ==> Elements(NamesOfRecords(r.value.permissions)) == Elements(data.permissions)
    {
      var stored := session.UpdateGroup(groupId, data);
      match stored
      case Failure(e) => r := Failure(e);
      case Success(g) => r := Success(ToGroupInDB(g));
    }

    /** `delete_group`: the store's answer, passed through. */
    method DeleteGroup(groupId: GroupId) returns (r: Option<GroupId>)
      requires session.Valid()
      modifies session
      ensures session.Valid() && session.permissions == old(session.permissions)
      ensures r.None? <==> forall g | g in old(session.groups) :: g.id != groupId
      ensures r.Some? ==> r.value == groupId
      ensures r.None? ==> session.groups == old(session.groups)
      ensures r.Some? ==> |session.groups| == |old(session.groups)| - 1
      ensures r.Some? ==> exists k | 0 <= k < |old(session.groups)| && old(session.groups)[k].id == groupId ::
                            session.groups == old(session.groups)[..k] + old(session.groups)[k + 1..]
      ensures forall g :: g in session.groups <==> g in old(session.groups) && g.id != groupId
    {
      r := session.DeleteGroup(groupId);
    }
  }

  /** A store holding the permissions `create` and `update` and no group. */
  method SeedScenario() returns (session: DatabaseSession)
    ensures fresh(session) && session.Valid() && session.groups == []
    ensures NamesOf(session.permissions) == ["create", "update"]
  {
    session := new DatabaseSession();
    var create := session.AddPermission("create");
    assert NamesOf([]) == [];
    var update := session.AddPermission("update");
    assert create.Success? && update.Success?;
  }

  /** Creating `admin` over `create` and `update`: the response lists both,
      in table order. */
  method CreateScenario() {
    var session := SeedScenario();
    var service := new GroupService(session);
    assert Resolvable(session.permissions, ["create", "update"]);
    var admin := service.CreateGroup(GroupRequest("admin", ["create", "update"]));
    assert admin.Success? && admin.value.groupName == "admin";
    assert Matching(session.permissions, ["create", "update"]) == session.permissions;
    assert NamesOfRecords(admin.value.permissions) == ["create", "update"];
  }

  /** An unknown permission, or a known one named twice, is refused and
      nothing is stored. */
  method RefusalScenario() {
    var session := SeedScenario();
    var service := new GroupService(session);
    assert "delete" !in NamesOf(session.permissions);
    var unknown := service.CreateGroup(GroupRequest("admin", ["delete"]));
    assert unknown == Failure(NotFound);
    var repeated := ["create", "create"];
    assert repeated[0] == repeated[1];
    var twice := service.CreateGroup(GroupRequest("admin", repeated));
    assert twice == Failure(NotFound);
    assert session.groups == [];
  }

  /** Deleting an unknown id answers `None`; deleting the one group empties
      the listing. */
  method DeleteScenario() {
    var session := SeedScenario();
    var service := new GroupService(session);
    assert Resolvable(session.permissions, []);
    var guest := service.CreateGroup(GroupRequest("guest", []));
    assert guest.Success?;
    var id := guest.value.id;
    var missing := service.DeleteGroup(id + 1);
    assert missing.None?;
    var deleted := service.DeleteGroup(id);
    assert deleted == Some(id);
    var listed := service.ReadGroups();
    assert listed == [];
  }
}
