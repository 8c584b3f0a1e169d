/** The role lifecycle: listing without the reserved roles, creation and renaming with a
    derived slug, and the deletion cascade that moves the role's users to the default position
    and drops the role's edges in one transaction. */
module RoleLifecycle {
  import opened Common
  import opened Text
  import opened Schema

  // ---------------------------------------------------------------------------
  // `getRoles`: `whereNotIn('name', ['Administrator', 'User'])`.

  /** The two system roles no listing shows. */
  predicate Reserved(name: string) {
    name == "Administrator" || name == "User"
  }

  /** The roles `getRoles` lists (UserPermissionController.php lines 168-170), in table order;
      search, sorting and pagination are left out. */
  function ListRoles(roles: seq<Role>): (r: seq<Role>)
    ensures forall x :: x in r <==> x in roles && !Reserved(x.name)
    ensures |r| <= |roles|
    decreases |roles|
  {
    if |roles| == 0 then []
    else
      assert forall x :: x in roles <==> x == roles[0] || x in roles[1..];
      (if Reserved(roles[0].name) then [] else [roles[0]]) + ListRoles(roles[1..])
  }

  /** The listing keeps the table order: it is the table with the reserved rows struck out,
      so a table without reserved rows is listed whole and listing a listing changes nothing. */
  lemma {:induction false} ListRolesKeepsUnreserved(roles: seq<Role>)
    requires forall i | 0 <= i < |roles| :: !Reserved(roles[i].name)
    ensures ListRoles(roles) == roles
    decreases |roles|
  {
    if |roles| > 0 {
      ListRolesKeepsUnreserved(roles[1..]);
      assert [roles[0]] + roles[1..] == roles;
    }
  }

  lemma ListRolesIdempotent(roles: seq<Role>)
    ensures ListRoles(ListRoles(roles)) == ListRoles(roles)
  {
    var r := ListRoles(roles);
    assert forall i | 0 <= i < |r| :: r[i] in r;
    ListRolesKeepsUnreserved(r);
  }

  // ---------------------------------------------------------------------------
  // `createRoles` and `updateRoles`.

  datatype RoleOutcome =
    | Created          // 201
    | Updated          // 200
    | InvalidInput     // the request rules failed (400)
    | RoleNotFound     // no role has the id (404)
    | Unchanged        // the update touched no row: "Failed to update role" (500)
    | StoreError       // the store's unique index on name or slug refused the write (500)

  /** `name: required|string|max:255`: present and not blank, and at most 255 characters. */
  predicate NameAcceptable(name: string) {
    !Blank(name) && |name| <= 255
  }

  /** `required` fails on a name `trim` empties: neither creating nor renaming accepts it. */
  lemma BlankNameRejected(db: Db, id: int, name: string)
    requires Trim(name) == ""
    ensures CreateRole(db, name) == (InvalidInput, db)
    ensures RoleById(db.roles, id).Some? ==> UpdateRole(db, id, name) == (InvalidInput, db)
  {
    BlankIffTrimmedEmpty(name);
  }

  /** Some role other than `id` already holds `name` or the slug `slug`. */
  predicate Clashes(roles: seq<Role>, id: int, name: string, slug: string) {
    exists i | 0 <= i < |roles| :: roles[i].id != id && (roles[i].name == name || roles[i].slug == slug)
  }

  /** `createRoles` (UserPermissionController.php lines 223-254): validate the name (unique among
      role names), derive the slug, insert. A slug another role already has makes the unique
      index throw, which the handler turns into a 500 with nothing written. */
  function CreateRole(db: Db, name: string): (r: (RoleOutcome, Db))
    ensures r.0 != Created ==> r.1 == db
    ensures r.0 == InvalidInput <==> !NameAcceptable(name) || RoleByName(db.roles, name).Some?
    ensures r.0 == Created || r.0 == InvalidInput || r.0 == StoreError
    ensures r.0 == StoreError <==> r.0 != InvalidInput && RoleBySlug(db.roles, Slug(name)).Some?
    ensures r.0 == Created ==>
      && |r.1.roles| == |db.roles| + 1 && r.1.roles[..|db.roles|] == db.roles
      && r.1.roles[|db.roles|].name == name && Normalized(r.1.roles[|db.roles|].slug)
      && (forall i | 0 <= i < |db.roles| :: db.roles[i].id != r.1.roles[|db.roles|].id)
    ensures r.1.users == db.users && r.1.grants == db.grants && r.1.permissions == db.permissions
  {
    if !NameAcceptable(name) || RoleByName(db.roles, name).Some? then (InvalidInput, db)
    else
      var slug := Slug(name);
      if RoleBySlug(db.roles, slug).Some? then (StoreError, db)
      else (Created, db.(roles := db.roles + [Role(NextRoleId(db.roles), name, slug)]))
  }

  /** A created role is found again by its name and by the slug of its name, and the store
      stays valid. */
  lemma CreateRoleFound(db: Db, name: string)
    requires Valid(db)
    ensures var (o, db') := CreateRole(db, name);
      o == Created ==>
        && Valid(db')
        && RoleByName(db'.roles, name) == Some(db'.roles[|db.roles|])
        && RoleBySlug(db'.roles, Slug(name)) == Some(db'.roles[|db.roles|])
  {
    var (o, db') := CreateRole(db, name);
    if o == Created {
      var role := db'.roles[|db.roles|];
      RoleByNameAppend(db.roles, role);
      RoleBySlugAppend(db.roles, role);
      assert db'.roles == db.roles + [role];
      assert RolesUnique(db'.roles) by {
        forall i, j | 0 <= i < j < |db'.roles|
          ensures db'.roles[i].id != db'.roles[j].id && db'.roles[i].name != db'.roles[j].name
            && db'.roles[i].slug != db'.roles[j].slug
        {
          if j < |db.roles| {
            assert db'.roles[i] == db.roles[i] && db'.roles[j] == db.roles[j];
          } else {
            assert db'.roles[i] == db.roles[i];
          }
        }
      }
    }
  }

  lemma RoleByNameAppend(roles: seq<Role>, role: Role)
    requires RoleByName(roles, role.name).None?
    ensures RoleByName(roles + [role], role.name) == Some(role)
  {
    var s := roles + [role];
    assert s[|roles|] == role;
  }

  lemma RoleBySlugAppend(roles: seq<Role>, role: Role)
    requires RoleBySlug(roles, role.slug).None?
    ensures RoleBySlug(roles + [role], role.slug) == Some(role)
  {
    var s := roles + [role];
    assert s[|roles|] == role;
  }

  /** `UPDATE user_roles SET name = ?, slug = ? WHERE id = ?`: every row with the id. */
  function Rename(roles: seq<Role>, id: int, name: string, slug: string): (r: seq<Role>)
    ensures |r| == |roles|
    ensures forall i | 0 <= i < |roles| :: r[i] == if roles[i].id == id then Role(roles[i].id, name, slug) else roles[i]
  {
    seq(|roles|, i requires 0 <= i < |roles| =>
      if roles[i].id == id then Role(roles[i].id, name, slug) else roles[i])
  }

  /** `updateRoles` (UserPermissionController.php lines 257-299): the role must exist, then the
      name must pass its rules; there is no uniqueness rule, so a name or slug another role holds
      reaches the store and its unique index throws, uncaught. MySQL reports a row whose values
      do not change as not affected, which the controller answers as a failure. */
  function UpdateRole(db: Db, id: int, name: string): (r: (RoleOutcome, Db))
    ensures r.0 != Updated ==> r.1 == db
    ensures r.0 == RoleNotFound <==> RoleById(db.roles, id).None?
    ensures r.0 == InvalidInput <==> RoleById(db.roles, id).Some? && !NameAcceptable(name)
    ensures r.0 == Updated || r.0 == RoleNotFound || r.0 == InvalidInput || r.0 == StoreError || r.0 == Unchanged
    ensures r.0 == StoreError ==> Clashes(db.roles, id, name, Slug(name))
    ensures r.0 == Unchanged ==> RoleById(db.roles, id) == Some(Role(id, name, Slug(name)))
    ensures r.0 == Updated ==> RoleById(db.roles, id) != Some(Role(id, name, Slug(name)))
    ensures r.1.users == db.users && r.1.grants == db.grants && r.1.permissions == db.permissions
  {
    match RoleById(db.roles, id)
    case None => (RoleNotFound, db)
    case Some(role) =>
      if !NameAcceptable(name) then (InvalidInput, db)
      else
        var slug := Slug(name);
        if Clashes(db.roles, id, name, slug) then (StoreError, db)
        else if role.name == name && role.slug == slug then (Unchanged, db)
        else (Updated, db.(roles := Rename(db.roles, id, name, slug)))
  }

  /** After a rename the role carries the new name and the slug derived from it, every other
      role is as it was, and the store stays valid; renaming it again to the same name is the
      unaffected update the controller reports as a failure. */
  lemma UpdateRoleRenames(db: Db, id: int, name: string)
    requires Valid(db)
    ensures var (o, db') := UpdateRole(db, id, name);
      o == Updated ==>
        && Valid(db')
        && RoleById(db'.roles, id) == Some(Role(id, name, Slug(name)))
        && (forall i | 0 <= i < |db.roles| && db.roles[i].id != id :: db'.roles[i] == db.roles[i])
        && UpdateRole(db', id, name).0 == Unchanged
  {
    var (o, db') := UpdateRole(db, id, name);
    if o == Updated {
      var slug := Slug(name);
      var k :| 0 <= k < |db.roles| && db.roles[k] == RoleById(db.roles, id).value;
      var roles' := Rename(db.roles, id, name, slug);
      assert db' == db.(roles := roles');
      RenameKeeps(db.roles, id, name, slug, k);
      RoleByIdUnique(roles', k);
      ValidWithRoles(db, roles');
    }
  }

  /** Replacing the role table by another keyed one keeps the store valid: no other table
      refers to roles by anything but the edge's role id, which is not checked. */
  lemma ValidWithRoles(db: Db, roles: seq<Role>)
    requires Valid(db) && RolesUnique(roles)
    ensures Valid(db.(roles := roles))
  {
  }

  /** Renaming row `k` of a keyed table to a name and slug no other role holds keeps the table
      keyed, and afterwards nothing clashes with that rename. */
  lemma RenameKeeps(roles: seq<Role>, id: int, name: string, slug: string, k: nat)
    requires RolesUnique(roles) && k < |roles| && roles[k].id == id
    requires !Clashes(roles, id, name, slug)
    ensures Rename(roles, id, name, slug)[k] == Role(id, name, slug)
    ensures RolesUnique(Rename(roles, id, name, slug))
    ensures !Clashes(Rename(roles, id, name, slug), id, name, slug)
  {
    var r := Rename(roles, id, name, slug);
    forall i, j | 0 <= i < j < |r|
      ensures r[i].id != r[j].id && r[i].name != r[j].name && r[i].slug != r[j].slug
    {
      if roles[i].id == id {
        assert roles[j].id != id;
      }
    }
    forall i | 0 <= i < |r| && r[i].id != id
      ensures r[i].name != name && r[i].slug != slug
    {
      assert r[i] == roles[i];
    }
  }

  /** In a keyed role table, the lookup by id finds the row with that id. */
  lemma RoleByIdUnique(roles: seq<Role>, k: nat)
    requires RolesUnique(roles) && k < |roles|
    ensures RoleById(roles, roles[k].id) == Some(roles[k])
  {
    var r := RoleById(roles, roles[k].id).value;
    var j :| 0 <= j < |roles| && roles[j] == r;
    assert j == k;
  }

  // ---------------------------------------------------------------------------
  // `deleteRoles`.

  /** The route parameter: `is_numeric` decides which; a numeric one is compared as a number. */
  datatype IdArg = Numeric(value: real) | NonNumeric(text: string)

  datatype DeleteOutcome =
    | Deleted        // committed (200)
    | InvalidId      // not numeric (400)
    | NotFound       // no role has the id (404)
    | Refused        // the guarded deletion declines to remove the default role
    | Failed         // an exception inside the transaction: rolled back (500)

  /** `find($id)`: the first role whose key equals the number. */
  function FindRole(roles: seq<Role>, v: real): (r: Option<Role>)
    ensures r.None? <==> forall i | 0 <= i < |roles| :: roles[i].id as real != v
    ensures r.Some? ==> r.value in roles && r.value.id as real == v
  {
    if |roles| == 0 then None
    else if roles[0].id as real == v then Some(roles[0])
    else FindRole(roles[1..], v)
  }

  /** `delete from user_roles where id = rid`, in table order. */
  function RemoveRole(roles: seq<Role>, rid: int): (r: seq<Role>)
    ensures forall x :: x in r <==> x in roles && x.id != rid
    ensures |r| <= |roles|
    decreases |roles|
  {
    if |roles| == 0 then []
    else
      assert forall x :: x in roles <==> x == roles[0] || x in roles[1..];
      (if roles[0].id == rid then [] else [roles[0]]) + RemoveRole(roles[1..], rid)
  }

  /** Removing rows from a keyed role table leaves it keyed. */
  lemma {:induction false} RemoveRoleUnique(roles: seq<Role>, rid: int)
    requires RolesUnique(roles)
    ensures RolesUnique(RemoveRole(roles, rid))
    decreases |roles|
  {
    if |roles| > 0 {
      var rest := RemoveRole(roles[1..], rid);
      assert RolesUnique(roles[1..]) by {
        forall i, j | 0 <= i < j < |roles| - 1
          ensures roles[1..][i].id != roles[1..][j].id && roles[1..][i].name != roles[1..][j].name
            && roles[1..][i].slug != roles[1..][j].slug
        {
          assert roles[1..][i] == roles[i + 1] && roles[1..][j] == roles[j + 1];
        }
      }
      RemoveRoleUnique(roles[1..], rid);
      if roles[0].id != rid {
        var r := [roles[0]] + rest;
        forall i, j | 0 <= i < j < |r|
          ensures r[i].id != r[j].id && r[i].name != r[j].name && r[i].slug != r[j].slug
        {
          if i == 0 {
            assert r[j] in rest;
            var k :| 0 <= k < |roles| - 1 && roles[1..][k] == r[j];
            assert roles[k + 1] == r[j];
          } else {
            assert r[i] == rest[i - 1] && r[j] == rest[j - 1];
          }
        }
      }
    }
  }

  /** `update users set position = default where position = rid`. */
  function MoveUsers(users: seq<User>, rid: int, defaultPosition: int): (r: seq<User>)
    ensures |r| == |users|
    ensures forall i | 0 <= i < |users| ::
      r[i] == if users[i].position == rid then users[i].(position := defaultPosition) else users[i]
  {
    seq(|users|, i requires 0 <= i < |users| =>
      if users[i].position == rid then users[i].(position := defaultPosition) else users[i])
  }

  /** The committed state of the cascade on role `rid`. */
  function Cascade(db: Db, rid: int, defaultPosition: int): Db {
    db.(roles := RemoveRole(db.roles, rid),
        users := MoveUsers(db.users, rid, defaultPosition),
        grants := WithoutRole(db.grants, rid))
  }

  /** `deleteRoles` (UserPermissionController.php lines 302-350) with `config('roles.default_position')`
      as `defaultPosition` and `fault` standing for an exception raised by the store inside the
      transaction. The role row is deleted, its users are moved to the default position, its
      edges are deleted, then the transaction commits; a delete of no row throws. */
  function DeleteRole(db: Db, arg: IdArg, defaultPosition: int, fault: bool): (r: (DeleteOutcome, Db))
    ensures r.0 != Deleted ==> r.1 == db
    ensures r.0 == InvalidId <==> arg.NonNumeric?
    ensures r.0 == NotFound <==> arg.Numeric? && forall i | 0 <= i < |db.roles| :: db.roles[i].id as real != arg.value
    ensures r.0 == Deleted || r.0 == InvalidId || r.0 == NotFound || r.0 == Failed
    ensures r.0 == Failed <==> arg.Numeric? && FindRole(db.roles, arg.value).Some? && fault
  {
    match arg
    case NonNumeric(_) => (InvalidId, db)
    case Numeric(v) =>
      match FindRole(db.roles, v)
      case None => (NotFound, db)
      case Some(role) =>
        var rid := role.id;
        RemoveRoleShrinks(db.roles, role);
        var deleted := |db.roles| - |RemoveRole(db.roles, rid)|;
        if fault || deleted == 0 then (Failed, db)
        else (Deleted, Cascade(db, rid, defaultPosition))
  }

  /** The role the argument names is found, so the delete always removes a row. */
  lemma {:induction false} RemoveRoleShrinks(roles: seq<Role>, role: Role)
    requires role in roles
    ensures |RemoveRole(roles, role.id)| < |roles|
    decreases |roles|
  {
    if roles[0] != role {
      RemoveRoleShrinks(roles[1..], role);
    }
  }

  /** On success the role `rid` the argument names is gone, each of its users has the default
      position, none of its edges remains, every other user, role and edge is as it was, and
      the catalog and permissions are untouched. */
  lemma DeleteRoleEffects(db: Db, v: real, defaultPosition: int, fault: bool)
    ensures var (o, db') := DeleteRole(db, Numeric(v), defaultPosition, fault);
      o == Deleted ==>
        var rid := FindRole(db.roles, v).value.id;
        && (forall x :: x in db'.roles <==> x in db.roles && x.id != rid)
        && |db'.users| == |db.users|
        && (forall i | 0 <= i < |db.users| :: db'.users[i].position == if db.users[i].position == rid then defaultPosition else db.users[i].position)
        && (forall i | 0 <= i < |db.users| :: db'.users[i].(position := 0) == db.users[i].(position := 0))
        && (forall g :: g in db'.grants <==> g in db.grants && g.roleId != rid)
        && db'.subjects == db.subjects && db'.actions == db.actions && db'.permissions == db.permissions
  {
  }

  /** Moving users changes only positions, so a keyed user table stays keyed. */
  lemma MoveUsersUnique(users: seq<User>, rid: int, defaultPosition: int)
    requires UsersUnique(users)
    ensures UsersUnique(MoveUsers(users, rid, defaultPosition))
  {
    var r := MoveUsers(users, rid, defaultPosition);
    forall i, j | 0 <= i < j < |r|
      ensures r[i].id != r[j].id && r[i].username != r[j].username && r[i].email != r[j].email
    {
      assert r[i].id == users[i].id && r[i].username == users[i].username && r[i].email == users[i].email;
      assert r[j].id == users[j].id && r[j].username == users[j].username && r[j].email == users[j].email;
    }
  }

  /** The cascade keeps the store valid. */
  lemma CascadeValid(db: Db, rid: int, defaultPosition: int)
    requires Valid(db)
    ensures Valid(Cascade(db, rid, defaultPosition))
  {
    RemoveRoleUnique(db.roles, rid);
    MoveUsersUnique(db.users, rid, defaultPosition);
  }

  /** Every user's position names a role. */
  ghost predicate PositionsResolve(db: Db) {
    forall u | u in db.users :: exists role | role in db.roles :: role.id == u.position
  }

  /** The store of the counterexample: role 2 ("User") is the default position and Ann holds it. */
  function DefaultRoleDb(): Db {
    Db([User(1, "Ann", "Lee", "ann_lee", "ann@example.com", 2)], [Role(2, "User", "user")], [], [], [], [])
  }

  /** As written, deleting the default role commits and leaves its users on a position no role has. */
  lemma DeleteRoleStrandsUsers()
    ensures PositionsResolve(DefaultRoleDb())
    ensures DeleteRole(DefaultRoleDb(), Numeric(2.0), 2, false).0 == Deleted
    ensures !PositionsResolve(DeleteRole(DefaultRoleDb(), Numeric(2.0), 2, false).1)
  {
    var db := DefaultRoleDb();
    assert db.roles[0] in db.roles;
    assert FindRole(db.roles, 2.0) == Some(db.roles[0]);
    assert RemoveRole(db.roles, 2) == [];
    var db' := DeleteRole(db, Numeric(2.0), 2, false).1;
    assert db'.users[0] in db'.users;
  }

  /** `deleteRoles` with the guard the cascade needs: the default position must be a role other
      than the one being deleted, or the call is refused with nothing changed. */
  function DeleteRoleGuarded(db: Db, arg: IdArg, defaultPosition: int, fault: bool): (r: (DeleteOutcome, Db))
    ensures r.0 != Deleted ==> r.1 == db
    ensures r.0 == InvalidId <==> arg.NonNumeric?
    ensures r.0 == NotFound <==> arg.Numeric? && forall i | 0 <= i < |db.roles| :: db.roles[i].id as real != arg.value
    ensures r.0 == Refused <==> (arg.Numeric? && FindRole(db.roles, arg.value).Some?
      && (FindRole(db.roles, arg.value).value.id == defaultPosition || RoleById(db.roles, defaultPosition).None?))
  {
    match arg
    case NonNumeric(_) => (InvalidId, db)
    case Numeric(v) =>
      match FindRole(db.roles, v)
      case None => (NotFound, db)
      case Some(role) =>
        if role.id == defaultPosition || RoleById(db.roles, defaultPosition).None? then (Refused, db)
        else DeleteRole(db, arg, defaultPosition, fault)
  }

  /** The guarded deletion never leaves a user on a missing role, and keeps the store valid. */
  lemma DeleteRoleGuardedKeepsPositions(db: Db, arg: IdArg, defaultPosition: int, fault: bool)
    requires Valid(db) && PositionsResolve(db)
    ensures PositionsResolve(DeleteRoleGuarded(db, arg, defaultPosition, fault).1)
    ensures Valid(DeleteRoleGuarded(db, arg, defaultPosition, fault).1)
  {
    var (o, db') := DeleteRoleGuarded(db, arg, defaultPosition, fault);
    if o == Deleted {
      var rid := FindRole(db.roles, arg.value).value.id;
      var home := RoleById(db.roles, defaultPosition).value;
      assert db' == Cascade(db, rid, defaultPosition);
      CascadeValid(db, rid, defaultPosition);
      assert home in db'.roles;
      forall u | u in db'.users ensures exists role | role in db'.roles :: role.id == u.position {
        var i :| 0 <= i < |db'.users| && db'.users[i] == u;
        if db.users[i].position != rid {
          assert db.users[i] in db.users;
          var role :| role in db.roles && role.id == db.users[i].position;
          assert role in db'.roles;
        }
      }
    }
  }

  /** The guarded deletion agrees with the deletion as written whenever it does not refuse. */
  lemma DeleteRoleGuardedAgrees(db: Db, arg: IdArg, defaultPosition: int, fault: bool)
    ensures DeleteRoleGuarded(db, arg, defaultPosition, fault).0 != Refused ==>
      DeleteRoleGuarded(db, arg, defaultPosition, fault) == DeleteRole(db, arg, defaultPosition, fault)
  {
  }
}
