/** The six tables the controllers read and write, as in-memory relations.
    A table is a sequence of rows in insertion order; a lookup returns the first
    matching row, as `->value('id')`, `->first()` and `find` do. */
module Schema {
  import opened Common

  /** Auto-increment keys start at 1, so PHP's falsy test `!$id` is only true of a missing row. */
  type Id = n: int | n >= 1 witness 1

  /** `users`; the password hash is left out. `position` is the user's role id. */
  datatype User = User(id: Id, firstName: string, lastName: string, username: string, email: string, position: int)

  /** `user_roles`. */
  datatype Role = Role(id: Id, name: string, slug: string)

  /** `subjects`: a protected resource. */
  datatype Subject = Subject(id: Id, name: string, slug: string)

  /** `actions`: an operation verb. */
  datatype Action = Action(id: Id, name: string)

  /** `permissions`: one grantable (subject, action) capability. */
  datatype Permission = Permission(id: Id, subjectId: Id, actionId: Id)

  /** `user_permissions`: the edge granting a permission to a role. */
  datatype Grant = Grant(roleId: Id, permissionId: Id)

  datatype Db = Db(
    users: seq<User>,
    roles: seq<Role>,
    subjects: seq<Subject>,
    actions: seq<Action>,
    permissions: seq<Permission>,
    grants: seq<Grant>)

  /** A (subject id, action id) pair, the key of a permission row. */
  datatype Pair = Pair(subject: Id, action: Id)

  // ---------------------------------------------------------------------------
  // Lookups: the first row that matches.

  /** The first row whose `key` is `k`: `where(column, k)->first()`. */
  function FirstWith<T, K(==)>(rows: seq<T>, key: T -> K, k: K): (r: Option<T>)
    ensures r.None? <==> forall i | 0 <= i < |rows| :: key(rows[i]) != k
    ensures r.Some? ==> r.value in rows && key(r.value) == k
  {
    if |rows| == 0 then None
    else if key(rows[0]) == k then Some(rows[0])
    else FirstWith(rows[1..], key, k)
  }

  function RoleBySlug(roles: seq<Role>, slug: string): (r: Option<Role>)
    ensures r.None? <==> forall i | 0 <= i < |roles| :: roles[i].slug != slug
    ensures r.Some? ==> r.value in roles && r.value.slug == slug
  {
    FirstWith(roles, (x: Role) => x.slug, slug)
  }

  function RoleByName(roles: seq<Role>, name: string): (r: Option<Role>)
    ensures r.None? <==> forall i | 0 <= i < |roles| :: roles[i].name != name
    ensures r.Some? ==> r.value in roles && r.value.name == name
  {
    FirstWith(roles, (x: Role) => x.name, name)
  }

  function RoleById(roles: seq<Role>, id: int): (r: Option<Role>)
    ensures r.None? <==> forall i | 0 <= i < |roles| :: roles[i].id != id
    ensures r.Some? ==> r.value in roles && r.value.id == id
  {
    FirstWith(roles, (x: Role) => x.id, id)
  }

  function UserById(users: seq<User>, id: int): (r: Option<User>)
    ensures r.None? <==> forall i | 0 <= i < |users| :: users[i].id != id
    ensures r.Some? ==> r.value in users && r.value.id == id
  {
    FirstWith(users, (x: User) => x.id, id)
  }

  function SubjectById(subjects: seq<Subject>, id: int): (r: Option<Subject>)
    ensures r.None? <==> forall i | 0 <= i < |subjects| :: subjects[i].id != id
    ensures r.Some? ==> r.value in subjects && r.value.id == id
  {
    FirstWith(subjects, (x: Subject) => x.id, id)
  }

  function ActionById(actions: seq<Action>, id: int): (r: Option<Action>)
    ensures r.None? <==> forall i | 0 <= i < |actions| :: actions[i].id != id
    ensures r.Some? ==> r.value in actions && r.value.id == id
  {
    FirstWith(actions, (x: Action) => x.id, id)
  }

  function PermissionById(permissions: seq<Permission>, id: int): (r: Option<Permission>)
    ensures r.None? <==> forall i | 0 <= i < |permissions| :: permissions[i].id != id
    ensures r.Some? ==> r.value in permissions && r.value.id == id
  {
    FirstWith(permissions, (x: Permission) => x.id, id)
  }

  /** `permissions where subject_id = s and action_id = a`, first row. */
  function PermissionFor(permissions: seq<Permission>, s: Id, a: Id): (r: Option<Permission>)
    ensures r.None? <==> forall i | 0 <= i < |permissions| :: Pair(permissions[i].subjectId, permissions[i].actionId) != Pair(s, a)
    ensures r.Some? ==> r.value in permissions && r.value.subjectId == s && r.value.actionId == a
  {
    if |permissions| == 0 then None
    else if permissions[0].subjectId == s && permissions[0].actionId == a then Some(permissions[0])
    else PermissionFor(permissions[1..], s, a)
  }

  // ---------------------------------------------------------------------------
  // `pluck('id', key)`: a map from key to id; a later row overwrites an earlier one.

  function SubjectIdsBySlug(subjects: seq<Subject>): (m: map<string, Id>)
    ensures forall i | 0 <= i < |subjects| :: subjects[i].slug in m
    ensures forall k | k in m :: exists i | 0 <= i < |subjects| :: subjects[i].slug == k && subjects[i].id == m[k]
    decreases |subjects|
  {
    if |subjects| == 0 then map[]
    else
      var init := subjects[..|subjects| - 1];
      var last := subjects[|subjects| - 1];
      assert subjects == init + [last];
      SubjectIdsBySlug(init)[last.slug := last.id]
  }

  function SubjectIdsByName(subjects: seq<Subject>): (m: map<string, Id>)
    ensures forall i | 0 <= i < |subjects| :: subjects[i].name in m
    ensures forall k | k in m :: exists i | 0 <= i < |subjects| :: subjects[i].name == k && subjects[i].id == m[k]
    decreases |subjects|
  {
    if |subjects| == 0 then map[]
    else
      var init := subjects[..|subjects| - 1];
      var last := subjects[|subjects| - 1];
      assert subjects == init + [last];
      SubjectIdsByName(init)[last.name := last.id]
  }

  function ActionIdsByName(actions: seq<Action>): (m: map<string, Id>)
    ensures forall i | 0 <= i < |actions| :: actions[i].name in m
    ensures forall k | k in m :: exists i | 0 <= i < |actions| :: actions[i].name == k && actions[i].id == m[k]
    decreases |actions|
  {
    if |actions| == 0 then map[]
    else
      var init := actions[..|actions| - 1];
      var last := actions[|actions| - 1];
      assert actions == init + [last];
      ActionIdsByName(init)[last.name := last.id]
  }

  // ---------------------------------------------------------------------------
  // Fresh keys for `insertGetId`: one more than the largest key present.

  function MaxPlusOne(ids: seq<int>): (r: Id)
    ensures forall i | 0 <= i < |ids| :: ids[i] < r
  {
    if |ids| == 0 then 1
    else
      var r := MaxPlusOne(ids[1..]);
      if ids[0] < r then r else ids[0] + 1
  }

  /** The key `insertGetId` assigns: larger than every row's `key`. */
  function FreshKey<T>(rows: seq<T>, key: T -> int): (r: Id)
    ensures forall i | 0 <= i < |rows| :: key(rows[i]) < r
  {
    var ids := seq(|rows|, i requires 0 <= i < |rows| => key(rows[i]));
    assert forall i | 0 <= i < |rows| :: ids[i] == key(rows[i]);
    MaxPlusOne(ids)
  }

  function NextUserId(users: seq<User>): (r: Id)
    ensures forall i | 0 <= i < |users| :: users[i].id < r
  {
    FreshKey(users, (x: User) => x.id)
  }

  function NextRoleId(roles: seq<Role>): (r: Id)
    ensures forall i | 0 <= i < |roles| :: roles[i].id < r
  {
    FreshKey(roles, (x: Role) => x.id)
  }

  function NextSubjectId(subjects: seq<Subject>): (r: Id)
    ensures forall i | 0 <= i < |subjects| :: subjects[i].id < r
  {
    FreshKey(subjects, (x: Subject) => x.id)
  }

  function NextActionId(actions: seq<Action>): (r: Id)
    ensures forall i | 0 <= i < |actions| :: actions[i].id < r
  {
    FreshKey(actions, (x: Action) => x.id)
  }

  function NextPermissionId(permissions: seq<Permission>): (r: Id)
    ensures forall i | 0 <= i < |permissions| :: permissions[i].id < r
  {
    FreshKey(permissions, (x: Permission) => x.id)
  }

  // ---------------------------------------------------------------------------
  // The schema's keys and unique indexes.

  ghost predicate UsersUnique(users: seq<User>) {
    forall i, j | 0 <= i < j < |users| ::
      users[i].id != users[j].id && users[i].username != users[j].username && users[i].email != users[j].email
  }

  ghost predicate RolesUnique(roles: seq<Role>) {
    forall i, j | 0 <= i < j < |roles| ::
      roles[i].id != roles[j].id && roles[i].name != roles[j].name && roles[i].slug != roles[j].slug
  }

  ghost predicate SubjectsUnique(subjects: seq<Subject>) {
    forall i, j | 0 <= i < j < |subjects| ::
      subjects[i].id != subjects[j].id && subjects[i].name != subjects[j].name && subjects[i].slug != subjects[j].slug
  }

  ghost predicate ActionsUnique(actions: seq<Action>) {
    forall i, j | 0 <= i < j < |actions| :: actions[i].id != actions[j].id && actions[i].name != actions[j].name
  }

  /** Permission ids are keys and no (subject, action) pair has two rows. */
  ghost predicate PermissionsUnique(permissions: seq<Permission>) {
    forall i, j | 0 <= i < j < |permissions| ::
      permissions[i].id != permissions[j].id
      && Pair(permissions[i].subjectId, permissions[i].actionId) != Pair(permissions[j].subjectId, permissions[j].actionId)
  }

  ghost function SubjectIds(subjects: seq<Subject>): set<int> {
    set s | s in subjects :: s.id
  }

  ghost function ActionIds(actions: seq<Action>): set<int> {
    set x | x in actions :: x.id
  }

  ghost function PermissionIds(permissions: seq<Permission>): set<int> {
    set p | p in permissions :: p.id
  }

  /** Every permission names a catalog subject and action; every edge names a permission. */
  ghost predicate ReferencesResolve(db: Db) {
    && (forall p | p in db.permissions :: p.subjectId in SubjectIds(db.subjects) && p.actionId in ActionIds(db.actions))
    && (forall g | g in db.grants :: g.permissionId in PermissionIds(db.permissions))
  }

  /** The integrity every committed state of the store has: keys, unique indexes
      (the edge table is unique on (role_id, permission_id)) and resolving references. */
  ghost predicate Valid(db: Db) {
    && UsersUnique(db.users)
    && RolesUnique(db.roles)
    && SubjectsUnique(db.subjects)
    && ActionsUnique(db.actions)
    && PermissionsUnique(db.permissions)
    && NoDup(db.grants)
    && ReferencesResolve(db)
  }

  // ---------------------------------------------------------------------------
  // Views of the grant relation.

  /** The (subject, action) pairs granted to role `rid`: edges joined with permissions. */
  ghost function GrantedPairs(db: Db, rid: int): set<Pair> {
    set g, p | g in db.grants && p in db.permissions && g.roleId == rid && g.permissionId == p.id ::
      Pair(p.subjectId, p.actionId)
  }

  /** The edges of every role except `rid`, in table order. */
  function WithoutRole(grants: seq<Grant>, rid: int): (r: seq<Grant>)
    ensures forall g :: g in r <==> g in grants && g.roleId != rid
    ensures NoDup(grants) ==> NoDup(r)
    decreases |grants|
  {
    if |grants| == 0 then []
    else
      var init := grants[..|grants| - 1];
      var last := grants[|grants| - 1];
      assert grants == init + [last];
      var r := WithoutRole(init, rid);
      if last.roleId != rid then r + [last] else r
  }

  /** Removing a role's edges a second time removes nothing more. */
  lemma {:induction false} WithoutRoleTwice(grants: seq<Grant>, rid: int)
    ensures WithoutRole(WithoutRole(grants, rid), rid) == WithoutRole(grants, rid)
    decreases |grants|
  {
    if |grants| > 0 {
      var init := grants[..|grants| - 1];
      var last := grants[|grants| - 1];
      WithoutRoleTwice(init, rid);
      var w := WithoutRole(init, rid);
      if last.roleId != rid {
        assert (w + [last])[..|w|] == w;
      }
    }
  }

  /** The display names of the subject catalog. */
  ghost function SubjectNames(subjects: seq<Subject>): set<string> {
    set s | s in subjects :: s.name
  }

  /** The names of the action catalog. */
  ghost function ActionNames(actions: seq<Action>): set<string> {
    set x | x in actions :: x.name
  }

  /** The (subject name, action name) pairs a set of id pairs denotes in a catalog. */
  ghost function NamesOf(subjects: seq<Subject>, actions: seq<Action>, pairs: set<Pair>): set<(string, string)> {
    set s, x | s in subjects && x in actions && Pair(s.id, x.id) in pairs :: (s.name, x.name)
  }

  /** The (subject name, action name) pairs granted to role `rid`: the four-table join the
      login capability is grouped from. */
  ghost function GrantedNames(db: Db, rid: int): set<(string, string)> {
    NamesOf(db.subjects, db.actions, GrantedPairs(db, rid))
  }

  /** Under a keyed subject table, the name-keyed pluck maps every row's name to that row's id. */
  lemma SubjectIdsByNameKeyed(subjects: seq<Subject>)
    requires SubjectsUnique(subjects)
    ensures forall i | 0 <= i < |subjects| :: SubjectIdsByName(subjects)[subjects[i].name] == subjects[i].id
  {
    var m := SubjectIdsByName(subjects);
    forall i | 0 <= i < |subjects| ensures m[subjects[i].name] == subjects[i].id {
      var j :| 0 <= j < |subjects| && subjects[j].name == subjects[i].name && subjects[j].id == m[subjects[i].name];
      assert i == j;
    }
  }

  /** Under a keyed action table, the name-keyed pluck maps every row's name to that row's id. */
  lemma ActionIdsByNameKeyed(actions: seq<Action>)
    requires ActionsUnique(actions)
    ensures forall i | 0 <= i < |actions| :: ActionIdsByName(actions)[actions[i].name] == actions[i].id
  {
    var m := ActionIdsByName(actions);
    forall i | 0 <= i < |actions| ensures m[actions[i].name] == actions[i].id {
      var j :| 0 <= j < |actions| && actions[j].name == actions[i].name && actions[j].id == m[actions[i].name];
      assert i == j;
    }
  }

  /** Two rows of a keyed permission table with the same key, or the same (subject, action)
      pair, are the same row. */
  lemma PermissionKey(permissions: seq<Permission>, p: Permission, q: Permission)
    requires PermissionsUnique(permissions)
    requires p in permissions && q in permissions
    requires p.id == q.id || (p.subjectId == q.subjectId && p.actionId == q.actionId)
    ensures p == q
  {
    var i :| 0 <= i < |permissions| && permissions[i] == p;
    var j :| 0 <= j < |permissions| && permissions[j] == q;
    assert i == j;
  }

  /** Two rows of a keyed subject table with the same key, or the same name, are the same row. */
  lemma SubjectKey(subjects: seq<Subject>, a: Subject, b: Subject)
    requires SubjectsUnique(subjects)
    requires a in subjects && b in subjects && (a.id == b.id || a.name == b.name)
    ensures a == b
  {
    var i :| 0 <= i < |subjects| && subjects[i] == a;
    var j :| 0 <= j < |subjects| && subjects[j] == b;
    assert i == j;
  }

  /** Two rows of a keyed action table with the same key, or the same name, are the same row. */
  lemma ActionKey(actions: seq<Action>, a: Action, b: Action)
    requires ActionsUnique(actions)
    requires a in actions && b in actions && (a.id == b.id || a.name == b.name)
    ensures a == b
  {
    var i :| 0 <= i < |actions| && actions[i] == a;
    var j :| 0 <= j < |actions| && actions[j] == b;
    assert i == j;
  }

  /** In a valid store every granted pair names a catalog subject and a catalog action. */
  lemma GrantedPairsResolve(db: Db, rid: int)
    requires Valid(db)
    ensures forall x | x in GrantedPairs(db, rid) :: x.subject in SubjectIds(db.subjects) && x.action in ActionIds(db.actions)
  {
  }

  /** Adding one id pair adds exactly its names, when the catalog is keyed. */
  lemma NamesOfAdd(subjects: seq<Subject>, actions: seq<Action>, pairs: set<Pair>, s: Subject, x: Action)
    requires SubjectsUnique(subjects) && ActionsUnique(actions)
    requires s in subjects && x in actions
    ensures NamesOf(subjects, actions, pairs + {Pair(s.id, x.id)}) == NamesOf(subjects, actions, pairs) + {(s.name, x.name)}
  {
    forall n | n in NamesOf(subjects, actions, pairs + {Pair(s.id, x.id)})
      ensures n in NamesOf(subjects, actions, pairs) + {(s.name, x.name)}
    {
      var s', x' :| s' in subjects && x' in actions && Pair(s'.id, x'.id) in pairs + {Pair(s.id, x.id)} && n == (s'.name, x'.name);
      if Pair(s'.id, x'.id) !in pairs {
        SubjectKey(subjects, s, s');
        ActionKey(actions, x, x');
      }
    }
  }

  /** A subject row whose key no pair mentions adds no names. */
  lemma NamesOfFreshSubject(subjects: seq<Subject>, actions: seq<Action>, pairs: set<Pair>, s: Subject)
    requires forall x | x in pairs :: x.subject in SubjectIds(subjects)
    requires s.id !in SubjectIds(subjects)
    ensures NamesOf(subjects + [s], actions, pairs) == NamesOf(subjects, actions, pairs)
  {
    forall n | n in NamesOf(subjects + [s], actions, pairs) ensures n in NamesOf(subjects, actions, pairs) {
      var s', x' :| s' in subjects + [s] && x' in actions && Pair(s'.id, x'.id) in pairs && n == (s'.name, x'.name);
      assert s'.id in SubjectIds(subjects);
    }
  }

  /** An action row whose key no pair mentions adds no names. */
  lemma NamesOfFreshAction(subjects: seq<Subject>, actions: seq<Action>, pairs: set<Pair>, x: Action)
    requires forall p | p in pairs :: p.action in ActionIds(actions)
    requires x.id !in ActionIds(actions)
    ensures NamesOf(subjects, actions + [x], pairs) == NamesOf(subjects, actions, pairs)
  {
    forall n | n in NamesOf(subjects, actions + [x], pairs) ensures n in NamesOf(subjects, actions, pairs) {
      var s', x' :| s' in subjects && x' in actions + [x] && Pair(s'.id, x'.id) in pairs && n == (s'.name, x'.name);
      assert x'.id in ActionIds(actions);
    }
  }
}
