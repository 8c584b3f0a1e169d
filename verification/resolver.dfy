/** The read-only permission resolvers: the grouped capability returned at login and by
    `getUserPermissionByid`, and the flat `"subjectSlug.action"` list of
    `getRolePermissionByslug`. Each is the join of the edge table with permissions,
    subjects and actions, restricted to one role. */
module PermissionResolver {
  import opened Common
  import opened Text
  import opened Schema

  // ---------------------------------------------------------------------------
  // The join, one edge at a time.

  /** The subject and action row an edge joins with: `permissions.id = permission_id`, then
      `subjects.id = subject_id` and `actions.id = action_id`; no row when a reference dangles. */
  function JoinRow(db: Db, g: Grant): (r: Option<(Subject, Action)>)
    ensures r.Some? ==> r.value.0 in db.subjects && r.value.1 in db.actions
    ensures r.Some? ==> exists p | p in db.permissions ::
      p.id == g.permissionId && p.subjectId == r.value.0.id && p.actionId == r.value.1.id
  {
    match PermissionById(db.permissions, g.permissionId)
    case None => None
    case Some(p) =>
      match (SubjectById(db.subjects, p.subjectId), ActionById(db.actions, p.actionId))
      case (Some(s), Some(x)) => Some((s, x))
      case _ => None
  }

  /** In a valid store every edge joins, with exactly the rows its references name. */
  lemma JoinRowOfValid(db: Db, g: Grant, p: Permission, s: Subject, x: Action)
    requires Valid(db) && g in db.grants
    requires p in db.permissions && p.id == g.permissionId
    requires s in db.subjects && s.id == p.subjectId && x in db.actions && x.id == p.actionId
    ensures JoinRow(db, g) == Some((s, x))
  {
    var q := PermissionById(db.permissions, g.permissionId).value;
    PermissionKey(db.permissions, p, q);
    SubjectKey(db.subjects, s, SubjectById(db.subjects, p.subjectId).value);
    ActionKey(db.actions, x, ActionById(db.actions, p.actionId).value);
  }

  /** Edge `g` belongs to role `rid`, joins, and yields the row `y`. */
  ghost predicate RowOf(db: Db, rid: int, g: Grant, y: (string, string)) {
    g.roleId == rid && JoinRow(db, g).Some? && y == (JoinRow(db, g).value.0.name, JoinRow(db, g).value.1.name)
  }

  /** The (subject name, action name) rows of role `rid`'s edges from position `i` on,
      in edge-table order: `where user_permissions.role_id = rid`. */
  function NameRowsFrom(db: Db, rid: int, i: nat): (r: seq<(string, string)>)
    requires i <= |db.grants|
    ensures forall y :: y in r <==> exists k | i <= k < |db.grants| :: RowOf(db, rid, db.grants[k], y)
    decreases |db.grants| - i
  {
    if i == |db.grants| then []
    else
      var rest := NameRowsFrom(db, rid, i + 1);
      var g := db.grants[i];
      if g.roleId == rid && JoinRow(db, g).Some? then
        [(JoinRow(db, g).value.0.name, JoinRow(db, g).value.1.name)] + rest
      else rest
  }

  function NameRows(db: Db, rid: int): seq<(string, string)> {
    NameRowsFrom(db, rid, 0)
  }

  /** In a valid store an edge of role `rid` with permission `p` on (s, x) yields the row (s.name, x.name). */
  lemma EdgeYieldsRow(db: Db, rid: int, g: Grant, p: Permission, s: Subject, x: Action)
    requires Valid(db) && g in db.grants && g.roleId == rid
    requires p in db.permissions && p.id == g.permissionId
    requires s in db.subjects && s.id == p.subjectId && x in db.actions && x.id == p.actionId
    ensures (s.name, x.name) in NameRows(db, rid)
  {
    JoinRowOfValid(db, g, p, s, x);
    var k :| 0 <= k < |db.grants| && db.grants[k] == g;
    assert RowOf(db, rid, db.grants[k], (s.name, x.name));
  }

  /** Every row of the join is one of the role's granted names. */
  lemma NameRowsSound(db: Db, rid: int)
    ensures forall y | y in NameRows(db, rid) :: y in GrantedNames(db, rid)
  {
    forall y | y in NameRows(db, rid) ensures y in GrantedNames(db, rid) {
      var k :| 0 <= k < |db.grants| && RowOf(db, rid, db.grants[k], y);
      var g := db.grants[k];
      var (s, x) := JoinRow(db, g).value;
      var p :| p in db.permissions && p.id == g.permissionId && p.subjectId == s.id && p.actionId == x.id;
      assert Pair(s.id, x.id) in GrantedPairs(db, rid);
    }
  }

  /** In a valid store every granted name of the role is a row of the join. */
  lemma NameRowsComplete(db: Db, rid: int)
    requires Valid(db)
    ensures forall y | y in GrantedNames(db, rid) :: y in NameRows(db, rid)
  {
    forall y | y in GrantedNames(db, rid) ensures y in NameRows(db, rid) {
      var s, x :| s in db.subjects && x in db.actions && Pair(s.id, x.id) in GrantedPairs(db, rid) && y == (s.name, x.name);
      var g, p :| g in db.grants && p in db.permissions && g.roleId == rid && g.permissionId == p.id
        && Pair(s.id, x.id) == Pair(p.subjectId, p.actionId);
      EdgeYieldsRow(db, rid, g, p, s, x);
    }
  }

  /** In a valid store every edge joins. */
  lemma EdgeJoins(db: Db, g: Grant)
    requires Valid(db) && g in db.grants
    ensures JoinRow(db, g).Some?
  {
    var p :| p in db.permissions && p.id == g.permissionId;
    var s :| s in db.subjects && s.id == p.subjectId;
    var x :| x in db.actions && x.id == p.actionId;
    JoinRowOfValid(db, g, p, s, x);
  }

  /** A role none of whose edges joins has no rows; in a valid store, that is a role with no edges. */
  lemma NameRowsEmpty(db: Db, rid: int)
    requires Valid(db)
    ensures |NameRows(db, rid)| == 0 <==> forall g | g in db.grants :: g.roleId != rid
  {
    if exists g | g in db.grants :: g.roleId == rid {
      var g :| g in db.grants && g.roleId == rid;
      EdgeGivesRow(db, rid, g);
    } else {
      NoEdgeNoRow(db, rid);
    }
  }

  /** In a valid store an edge of the role yields a row. */
  lemma EdgeGivesRow(db: Db, rid: int, g: Grant)
    requires Valid(db) && g in db.grants && g.roleId == rid
    ensures |NameRows(db, rid)| > 0
  {
    EdgeJoins(db, g);
    var k :| 0 <= k < |db.grants| && db.grants[k] == g;
    var y := (JoinRow(db, g).value.0.name, JoinRow(db, g).value.1.name);
    assert RowOf(db, rid, db.grants[k], y);
    assert y in NameRows(db, rid);
  }

  /** Every row comes from an edge of the role. */
  lemma NoEdgeNoRow(db: Db, rid: int)
    requires forall g | g in db.grants :: g.roleId != rid
    ensures |NameRows(db, rid)| == 0
  {
    NoEdgeNoRowFrom(db, rid, 0);
  }

  lemma {:induction false} NoEdgeNoRowFrom(db: Db, rid: int, i: nat)
    requires i <= |db.grants| && forall g | g in db.grants :: g.roleId != rid
    ensures NameRowsFrom(db, rid, i) == []
    decreases |db.grants| - i
  {
    if i < |db.grants| {
      NoEdgeNoRowFrom(db, rid, i + 1);
      assert db.grants[i] in db.grants;
    }
  }

  /** In a valid store two edges yielding the same row of the same role are the same edge:
      subject and action names are keys, so is the (subject, action) pair of a permission. */
  lemma SameRowSameGrant(db: Db, rid: int, g1: Grant, g2: Grant, y: (string, string))
    requires Valid(db)
    ensures RowOf(db, rid, g1, y) && RowOf(db, rid, g2, y) ==> g1 == g2
  {
    if RowOf(db, rid, g1, y) && RowOf(db, rid, g2, y) {
      SameRowOf(db, rid, g1, g2, y);
    }
  }

  lemma SameRowOf(db: Db, rid: int, g1: Grant, g2: Grant, y: (string, string))
    requires Valid(db)
    requires RowOf(db, rid, g1, y) && RowOf(db, rid, g2, y)
    ensures g1 == g2
  {
    var (s1, x1) := JoinRow(db, g1).value;
    var (s2, x2) := JoinRow(db, g2).value;
    SubjectKey(db.subjects, s1, s2);
    ActionKey(db.actions, x1, x2);
    var p1 :| p1 in db.permissions && p1.id == g1.permissionId && p1.subjectId == s1.id && p1.actionId == x1.id;
    var p2 :| p2 in db.permissions && p2.id == g2.permissionId && p2.subjectId == s2.id && p2.actionId == x2.id;
    PermissionKey(db.permissions, p1, p2);
  }

  /** In a valid store the join never yields the same (subject, action) row twice. */
  lemma {:induction false} NameRowsFromDistinct(db: Db, rid: int, i: nat)
    requires Valid(db) && i <= |db.grants|
    ensures NoDup(NameRowsFrom(db, rid, i))
    decreases |db.grants| - i
  {
    if i < |db.grants| {
      NameRowsFromDistinct(db, rid, i + 1);
      var rest := NameRowsFrom(db, rid, i + 1);
      var g := db.grants[i];
      if g.roleId == rid && JoinRow(db, g).Some? {
        var y := (JoinRow(db, g).value.0.name, JoinRow(db, g).value.1.name);
        forall k | i + 1 <= k < |db.grants| ensures !RowOf(db, rid, db.grants[k], y) {
          SameRowSameGrant(db, rid, g, db.grants[k], y);
        }
        NoDupCons(y, rest);
      }
    }
  }

  // ---------------------------------------------------------------------------
  // `groupBy('subjects.name')` with `GROUP_CONCAT(actions.name)`.

  function FirstComponents(rows: seq<(string, string)>): (r: seq<string>)
    ensures |r| == |rows| && forall i | 0 <= i < |rows| :: r[i] == rows[i].0
  {
    seq(|rows|, i requires 0 <= i < |rows| => rows[i].0)
  }

  /** The action names of one group, in row order. */
  function ActionsOf(rows: seq<(string, string)>, subject: string): (r: seq<string>)
    ensures forall m :: m in r <==> (subject, m) in rows
    decreases |rows|
  {
    if |rows| == 0 then []
    else
      assert forall y :: y in rows <==> y == rows[0] || y in rows[1..];
      (if rows[0].0 == subject then [rows[0].1] else []) + ActionsOf(rows[1..], subject)
  }

  /** Distinct rows give a group without a repeated action. */
  lemma {:induction false} ActionsOfDistinct(rows: seq<(string, string)>, subject: string)
    requires NoDup(rows)
    ensures NoDup(ActionsOf(rows, subject))
    decreases |rows|
  {
    if |rows| > 0 {
      var tail := rows[1..];
      assert NoDup(tail) by {
        forall a, b | 0 <= a < b < |tail| ensures tail[a] != tail[b] {
          assert tail[a] == rows[a + 1] && tail[b] == rows[b + 1];
        }
      }
      ActionsOfDistinct(tail, subject);
      var rest := ActionsOf(tail, subject);
      if rows[0].0 == subject {
        assert rows[0].1 !in rest;
        NoDupCons(rows[0].1, rest);
      }
    }
  }

  /** One group per distinct subject name, in order of first appearance, each holding the
      action names of that subject's rows. */
  function GroupBySubject(rows: seq<(string, string)>): (r: seq<(string, seq<string>)>)
    ensures forall i, j | 0 <= i < j < |r| :: r[i].0 != r[j].0
    ensures forall y | y in rows :: exists i | 0 <= i < |r| :: r[i].0 == y.0
    ensures forall i | 0 <= i < |r| :: |r[i].1| > 0
    ensures forall i, m | 0 <= i < |r| :: m in r[i].1 <==> (r[i].0, m) in rows
    ensures forall i | 0 <= i < |r| :: r[i].1 == ActionsOf(rows, r[i].0)
  {
    var keys := Dedup(FirstComponents(rows));
    var r := seq(|keys|, i requires 0 <= i < |keys| => (keys[i], ActionsOf(rows, keys[i])));
    GroupsDistinct(keys, r);
    GroupsCover(rows, keys, r);
    GroupsHeld(rows, keys, r);
    GroupsContents(rows, keys, r);
    r
  }

  /** The group of key `i` is (keys[i], its actions). */
  ghost predicate GroupsOf(rows: seq<(string, string)>, keys: seq<string>, r: seq<(string, seq<string>)>) {
    |r| == |keys| && forall i | 0 <= i < |r| :: r[i] == (keys[i], ActionsOf(rows, keys[i]))
  }

  /** Distinct keys give groups with distinct subjects. */
  lemma GroupsDistinct(keys: seq<string>, r: seq<(string, seq<string>)>)
    requires NoDup(keys)
    requires |r| == |keys| && forall i | 0 <= i < |r| :: r[i].0 == keys[i]
    ensures forall i, j | 0 <= i < j < |r| :: r[i].0 != r[j].0
  {
  }

  /** Every row's subject has a group. */
  lemma GroupsCover(rows: seq<(string, string)>, keys: seq<string>, r: seq<(string, seq<string>)>)
    requires forall i | 0 <= i < |rows| :: rows[i].0 in keys
    requires GroupsOf(rows, keys, r)
    ensures forall y | y in rows :: exists i | 0 <= i < |r| :: r[i].0 == y.0
  {
    KeysCoverRows(rows, keys);
    forall y | y in rows ensures exists i | 0 <= i < |r| :: r[i].0 == y.0 {
      var i :| 0 <= i < |keys| && keys[i] == y.0;
      assert r[i].0 == y.0;
    }
  }

  /** Every group holds at least one action. */
  lemma GroupsHeld(rows: seq<(string, string)>, keys: seq<string>, r: seq<(string, seq<string>)>)
    requires forall i | 0 <= i < |keys| :: keys[i] in FirstComponents(rows)
    requires GroupsOf(rows, keys, r)
    ensures forall i | 0 <= i < |r| :: |r[i].1| > 0
  {
    KeysAreHeld(rows, keys);
  }

  /** A group holds exactly the actions of its subject's rows. */
  lemma GroupsContents(rows: seq<(string, string)>, keys: seq<string>, r: seq<(string, seq<string>)>)
    requires GroupsOf(rows, keys, r)
    ensures forall i, m | 0 <= i < |r| :: m in r[i].1 <==> (r[i].0, m) in rows
    ensures forall i | 0 <= i < |r| :: r[i].1 == ActionsOf(rows, r[i].0)
  {
  }

  /** Every row's subject is among the group keys. */
  lemma KeysCoverRows(rows: seq<(string, string)>, keys: seq<string>)
    requires forall i | 0 <= i < |rows| :: rows[i].0 in keys
    ensures forall y | y in rows :: exists i | 0 <= i < |keys| :: keys[i] == y.0
  {
    forall y | y in rows ensures exists i | 0 <= i < |keys| :: keys[i] == y.0 {
      var k :| 0 <= k < |rows| && rows[k] == y;
      assert y.0 in keys;
    }
  }

  /** Every group key is the subject of some row, so its group is not empty. */
  lemma KeysAreHeld(rows: seq<(string, string)>, keys: seq<string>)
    requires forall i | 0 <= i < |keys| :: keys[i] in FirstComponents(rows)
    ensures forall i | 0 <= i < |keys| :: |ActionsOf(rows, keys[i])| > 0
  {
    forall i | 0 <= i < |keys| ensures |ActionsOf(rows, keys[i])| > 0 {
      var k :| 0 <= k < |rows| && FirstComponents(rows)[k] == keys[i];
      assert (keys[i], rows[k].1) in rows by { assert rows[k] == (keys[i], rows[k].1); }
    }
  }

  // ---------------------------------------------------------------------------
  // The capability.

  /** One capability entry after `explode(',', ...)` on both columns. */
  datatype CapabilityEntry = CapabilityEntry(subject: seq<string>, actions: seq<string>)

  /** The capability built from join rows: group by subject, `GROUP_CONCAT` the actions,
      then `explode(',', ...)` both columns. */
  function CapabilityOf(rows: seq<(string, string)>): (r: seq<CapabilityEntry>)
    ensures |r| == |GroupBySubject(rows)|
  {
    var groups := GroupBySubject(rows);
    seq(|groups|, i requires 0 <= i < |groups| =>
      CapabilityEntry(Split(groups[i].0, ','), Split(Join(groups[i].1, ','), ',')))
  }

  /** The grouped capability of role `rid` (AuthController.php lines 88-104). */
  function Capability(db: Db, rid: int): seq<CapabilityEntry> {
    CapabilityOf(NameRows(db, rid))
  }

  ghost predicate RowsCommaFree(rows: seq<(string, string)>) {
    forall y | y in rows :: ',' !in y.0 && ',' !in y.1
  }

  /** When no name holds a comma, `explode` undoes `GROUP_CONCAT`: each entry is its group. */
  lemma EntryIsGroup(rows: seq<(string, string)>, i: nat)
    requires RowsCommaFree(rows)
    requires i < |GroupBySubject(rows)|
    ensures var g := GroupBySubject(rows)[i];
      CapabilityOf(rows)[i] == CapabilityEntry([g.0], g.1)
  {
    var g := GroupBySubject(rows)[i];
    assert (g.0, g.1[0]) in rows;
    forall j | 0 <= j < |g.1| ensures ',' !in g.1[j] {
      assert (g.0, g.1[j]) in rows;
    }
    SplitJoin([g.0], ',');
    SplitJoin(g.1, ',');
  }

  /** The capability of comma-free rows that denote the name set `names`: one entry per
      subject, whose single subject name is distinct from every other entry's and whose
      actions are exactly that subject's actions in `names`. */
  lemma CapabilityOfRows(rows: seq<(string, string)>, names: set<(string, string)>)
    requires RowsCommaFree(rows)
    requires forall y :: y in rows <==> y in names
    ensures var c := CapabilityOf(rows);
      && (forall i | 0 <= i < |c| :: |c[i].subject| == 1)
      && (forall i, j | 0 <= i < j < |c| :: c[i].subject[0] != c[j].subject[0])
      && (forall i, m | 0 <= i < |c| :: m in c[i].actions <==> (c[i].subject[0], m) in names)
      && (forall n, m | (n, m) in names :: exists i | 0 <= i < |c| :: c[i].subject == [n])
      && (forall i | 0 <= i < |c| :: |c[i].actions| > 0)
      && (NoDup(rows) ==> forall i | 0 <= i < |c| :: NoDup(c[i].actions))
  {
    var groups := GroupBySubject(rows);
    var c := CapabilityOf(rows);
    forall i | 0 <= i < |groups| ensures c[i] == CapabilityEntry([groups[i].0], groups[i].1) {
      EntryIsGroup(rows, i);
    }
    EntriesOfGroups(groups, c, names);
    if NoDup(rows) {
      forall i | 0 <= i < |c| ensures NoDup(c[i].actions) {
        ActionsOfDistinct(rows, groups[i].0);
      }
    }
  }

  /** Entries built one per group, from groups keyed by subject that list exactly each
      subject's actions in `names`, have the shape `CapabilityOfRows` states. */
  lemma EntriesOfGroups(groups: seq<(string, seq<string>)>, c: seq<CapabilityEntry>, names: set<(string, string)>)
    requires |c| == |groups|
    requires forall i | 0 <= i < |c| :: c[i] == CapabilityEntry([groups[i].0], groups[i].1)
    requires forall i, j | 0 <= i < j < |groups| :: groups[i].0 != groups[j].0
    requires forall y | y in names :: exists i | 0 <= i < |groups| :: groups[i].0 == y.0
    requires forall i, m | 0 <= i < |groups| :: m in groups[i].1 <==> (groups[i].0, m) in names
    requires forall i | 0 <= i < |groups| :: |groups[i].1| > 0
    ensures forall i | 0 <= i < |c| :: |c[i].subject| == 1
    ensures forall i | 0 <= i < |c| :: |c[i].actions| > 0
    ensures forall i, j | 0 <= i < j < |c| :: c[i].subject[0] != c[j].subject[0]
    ensures forall i, m | 0 <= i < |c| :: m in c[i].actions <==> (c[i].subject[0], m) in names
    ensures forall n, m | (n, m) in names :: exists i | 0 <= i < |c| :: c[i].subject == [n]
  {
    forall n, m | (n, m) in names ensures exists i | 0 <= i < |c| :: c[i].subject == [n] {
      var i :| 0 <= i < |groups| && groups[i].0 == n;
      assert c[i].subject == [n];
    }
  }

  /** No catalog name contains the separator `GROUP_CONCAT` and `explode` use. */
  ghost predicate CommaFree(db: Db) {
    && (forall s | s in db.subjects :: ',' !in s.name)
    && (forall x | x in db.actions :: ',' !in x.name)
  }

  /** The join's rows come from the catalog, so they are comma-free when it is. */
  lemma NameRowsCommaFree(db: Db, rid: int)
    requires CommaFree(db)
    ensures RowsCommaFree(NameRows(db, rid))
  {
    forall y | y in NameRows(db, rid) ensures ',' !in y.0 && ',' !in y.1 {
      var k :| 0 <= k < |db.grants| && RowOf(db, rid, db.grants[k], y);
    }
  }

  /** The capability of a valid, comma-free store has one entry per subject the role holds
      something on, and no other: each entry's subject is that one name, and its actions are
      exactly the actions granted to the role on it, at least one, none twice. */
  lemma CapabilityExact(db: Db, rid: int)
    requires Valid(db) && CommaFree(db)
    ensures var c := Capability(db, rid);
      && (forall i | 0 <= i < |c| :: |c[i].subject| == 1)
      && (forall i, j | 0 <= i < j < |c| :: c[i].subject[0] != c[j].subject[0])
      && (forall i, m | 0 <= i < |c| :: m in c[i].actions <==> (c[i].subject[0], m) in GrantedNames(db, rid))
      && (forall n, m | (n, m) in GrantedNames(db, rid) :: exists i | 0 <= i < |c| :: c[i].subject == [n])
      && (forall i | 0 <= i < |c| :: |c[i].actions| > 0 && NoDup(c[i].actions))
  {
    NameRowsFromDistinct(db, rid, 0);
    NameRowsSound(db, rid);
    NameRowsComplete(db, rid);
    NameRowsCommaFree(db, rid);
    CapabilityOfRows(NameRows(db, rid), GrantedNames(db, rid));
  }

  /** The capability is empty exactly when the join has no rows. */
  lemma CapabilityOfEmpty(rows: seq<(string, string)>)
    ensures |CapabilityOf(rows)| == 0 <==> |rows| == 0
  {
    if |rows| > 0 {
      assert rows[0] in rows;
    }
  }

  // ---------------------------------------------------------------------------
  // `login`, after `Auth::attempt` has accepted the credentials.

  datatype LoginResult =
    | LoginFailed                                                   // an exception inside the try block (500)
    | Authenticated(position: string, capability: seq<CapabilityEntry>)  // 200, `position` replaced by the role name

  /** The role name `login` writes over the user's position: users joined with `user_roles` on
      the position, first row; none when no user holds the position or no role has that id. */
  function PositionName(db: Db, position: int): Option<string> {
    if exists i | 0 <= i < |db.users| :: db.users[i].position == position then
      match RoleById(db.roles, position)
      case Some(role) => Some(role.name)
      case None => None
    else None
  }

  /** `login` for the authenticated user `u` (AuthController.php lines 83-127): the capability of
      `u`'s position, and the position's role name; reading the name of a missing row throws. */
  function Login(db: Db, u: User): (r: LoginResult)
    ensures r.Authenticated? ==> |r.capability| == |GroupBySubject(NameRows(db, u.position))|
  {
    var capability := Capability(db, u.position);
    match PositionName(db, u.position)
    case None => LoginFailed
    case Some(name) => Authenticated(name, capability)
  }

  /** An authenticated user is a row of `users`, so login fails exactly when no role has the
      user's position, and otherwise reports that role's name. */
  lemma LoginOutcome(db: Db, u: User)
    requires u in db.users
    ensures Login(db, u).LoginFailed? <==> RoleById(db.roles, u.position).None?
    ensures Login(db, u).Authenticated? ==> Login(db, u).position == RoleById(db.roles, u.position).value.name
  {
    var i :| 0 <= i < |db.users| && db.users[i] == u;
    assert db.users[i].position == u.position;
  }

  /** In a valid, comma-free store, a user whose position is a role logs in with the capability
      of that role only: one entry per subject, each holding exactly the actions granted to the
      position on it (at least one, none twice), and an empty capability (not an error) for a
      role with no edges. */
  lemma LoginCapability(db: Db, u: User)
    requires Valid(db) && CommaFree(db) && u in db.users
    requires RoleById(db.roles, u.position).Some?
    ensures Login(db, u).Authenticated?
    ensures var c := Login(db, u).capability;
      && (forall i | 0 <= i < |c| :: |c[i].subject| == 1)
      && (forall i, j | 0 <= i < j < |c| :: c[i].subject[0] != c[j].subject[0])
      && (forall i, m | 0 <= i < |c| :: m in c[i].actions <==> (c[i].subject[0], m) in GrantedNames(db, u.position))
      && (forall n, m | (n, m) in GrantedNames(db, u.position) :: exists i | 0 <= i < |c| :: c[i].subject == [n])
      && (forall i | 0 <= i < |c| :: |c[i].actions| > 0 && NoDup(c[i].actions))
      && (|c| == 0 <==> forall g | g in db.grants :: g.roleId != u.position)
  {
    LoginOutcome(db, u);
    CapabilityExact(db, u.position);
    CapabilityOfEmpty(NameRows(db, u.position));
    NameRowsEmpty(db, u.position);
  }

  // ---------------------------------------------------------------------------
  // `getUserPermissionByid`: the same grouping, reached through `users.position`.

  /** The rows of the five-table join `user_permissions ⋈ users(position = role_id) ⋈ permissions
      ⋈ subjects ⋈ actions where users.id = uid`, in edge-table order; `users.id` is the key,
      so a user contributes at most one row per edge. */
  function UserRowsFrom(db: Db, uid: int, i: nat): seq<(string, string)>
    requires i <= |db.grants|
    decreases |db.grants| - i
  {
    if i == |db.grants| then []
    else
      var rest := UserRowsFrom(db, uid, i + 1);
      var g := db.grants[i];
      match (UserById(db.users, uid), JoinRow(db, g))
      case (Some(u), Some((s, x))) => if u.position == g.roleId then [(s.name, x.name)] + rest else rest
      case _ => rest
  }

  /** Reaching the role through the user is the same as filtering on the user's position. */
  lemma {:induction false} UserRowsAreRoleRows(db: Db, uid: int, i: nat)
    requires i <= |db.grants|
    ensures UserById(db.users, uid).None? ==> UserRowsFrom(db, uid, i) == []
    ensures UserById(db.users, uid).Some? ==>
      UserRowsFrom(db, uid, i) == NameRowsFrom(db, UserById(db.users, uid).value.position, i)
    decreases |db.grants| - i
  {
    if i < |db.grants| {
      UserRowsAreRoleRows(db, uid, i + 1);
    }
  }

  /** `getUserPermissionByid` (UserPermissionController.php lines 459-487): the grouped
      capability of the user's position; an unknown user has none ("No permissions found"). */
  function UserPermissions(db: Db, uid: int): (r: seq<CapabilityEntry>)
    ensures UserById(db.users, uid).None? ==> r == []
    ensures UserById(db.users, uid).Some? ==> r == Capability(db, UserById(db.users, uid).value.position)
  {
    UserRowsAreRoleRows(db, uid, 0);
    CapabilityOf(UserRowsFrom(db, uid, 0))
  }

  /** With keyed users, the user-id endpoint returns the capability `login` returns. */
  lemma UserPermissionsMatchLogin(db: Db, u: User)
    requires UsersUnique(db.users) && u in db.users
    ensures Login(db, u).Authenticated? ==> Login(db, u).capability == UserPermissions(db, u.id)
  {
    var v := UserById(db.users, u.id).value;
    var i :| 0 <= i < |db.users| && db.users[i] == u;
    var j :| 0 <= j < |db.users| && db.users[j] == v;
    assert i == j;
  }
}
