/** The step both permission writers share: resolve or create the
    (subject, action) permission row and insert the role's edge if it is absent. */
module GrantStep {
  import opened Common
  import opened Schema

  /** The result of a permission write, one kind per distinct response of the two writers. */
  datatype WriteOutcome =
    | Written                       // committed
    | InvalidInput                  // request validation failed (422)
    | InvalidRole                   // no role has the slug (400), before any transaction
    | UnknownSubject(name: string)  // strict writer: subject not in the catalog (404), nothing committed
    | UnknownAction(name: string)   // strict writer: action not in the catalog (404), nothing committed
    | Aborted                       // the store raised inside the transaction, rolled back (500)

  /** The tables a permission write never touches are those of users and roles; this
      says that, plus the catalog tables, are the same in two states. */
  predicate SameCatalog(a: Db, b: Db) {
    a.users == b.users && a.roles == b.roles && a.subjects == b.subjects && a.actions == b.actions
  }

  lemma PrefixTransitive<T>(a: seq<T>, b: seq<T>, c: seq<T>)
    requires IsPrefix(a, b) && IsPrefix(b, c)
    ensures IsPrefix(a, c)
  {
    assert c[..|a|] == c[..|b|][..|a|];
  }

  /** Deleting all of a role's edges (line 548 / 623) keeps the store valid and leaves the role with no pairs. */
  lemma ClearRoleSpec(db: Db, rid: int)
    requires Valid(db)
    ensures Valid(db.(grants := WithoutRole(db.grants, rid)))
    ensures GrantedPairs(db.(grants := WithoutRole(db.grants, rid)), rid) == {}
  {
    var c := db.(grants := WithoutRole(db.grants, rid));
    assert PermissionIds(c.permissions) == PermissionIds(db.permissions);
  }

  /** `insertOrIgnore` into the edge table: the unique index on (role_id, permission_id) drops a repeat. */
  function InsertOrIgnore(grants: seq<Grant>, g: Grant): (r: seq<Grant>)
    ensures forall x :: x in r <==> x in grants || x == g
    ensures NoDup(grants) ==> NoDup(r)
    ensures IsPrefix(grants, r)
  {
    if g in grants then grants else grants + [g]
  }

  /** The permission row for (s, a): reused when it exists, inserted with a fresh key otherwise. */
  function FindOrCreatePermission(permissions: seq<Permission>, s: Id, a: Id): (r: (seq<Permission>, Id))
    ensures IsPrefix(permissions, r.0)
    ensures Permission(r.1, s, a) in r.0
    ensures PermissionFor(permissions, s, a).Some? ==> r.0 == permissions
    ensures PermissionFor(permissions, s, a).None? ==>
      r.0 == permissions + [Permission(r.1, s, a)] && forall p | p in permissions :: p.id != r.1
  {
    match PermissionFor(permissions, s, a)
    case Some(p) => (permissions, p.id)
    case None =>
      var pid := NextPermissionId(permissions);
      (permissions + [Permission(pid, s, a)], pid)
  }

  /** Lines 577-592 (and 658-673): grant (s, a) to role `rid`. */
  function GrantPair(db: Db, rid: Id, s: Id, a: Id): (r: Db)
    ensures r.users == db.users && r.roles == db.roles && r.subjects == db.subjects && r.actions == db.actions
    ensures IsPrefix(db.permissions, r.permissions)
  {
    var (permissions, pid) := FindOrCreatePermission(db.permissions, s, a);
    db.(permissions := permissions, grants := InsertOrIgnore(db.grants, Grant(rid, pid)))
  }

  /** The permission table after find-or-create: still keyed, and the only new row is (pid, s, a). */
  lemma FindOrCreateSpec(permissions: seq<Permission>, s: Id, a: Id)
    requires PermissionsUnique(permissions)
    ensures var (ps, pid) := FindOrCreatePermission(permissions, s, a);
      && PermissionsUnique(ps)
      && (forall p :: p in ps <==> p in permissions || p == Permission(pid, s, a))
  {
    var (ps, pid) := FindOrCreatePermission(permissions, s, a);
    if PermissionFor(permissions, s, a).None? {
      forall i, j | 0 <= i < j < |ps|
        ensures ps[i].id != ps[j].id
        ensures Pair(ps[i].subjectId, ps[i].actionId) != Pair(ps[j].subjectId, ps[j].actionId)
      {
        if j == |permissions| {
          assert ps[i] == permissions[i];
        } else {
          assert ps[i] == permissions[i] && ps[j] == permissions[j];
        }
      }
    }
  }

  /** Granting one pair keeps the store valid. */
  lemma GrantPairValid(db: Db, rid: Id, s: Id, a: Id)
    requires Valid(db)
    requires s in SubjectIds(db.subjects) && a in ActionIds(db.actions)
    ensures Valid(GrantPair(db, rid, s, a))
  {
    var (ps, pid) := FindOrCreatePermission(db.permissions, s, a);
    var gs := InsertOrIgnore(db.grants, Grant(rid, pid));
    assert GrantPair(db, rid, s, a) == db.(permissions := ps, grants := gs);
    FindOrCreateSpec(db.permissions, s, a);
    assert forall p | p in ps :: p.subjectId in SubjectIds(db.subjects) && p.actionId in ActionIds(db.actions) by {
      forall p | p in ps ensures p.subjectId in SubjectIds(db.subjects) && p.actionId in ActionIds(db.actions) {
        if p != Permission(pid, s, a) {
          assert p in db.permissions;
        }
      }
    }
    assert forall g | g in gs :: g.permissionId in PermissionIds(ps) by {
      forall g | g in gs ensures g.permissionId in PermissionIds(ps) {
        if g == Grant(rid, pid) {
          assert Permission(pid, s, a) in ps;
        } else {
          var q :| q in db.permissions && q.id == g.permissionId;
          assert q in ps;
        }
      }
    }
  }

  /** Granting one pair adds exactly that pair to the role. */
  lemma GrantPairAdds(db: Db, rid: Id, s: Id, a: Id)
    requires Valid(db)
    ensures GrantedPairs(GrantPair(db, rid, s, a), rid) == GrantedPairs(db, rid) + {Pair(s, a)}
  {
    var r := GrantPair(db, rid, s, a);
    var (ps, pid) := FindOrCreatePermission(db.permissions, s, a);
    FindOrCreateSpec(db.permissions, s, a);
    var g := Grant(rid, pid);
    var np := Permission(pid, s, a);
    assert r.permissions == ps && r.grants == InsertOrIgnore(db.grants, g);
    AddedPairsSound(db, r, rid, g, np);
    AddedPairsComplete(db, r, rid, g, np);
  }

  /** Every pair of the grown tables is an old pair of `rid` or the added one. */
  lemma AddedPairsSound(db: Db, r: Db, rid: int, g: Grant, np: Permission)
    requires PermissionsUnique(r.permissions)
    requires forall x :: x in r.grants <==> x in db.grants || x == g
    requires forall x :: x in r.permissions <==> x in db.permissions || x == np
    requires g.roleId == rid && g.permissionId == np.id
    requires forall x | x in db.grants :: x.permissionId in PermissionIds(db.permissions)
    ensures GrantedPairs(r, rid) <= GrantedPairs(db, rid) + {Pair(np.subjectId, np.actionId)}
  {
    forall x | x in GrantedPairs(r, rid) ensures x in GrantedPairs(db, rid) + {Pair(np.subjectId, np.actionId)} {
      var e, p :| e in r.grants && p in r.permissions && e.roleId == rid && e.permissionId == p.id && x == Pair(p.subjectId, p.actionId);
      if e == g {
        PermissionKey(r.permissions, p, np);
      } else {
        var q :| q in db.permissions && q.id == e.permissionId;
        PermissionKey(r.permissions, p, q);
      }
    }
  }

  /** The grown tables keep every old pair of `rid` and hold the added one. */
  lemma AddedPairsComplete(db: Db, r: Db, rid: int, g: Grant, np: Permission)
    requires forall x :: x in r.grants <==> x in db.grants || x == g
    requires forall x :: x in r.permissions <==> x in db.permissions || x == np
    requires g.roleId == rid && g.permissionId == np.id
    ensures GrantedPairs(db, rid) + {Pair(np.subjectId, np.actionId)} <= GrantedPairs(r, rid)
  {
    forall x | x in GrantedPairs(db, rid) + {Pair(np.subjectId, np.actionId)} ensures x in GrantedPairs(r, rid) {
      if x == Pair(np.subjectId, np.actionId) {
        assert g in r.grants && np in r.permissions;
      } else {
        var e, p :| e in db.grants && p in db.permissions && e.roleId == rid && e.permissionId == p.id && x == Pair(p.subjectId, p.actionId);
        assert e in r.grants && p in r.permissions;
      }
    }
  }

  /** Granting a pair to `rid` leaves the edges of every other role as they were. */
  lemma GrantPairKeepsOthers(db: Db, rid: Id, s: Id, a: Id)
    ensures WithoutRole(GrantPair(db, rid, s, a).grants, rid) == WithoutRole(db.grants, rid)
  {
    var r := GrantPair(db, rid, s, a);
    var (ps, pid) := FindOrCreatePermission(db.permissions, s, a);
    var g := Grant(rid, pid);
    if g !in db.grants {
      assert r.grants == db.grants + [g];
      assert r.grants[..|r.grants| - 1] == db.grants;
    }
  }

  /** When the other roles' edges are the same rows and the permission table only grew,
      every other role keeps exactly its granted pairs. */
  lemma OtherRolesKeepPairs(db: Db, r: Db, rid: int, other: int)
    requires Valid(db) && Valid(r)
    requires WithoutRole(r.grants, rid) == WithoutRole(db.grants, rid)
    requires IsPrefix(db.permissions, r.permissions)
    requires other != rid
    ensures GrantedPairs(r, other) == GrantedPairs(db, other)
  {
    forall p | p in db.permissions ensures p in r.permissions {
      var i :| 0 <= i < |db.permissions| && db.permissions[i] == p;
      assert r.permissions[..|db.permissions|][i] == p;
    }
    forall x | x in GrantedPairs(r, other) ensures x in GrantedPairs(db, other) {
      var e, p :| e in r.grants && p in r.permissions && e.roleId == other && e.permissionId == p.id && x == Pair(p.subjectId, p.actionId);
      assert e in WithoutRole(r.grants, rid);
      assert e in db.grants;
      var q :| q in db.permissions && q.id == e.permissionId;
      PermissionKey(r.permissions, p, q);
    }
    forall x | x in GrantedPairs(db, other) ensures x in GrantedPairs(r, other) {
      var e, p :| e in db.grants && p in db.permissions && e.roleId == other && e.permissionId == p.id && x == Pair(p.subjectId, p.actionId);
      assert e in WithoutRole(db.grants, rid);
      assert e in r.grants;
    }
  }
}
