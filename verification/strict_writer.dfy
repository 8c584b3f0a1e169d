/** `storePermission`: replaces a role's whole grant set from named actions.
    Subjects and actions must already be in the catalog; the subject catalog is
    keyed by slug but looked up with the subject name exactly as submitted. */
module StrictWriter {
  import opened Common
  import opened Text
  import opened Schema
  import opened GrantStep

  /** One submitted entry: `{subject, actions: [name, ...]}`. */
  datatype NamedEntry = NamedEntry(subject: string, actions: seq<string>)

  /** The request rules `permissions: required|array`, `permissions.*.subject: required|string`,
      `permissions.*.actions: required|array`: a required list must not be empty and a required
      string not blank. */
  predicate WellFormed(entries: seq<NamedEntry>) {
    |entries| > 0 && forall e | e in entries :: !Blank(e.subject) && |e.actions| > 0
  }

  /** Every value of a name-to-id map is the key of a catalog row. */
  ghost predicate MapsInto(m: map<string, Id>, ids: set<int>) {
    forall k | k in m :: m[k] in ids
  }

  /** Every submitted subject and action is a key of the preloaded maps. */
  predicate AllKnown(subjectIds: map<string, Id>, actionIds: map<string, Id>, entries: seq<NamedEntry>) {
    forall e | e in entries :: e.subject in subjectIds && forall a | a in e.actions :: a in actionIds
  }

  /** The pairs one entry declares. */
  ghost function EntryPairs(sid: Id, actionIds: map<string, Id>, names: seq<string>): set<Pair> {
    set a | a in names && a in actionIds :: Pair(sid, actionIds[a])
  }

  /** The pairs a declaration grants, resolved through the preloaded maps. */
  ghost function Declared(subjectIds: map<string, Id>, actionIds: map<string, Id>, entries: seq<NamedEntry>): set<Pair> {
    set e, a | e in entries && a in e.actions && e.subject in subjectIds && a in actionIds ::
      Pair(subjectIds[e.subject], actionIds[a])
  }

  lemma EntryPairsCons(sid: Id, actionIds: map<string, Id>, names: seq<string>)
    requires |names| > 0 && names[0] in actionIds
    ensures EntryPairs(sid, actionIds, names) == {Pair(sid, actionIds[names[0]])} + EntryPairs(sid, actionIds, names[1..])
  {
    assert forall a :: a in names <==> a == names[0] || a in names[1..];
  }

  lemma DeclaredCons(subjectIds: map<string, Id>, actionIds: map<string, Id>, entries: seq<NamedEntry>)
    requires |entries| > 0 && entries[0].subject in subjectIds
    ensures Declared(subjectIds, actionIds, entries)
         == EntryPairs(subjectIds[entries[0].subject], actionIds, Dedup(entries[0].actions))
          + Declared(subjectIds, actionIds, entries[1..])
  {
    var e0 := entries[0];
    var sid := subjectIds[e0.subject];
    assert forall a :: a in Dedup(e0.actions) <==> a in e0.actions;
    assert forall e :: e in entries <==> e == e0 || e in entries[1..];
    var lhs := Declared(subjectIds, actionIds, entries);
    var rhs := EntryPairs(sid, actionIds, Dedup(e0.actions)) + Declared(subjectIds, actionIds, entries[1..]);
    forall x | x in lhs ensures x in rhs {
      var e, a :| e in entries && a in e.actions && e.subject in subjectIds && a in actionIds
        && x == Pair(subjectIds[e.subject], actionIds[a]);
      if e != e0 {
        assert e in entries[1..];
      }
    }
  }

  /** The inner loop (lines 567-593) over the de-duplicated actions of one entry:
      it succeeds exactly when every action name is in the preloaded map. */
  function GrantActions(db: Db, rid: Id, sid: Id, actionIds: map<string, Id>, names: seq<string>): (r: Result<Db, WriteOutcome>)
    ensures r.Ok? <==> forall a | a in names :: a in actionIds
    ensures r.Err? ==> r.error.UnknownAction? && r.error.name in names && r.error.name !in actionIds
    ensures r.Ok? ==> SameCatalog(r.value, db) && IsPrefix(db.permissions, r.value.permissions)
    ensures r.Ok? ==> WithoutRole(r.value.grants, rid) == WithoutRole(db.grants, rid)
    decreases |names|
  {
    if |names| == 0 then Ok(db)
    else if names[0] !in actionIds then Err(UnknownAction(names[0]))
    else
      var aid := actionIds[names[0]];
      var next := GrantPair(db, rid, sid, aid);
      GrantPairKeepsOthers(db, rid, sid, aid);
      var r := GrantActions(next, rid, sid, actionIds, names[1..]);
      assert forall a | a in names[1..] :: a in names;
      assert r.Ok? ==> IsPrefix(db.permissions, r.value.permissions) by {
        if r.Ok? {
          PrefixTransitive(db.permissions, next.permissions, r.value.permissions);
        }
      }
      r
  }

  /** A successful inner loop keeps the store valid and adds exactly the entry's pairs to the role. */
  lemma {:induction false} GrantActionsSpec(db: Db, rid: Id, sid: Id, actionIds: map<string, Id>, names: seq<string>)
    requires Valid(db) && sid in SubjectIds(db.subjects) && MapsInto(actionIds, ActionIds(db.actions))
    requires GrantActions(db, rid, sid, actionIds, names).Ok?
    ensures Valid(GrantActions(db, rid, sid, actionIds, names).value)
    ensures GrantedPairs(GrantActions(db, rid, sid, actionIds, names).value, rid)
         == GrantedPairs(db, rid) + EntryPairs(sid, actionIds, names)
    decreases |names|
  {
    if |names| > 0 {
      var aid := actionIds[names[0]];
      var next := GrantPair(db, rid, sid, aid);
      assert GrantActions(db, rid, sid, actionIds, names) == GrantActions(next, rid, sid, actionIds, names[1..]);
      assert aid in ActionIds(db.actions);
      GrantPairValid(db, rid, sid, aid);
      assert SameCatalog(next, db);
      GrantActionsSpec(next, rid, sid, actionIds, names[1..]);
      GrantPairAdds(db, rid, sid, aid);
      EntryPairsCons(sid, actionIds, names);
    }
  }

  /** The outer loop (lines 555-594): each entry's subject, then its actions. */
  function GrantEntries(db: Db, rid: Id, subjectIds: map<string, Id>, actionIds: map<string, Id>, entries: seq<NamedEntry>): (r: Result<Db, WriteOutcome>)
    ensures r.Ok? <==> AllKnown(subjectIds, actionIds, entries)
    ensures r.Err? ==> r.error.UnknownSubject? || r.error.UnknownAction?
    ensures r.Err? && r.error.UnknownSubject? ==> r.error.name !in subjectIds && exists e | e in entries :: e.subject == r.error.name
    ensures r.Err? && r.error.UnknownAction? ==> r.error.name !in actionIds && exists e | e in entries :: r.error.name in e.actions
    ensures r.Ok? ==> SameCatalog(r.value, db) && IsPrefix(db.permissions, r.value.permissions)
    ensures r.Ok? ==> WithoutRole(r.value.grants, rid) == WithoutRole(db.grants, rid)
    decreases |entries|
  {
    if |entries| == 0 then Ok(db)
    else
      var e := entries[0];
      assert forall x | x in entries[1..] :: x in entries;
      if e.subject !in subjectIds then Err(UnknownSubject(e.subject))
      else
        var names := Dedup(e.actions);
        assert forall a :: a in names <==> a in e.actions;
        match GrantActions(db, rid, subjectIds[e.subject], actionIds, names)
        case Err(err) => Err(err)
        case Ok(next) =>
          var r := GrantEntries(next, rid, subjectIds, actionIds, entries[1..]);
          assert r.Ok? ==> IsPrefix(db.permissions, r.value.permissions) by {
            if r.Ok? {
              PrefixTransitive(db.permissions, next.permissions, r.value.permissions);
            }
          }
          assert r.Ok? <==> AllKnown(subjectIds, actionIds, entries) by {
            assert forall x :: x in entries <==> x == e || x in entries[1..];
          }
          r
  }

  /** A successful outer loop keeps the store valid and adds exactly the declared pairs to the role. */
  lemma {:induction false} GrantEntriesSpec(db: Db, rid: Id, subjectIds: map<string, Id>, actionIds: map<string, Id>, entries: seq<NamedEntry>)
    requires Valid(db) && MapsInto(subjectIds, SubjectIds(db.subjects)) && MapsInto(actionIds, ActionIds(db.actions))
    requires GrantEntries(db, rid, subjectIds, actionIds, entries).Ok?
    ensures Valid(GrantEntries(db, rid, subjectIds, actionIds, entries).value)
    ensures GrantedPairs(GrantEntries(db, rid, subjectIds, actionIds, entries).value, rid)
         == GrantedPairs(db, rid) + Declared(subjectIds, actionIds, entries)
    decreases |entries|
  {
    if |entries| > 0 {
      var e := entries[0];
      var next := GrantActions(db, rid, subjectIds[e.subject], actionIds, Dedup(e.actions));
      GrantActionsSpec(db, rid, subjectIds[e.subject], actionIds, Dedup(e.actions));
      GrantEntriesSpec(next.value, rid, subjectIds, actionIds, entries[1..]);
      DeclaredCons(subjectIds, actionIds, entries);
    }
  }

  /** The preloaded maps (lines 550-551) hold catalog keys. */
  lemma PluckedMapsInto(db: Db)
    ensures MapsInto(SubjectIdsBySlug(db.subjects), SubjectIds(db.subjects))
    ensures MapsInto(ActionIdsByName(db.actions), ActionIds(db.actions))
  {
    var sm := SubjectIdsBySlug(db.subjects);
    forall k | k in sm ensures sm[k] in SubjectIds(db.subjects) {
      var i :| 0 <= i < |db.subjects| && db.subjects[i].slug == k && db.subjects[i].id == sm[k];
      assert db.subjects[i] in db.subjects;
    }
    var am := ActionIdsByName(db.actions);
    forall k | k in am ensures am[k] in ActionIds(db.actions) {
      var i :| 0 <= i < |db.actions| && db.actions[i].name == k && db.actions[i].id == am[k];
      assert db.actions[i] in db.actions;
    }
  }

  /** `storePermission($request, $slug)` (lines 529-603). Returns the outcome and the
      committed state; every outcome but `Written` leaves the store as it was. */
  function StorePermission(db: Db, slug: string, entries: seq<NamedEntry>): (r: (WriteOutcome, Db))
    ensures r.0 != Written ==> r.1 == db
    ensures r.0 == InvalidInput <==> !WellFormed(entries)
    ensures WellFormed(entries) && RoleBySlug(db.roles, slug).None? ==> r.0 == InvalidRole
    ensures r.0 != Aborted
    ensures SameCatalog(r.1, db)
    ensures r.0 == Written <==>
      WellFormed(entries) && RoleBySlug(db.roles, slug).Some?
      && AllKnown(SubjectIdsBySlug(db.subjects), ActionIdsByName(db.actions), entries)
    ensures r.0.UnknownSubject? ==> r.0.name !in SubjectIdsBySlug(db.subjects)
    ensures r.0.UnknownAction? ==> r.0.name !in ActionIdsByName(db.actions)
    ensures r.0 == Written ==>
      var rid := RoleBySlug(db.roles, slug).value.id;
      && WithoutRole(r.1.grants, rid) == WithoutRole(db.grants, rid)
      && IsPrefix(db.permissions, r.1.permissions)
  {
    if !WellFormed(entries) then (InvalidInput, db)
    else match RoleBySlug(db.roles, slug)
      case None => (InvalidRole, db)
      case Some(role) =>
        var cleared := db.(grants := WithoutRole(db.grants, role.id));
        WithoutRoleTwice(db.grants, role.id);
        match GrantEntries(cleared, role.id, SubjectIdsBySlug(cleared.subjects), ActionIdsByName(cleared.actions), entries)
        case Err(e) => (e, db)
        case Ok(next) => (Written, next)
  }

  /** A committed write is the outer loop run on the role's cleared edges. */
  lemma StorePermissionWritten(db: Db, slug: string, entries: seq<NamedEntry>)
    requires StorePermission(db, slug, entries).0 == Written
    ensures var rid := RoleBySlug(db.roles, slug).value.id;
      var result := GrantEntries(db.(grants := WithoutRole(db.grants, rid)), rid,
                                 SubjectIdsBySlug(db.subjects), ActionIdsByName(db.actions), entries);
      result.Ok? && StorePermission(db, slug, entries).1 == result.value
  {
  }

  /** The outer loop run on a valid store whose role edges were cleared grants exactly the declared pairs. */
  lemma ClearedThenGranted(db: Db, rid: Id, entries: seq<NamedEntry>)
    requires Valid(db)
    ensures var result := GrantEntries(db.(grants := WithoutRole(db.grants, rid)), rid,
                                       SubjectIdsBySlug(db.subjects), ActionIdsByName(db.actions), entries);
      result.Ok? ==>
        && Valid(result.value)
        && GrantedPairs(result.value, rid) == Declared(SubjectIdsBySlug(db.subjects), ActionIdsByName(db.actions), entries)
  {
    var cleared := db.(grants := WithoutRole(db.grants, rid));
    var sm, am := SubjectIdsBySlug(db.subjects), ActionIdsByName(db.actions);
    if GrantEntries(cleared, rid, sm, am, entries).Ok? {
      ClearRoleSpec(db, rid);
      PluckedMapsInto(cleared);
      GrantEntriesSpec(cleared, rid, sm, am, entries);
    }
  }

  /** Full replace: after a committed write the role holds exactly the declared pairs,
      whatever it held before, and the store is still valid. */
  lemma StorePermissionReplaces(db: Db, slug: string, entries: seq<NamedEntry>)
    requires Valid(db)
    requires StorePermission(db, slug, entries).0 == Written
    ensures Valid(StorePermission(db, slug, entries).1)
    ensures GrantedPairs(StorePermission(db, slug, entries).1, RoleBySlug(db.roles, slug).value.id)
         == Declared(SubjectIdsBySlug(db.subjects), ActionIdsByName(db.actions), entries)
  {
    StorePermissionWritten(db, slug, entries);
    ClearedThenGranted(db, RoleBySlug(db.roles, slug).value.id, entries);
  }

  /** Edges of roles other than the written one are untouched, and so are their pairs. */
  lemma StorePermissionKeepsOtherRoles(db: Db, slug: string, entries: seq<NamedEntry>, other: int)
    requires Valid(db)
    requires StorePermission(db, slug, entries).0 == Written
    requires other != RoleBySlug(db.roles, slug).value.id
    ensures GrantedPairs(StorePermission(db, slug, entries).1, other) == GrantedPairs(db, other)
  {
    StorePermissionReplaces(db, slug, entries);
    OtherRolesKeepPairs(db, StorePermission(db, slug, entries).1, RoleBySlug(db.roles, slug).value.id, other);
  }

  /** Writing the same declaration twice has the same outcome and leaves the role
      with the same pairs as writing it once. */
  lemma StorePermissionIdempotent(db: Db, slug: string, entries: seq<NamedEntry>)
    requires Valid(db)
    ensures var once := StorePermission(db, slug, entries);
      && StorePermission(once.1, slug, entries).0 == once.0
      && (once.0 == Written ==>
            var rid := RoleBySlug(db.roles, slug).value.id;
            GrantedPairs(StorePermission(once.1, slug, entries).1, rid) == GrantedPairs(once.1, rid))
  {
    var once := StorePermission(db, slug, entries);
    if once.0 == Written {
      StorePermissionReplaces(db, slug, entries);
      StorePermissionReplaces(once.1, slug, entries);
    }
  }

  /** `required` on `permissions.*.subject` fails on a subject `trim` empties, with nothing written. */
  lemma StorePermissionRejectsBlank(db: Db, slug: string, entries: seq<NamedEntry>, k: nat)
    requires k < |entries| && Trim(entries[k].subject) == ""
    ensures StorePermission(db, slug, entries) == (InvalidInput, db)
  {
    BlankIffTrimmedEmpty(entries[k].subject);
    assert entries[k] in entries;
  }

  /** The store the two slug examples below run against. */
  function SlugExampleDb(): Db {
    Db([], [Role(1, "Admin", "admin")], [Subject(1, "Purchase Order", "purchaseorder")],
       [Action(1, "create")], [], [])
  }

  /** The subject lookup goes by slug: a subject submitted under its display name is unknown. */
  lemma StorePermissionMatchesSlugs()
    ensures StorePermission(SlugExampleDb(), "admin", [NamedEntry("Purchase Order", ["create"])]).0
      == UnknownSubject("Purchase Order")
  {
    var db := SlugExampleDb();
    assert "Purchase Order" !in SubjectIdsBySlug(db.subjects);
    assert RoleBySlug(db.roles, "admin").Some?;
    assert !IsTrimmed("Purchase Order"[0]);
  }

  /** The same subject submitted under its slug is written. */
  lemma StorePermissionWritesBySlug()
    ensures StorePermission(SlugExampleDb(), "admin", [NamedEntry("purchaseorder", ["create"])]).0 == Written
  {
    var db := SlugExampleDb();
    assert db.subjects[0].slug in SubjectIdsBySlug(db.subjects);
    assert db.actions[0].name in ActionIdsByName(db.actions);
    assert RoleBySlug(db.roles, "admin").Some?;
    assert !IsTrimmed("purchaseorder"[0]);
  }
}
