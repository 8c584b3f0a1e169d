/** The lenient permission writer `storePermissionByIndex`: a role's grants are replaced
    by boolean flags that map by position onto a fixed action order, and subjects and
    actions the catalog lacks are created on the fly and cached for the rest of the call. */
module FlagsWriter {
  import opened Common
  import opened Text
  import opened Schema
  import opened GrantStep

  /** A decoded JSON value in a flag list; Laravel's `boolean` rule decides which are accepted. */
  datatype FlagValue = Bool(b: bool) | Int(n: int) | Str(s: string)

  /** One `{subject, actions}` entry of the request: `actions` is the list of flags. */
  datatype FlagEntry = FlagEntry(subject: string, flags: seq<FlagValue>)

  /** The action a flag position stands for (line 630). */
  const ActionOrder: seq<string> := ["create", "update", "delete", "read"]

  /** Laravel's `boolean` rule: true, false, 1, 0, "1" and "0". */
  predicate BooleanLike(v: FlagValue) {
    match v
    case Bool(_) => true
    case Int(n) => n == 0 || n == 1
    case Str(s) => s == "0" || s == "1"
  }

  /** The request passes validation (lines 607-612): a non-empty list of entries, each with a
      subject that is not blank and a non-empty list of boolean-like flags. */
  predicate WellFormed(entries: seq<FlagEntry>) {
    && |entries| > 0
    && (forall k | 0 <= k < |entries| :: !Blank(entries[k].subject) && |entries[k].flags| > 0)
    && (forall k, i | 0 <= k < |entries| && 0 <= i < |entries[k].flags| :: BooleanLike(entries[k].flags[i]))
  }

  /** The action the flag at position `i` grants: only a literal `true` (not 1 or "1"),
      and only at a position the action order covers. */
  function FlagAction(flags: seq<FlagValue>, i: nat): Option<string>
    requires i < |flags|
  {
    if flags[i] == Bool(true) && i < |ActionOrder| then Some(ActionOrder[i]) else None
  }

  // ---------------------------------------------------------------------------
  // The declared meaning of a request, independent of the store.

  /** The (subject, action) name pairs flags `i..` of one entry declare. */
  ghost function FlagNames(subject: string, flags: seq<FlagValue>, i: nat): set<(string, string)> {
    set j | i <= j < |flags| && j < |ActionOrder| && flags[j] == Bool(true) :: (subject, ActionOrder[j])
  }

  /** The (subject, action) name pairs a whole request declares. */
  ghost function FlagPairs(entries: seq<FlagEntry>): set<(string, string)> {
    set k, j | 0 <= k < |entries| && 0 <= j < |entries[k].flags| && j < |ActionOrder| && entries[k].flags[j] == Bool(true)
      :: (entries[k].subject, ActionOrder[j])
  }

  /** The subject names a request declares. */
  ghost function DeclaredSubjects(entries: seq<FlagEntry>): set<string> {
    set k | 0 <= k < |entries| :: entries[k].subject
  }

  /** The action names a request flags somewhere. */
  ghost function FlaggedActions(entries: seq<FlagEntry>): set<string> {
    set k, j | 0 <= k < |entries| && 0 <= j < |entries[k].flags| && j < |ActionOrder| && entries[k].flags[j] == Bool(true)
      :: ActionOrder[j]
  }

  /** The action names flags `i..` of one entry set. */
  ghost function FlagActionNames(flags: seq<FlagValue>, i: nat): set<string> {
    set j | i <= j < |flags| && j < |ActionOrder| && flags[j] == Bool(true) :: ActionOrder[j]
  }

  /** No subject the call has to create collides with the unique slug index: its slug is neither
      the slug of a catalog subject nor the slug of another subject the call creates. */
  ghost predicate SlugsFree(subjects: seq<Subject>, entries: seq<FlagEntry>) {
    forall k | 0 <= k < |entries| && entries[k].subject !in SubjectNames(subjects) ::
      && (forall s | s in subjects :: s.slug != Slug(entries[k].subject))
      && (forall k' | 0 <= k' < |entries| && entries[k'].subject !in SubjectNames(subjects)
            && entries[k'].subject != entries[k].subject :: Slug(entries[k'].subject) != Slug(entries[k].subject))
  }

  // ---------------------------------------------------------------------------
  // The work state of the transaction: the store plus the two name caches.

  /** The store inside the transaction, with `existing ?? new` for subjects and actions folded
      into one map each (a name created by the call is never a key of the preloaded map). */
  datatype Work = Work(db: Db, subjectIds: map<string, Id>, actionIds: map<string, Id>)

  /** The caches agree with the tables, and the tables are valid. */
  ghost predicate Cached(w: Work) {
    && Valid(w.db)
    && w.subjectIds == SubjectIdsByName(w.db.subjects)
    && w.actionIds == ActionIdsByName(w.db.actions)
  }

  /** Some subject row already carries this slug. */
  predicate SlugTaken(subjects: seq<Subject>, slug: string) {
    exists i | 0 <= i < |subjects| :: subjects[i].slug == slug
  }

  /** Lines 633-640: the subject's id from the caches, or a new row with the derived slug.
      The unique slug index rejects a new row whose slug is taken; the exception rolls the call back. */
  function ResolveSubject(w: Work, name: string): (r: Result<(Work, Id), WriteOutcome>)
    ensures r.Ok? ==> name in r.value.0.subjectIds && r.value.0.subjectIds[name] == r.value.1
    ensures r.Ok? ==> r.value.0.actionIds == w.actionIds
    ensures r.Ok? ==> r.value.0.db == w.db.(subjects := r.value.0.db.subjects)
    ensures r.Ok? ==> IsPrefix(w.db.subjects, r.value.0.db.subjects)
    ensures r.Err? ==> r.error == Aborted && name !in w.subjectIds && SlugTaken(w.db.subjects, Slug(name))
  {
    if name in w.subjectIds then Ok((w, w.subjectIds[name]))
    else
      var slug := Slug(name);
      if SlugTaken(w.db.subjects, slug) then Err(Aborted)
      else
        var id := NextSubjectId(w.db.subjects);
        var subjects := w.db.subjects + [Subject(id, name, slug)];
        assert subjects[..|w.db.subjects|] == w.db.subjects;
        Ok((Work(w.db.(subjects := subjects), w.subjectIds[name := id], w.actionIds), id))
  }

  /** Lines 650-656: the action's id from the caches, or a new row. */
  function ResolveAction(w: Work, name: string): (r: (Work, Id))
    ensures name in r.0.actionIds && r.0.actionIds[name] == r.1
    ensures r.0.subjectIds == w.subjectIds
    ensures r.0.db == w.db.(actions := r.0.db.actions)
    ensures IsPrefix(w.db.actions, r.0.db.actions)
  {
    if name in w.actionIds then (w, w.actionIds[name])
    else
      var id := NextActionId(w.db.actions);
      var actions := w.db.actions + [Action(id, name)];
      assert actions[..|w.db.actions|] == w.db.actions;
      (Work(w.db.(actions := actions), w.subjectIds, w.actionIds[name := id]), id)
  }

  /** Lines 647-673 for one flag that is set: resolve the action, then the shared grant step. */
  function GrantAction(w: Work, rid: Id, sid: Id, name: string): (r: Work)
    ensures r.subjectIds == w.subjectIds
    ensures WithoutRole(r.db.grants, rid) == WithoutRole(w.db.grants, rid)
    ensures r.db.users == w.db.users && r.db.roles == w.db.roles && r.db.subjects == w.db.subjects
    ensures IsPrefix(w.db.actions, r.db.actions) && IsPrefix(w.db.permissions, r.db.permissions)
  {
    var (w1, aid) := ResolveAction(w, name);
    PrefixTransitive(w.db.actions, w1.db.actions, GrantPair(w1.db, rid, sid, aid).actions);
    GrantPairKeepsOthers(w1.db, rid, sid, aid);
    w1.(db := GrantPair(w1.db, rid, sid, aid))
  }

  /** Lines 642-675: the flags of one entry from position `i` on. */
  function GrantFlags(w: Work, rid: Id, sid: Id, flags: seq<FlagValue>, i: nat): (r: Work)
    requires i <= |flags|
    ensures r.subjectIds == w.subjectIds
    ensures WithoutRole(r.db.grants, rid) == WithoutRole(w.db.grants, rid)
    ensures r.db.users == w.db.users && r.db.roles == w.db.roles && r.db.subjects == w.db.subjects
    ensures IsPrefix(w.db.actions, r.db.actions) && IsPrefix(w.db.permissions, r.db.permissions)
    decreases |flags| - i
  {
    if i == |flags| then w
    else
      var w1 := match FlagAction(flags, i) case None => w case Some(name) => GrantAction(w, rid, sid, name);
      var r := GrantFlags(w1, rid, sid, flags, i + 1);
      PrefixTransitive(w.db.actions, w1.db.actions, r.db.actions);
      PrefixTransitive(w.db.permissions, w1.db.permissions, r.db.permissions);
      r
  }

  /** Lines 632-676: every entry in request order; a failure stops the call. */
  function GrantFlagEntries(w: Work, rid: Id, entries: seq<FlagEntry>): (r: Result<Work, WriteOutcome>)
    ensures r.Err? ==> r.error == Aborted
    ensures r.Ok? ==> r.value.db.users == w.db.users && r.value.db.roles == w.db.roles
    ensures r.Ok? ==> IsPrefix(w.db.subjects, r.value.db.subjects) && IsPrefix(w.db.actions, r.value.db.actions)
    ensures r.Ok? ==> IsPrefix(w.db.permissions, r.value.db.permissions)
    ensures r.Ok? ==> WithoutRole(r.value.db.grants, rid) == WithoutRole(w.db.grants, rid)
    decreases |entries|
  {
    if |entries| == 0 then Ok(w)
    else
      match ResolveSubject(w, entries[0].subject)
      case Err(e) => Err(e)
      case Ok((w1, sid)) =>
        var w2 := GrantFlags(w1, rid, sid, entries[0].flags, 0);
        var r := GrantFlagEntries(w2, rid, entries[1..]);
        if r.Ok? then
          PrefixTransitive(w.db.subjects, w1.db.subjects, r.value.db.subjects);
          PrefixTransitive(w.db.actions, w2.db.actions, r.value.db.actions);
          PrefixTransitive(w.db.permissions, w2.db.permissions, r.value.db.permissions);
          r
        else r
  }

  // ---------------------------------------------------------------------------
  // What each step does to a cached, valid store.

  /** The new rows of a subject table from position `n` on carry the slug of their name. */
  ghost predicate SlugsDerived(subjects: seq<Subject>, n: nat) {
    forall i | n <= i < |subjects| :: subjects[i].slug == Slug(subjects[i].name)
  }

  /** A subject row appended with a fresh key, a new name and a free slug keeps the store valid. */
  lemma AppendSubjectValid(db: Db, ns: Subject)
    requires Valid(db)
    requires ns.id !in SubjectIds(db.subjects) && ns.name !in SubjectNames(db.subjects)
    requires forall s | s in db.subjects :: s.slug != ns.slug
    ensures Valid(db.(subjects := db.subjects + [ns]))
  {
    var ss := db.subjects + [ns];
    assert SubjectIds(ss) == SubjectIds(db.subjects) + {ns.id};
    forall i, j | 0 <= i < j < |ss|
      ensures ss[i].id != ss[j].id && ss[i].name != ss[j].name && ss[i].slug != ss[j].slug
    {
      assert ss[i] == db.subjects[i];
      if j < |db.subjects| {
        assert ss[j] == db.subjects[j];
      } else {
        assert ss[i] in db.subjects;
      }
    }
  }

  /** An action row appended with a fresh key and a new name keeps the store valid. */
  lemma AppendActionValid(db: Db, nx: Action)
    requires Valid(db)
    requires nx.id !in ActionIds(db.actions) && nx.name !in ActionNames(db.actions)
    ensures Valid(db.(actions := db.actions + [nx]))
  {
    var xs := db.actions + [nx];
    assert ActionIds(xs) == ActionIds(db.actions) + {nx.id};
    forall i, j | 0 <= i < j < |xs| ensures xs[i].id != xs[j].id && xs[i].name != xs[j].name {
      assert xs[i] == db.actions[i];
      if j < |db.actions| {
        assert xs[j] == db.actions[j];
      } else {
        assert xs[i] in db.actions;
      }
    }
  }

  /** A catalog row appended with a fresh key changes no role's granted names. */
  lemma AppendSubjectKeepsNames(db: Db, ns: Subject, rid: int)
    requires Valid(db) && ns.id !in SubjectIds(db.subjects)
    ensures GrantedNames(db.(subjects := db.subjects + [ns]), rid) == GrantedNames(db, rid)
  {
    var d := db.(subjects := db.subjects + [ns]);
    GrantedPairsResolve(db, rid);
    assert GrantedPairs(d, rid) == GrantedPairs(db, rid);
    NamesOfFreshSubject(db.subjects, db.actions, GrantedPairs(db, rid), ns);
  }

  lemma AppendActionKeepsNames(db: Db, nx: Action, rid: int)
    requires Valid(db) && nx.id !in ActionIds(db.actions)
    ensures GrantedNames(db.(actions := db.actions + [nx]), rid) == GrantedNames(db, rid)
  {
    var d := db.(actions := db.actions + [nx]);
    GrantedPairsResolve(db, rid);
    assert GrantedPairs(d, rid) == GrantedPairs(db, rid);
    NamesOfFreshAction(db.subjects, db.actions, GrantedPairs(db, rid), nx);
  }

  /** Appending a new subject row and caching its key keeps the work state cached. */
  lemma AppendSubjectCached(w: Work, ns: Subject)
    requires Cached(w)
    requires ns.id !in SubjectIds(w.db.subjects) && ns.name !in SubjectNames(w.db.subjects)
    requires forall s | s in w.db.subjects :: s.slug != ns.slug
    ensures Cached(Work(w.db.(subjects := w.db.subjects + [ns]), w.subjectIds[ns.name := ns.id], w.actionIds))
  {
    var ss := w.db.subjects + [ns];
    assert ss[..|w.db.subjects|] == w.db.subjects;
    AppendSubjectValid(w.db, ns);
  }

  /** Appending a new action row and caching its key keeps the work state cached. */
  lemma AppendActionCached(w: Work, nx: Action)
    requires Cached(w)
    requires nx.id !in ActionIds(w.db.actions) && nx.name !in ActionNames(w.db.actions)
    ensures Cached(Work(w.db.(actions := w.db.actions + [nx]), w.subjectIds, w.actionIds[nx.name := nx.id]))
  {
    var xs := w.db.actions + [nx];
    assert xs[..|w.db.actions|] == w.db.actions;
    AppendActionValid(w.db, nx);
  }

  /** What resolving a subject establishes about the work state `w1` and the id `sid` it returns. */
  ghost predicate SubjectResolved(w: Work, name: string, rid: int, w1: Work, sid: Id) {
    && Cached(w1)
    && (exists s | s in w1.db.subjects :: s.id == sid && s.name == name)
    && SubjectNames(w1.db.subjects) == SubjectNames(w.db.subjects) + {name}
    && SlugsDerived(w1.db.subjects, |w.db.subjects|)
    && w1.db.grants == w.db.grants
    && GrantedNames(w1.db, rid) == GrantedNames(w.db, rid)
  }

  /** The catalog facts of appending a subject row: its name joins the names and its slug is derived. */
  lemma AppendSubjectCatalog(ss: seq<Subject>, name: string, id: Id)
    ensures Subject(id, name, Slug(name)) in ss + [Subject(id, name, Slug(name))]
    ensures SubjectNames(ss + [Subject(id, name, Slug(name))]) == SubjectNames(ss) + {name}
    ensures SlugsDerived(ss + [Subject(id, name, Slug(name))], |ss|)
  {
    var ns := Subject(id, name, Slug(name));
    assert (ss + [ns])[|ss|] == ns;
  }

  /** A name the name-keyed pluck lacks is the name of no row. */
  lemma UncachedIsNew(ss: seq<Subject>, name: string)
    requires name !in SubjectIdsByName(ss)
    ensures name !in SubjectNames(ss)
  {
    forall s | s in ss ensures s.name != name {
      var i :| 0 <= i < |ss| && ss[i] == s;
    }
  }

  /** A subject the caches lack, with a free slug, is appended and cached. */
  lemma NewSubjectCached(w: Work, name: string)
    requires Cached(w) && name !in w.subjectIds && !SlugTaken(w.db.subjects, Slug(name))
    ensures var ns := Subject(NextSubjectId(w.db.subjects), name, Slug(name));
      Cached(Work(w.db.(subjects := w.db.subjects + [ns]), w.subjectIds[name := ns.id], w.actionIds))
  {
    var ns := Subject(NextSubjectId(w.db.subjects), name, Slug(name));
    UncachedIsNew(w.db.subjects, name);
    AppendSubjectCached(w, ns);
  }

  /** Resolving a subject keeps the store valid and cached, adds its name to the catalog
      (with the derived slug when the row is new) and changes no role's grants. */
  lemma ResolveSubjectSpec(w: Work, name: string, rid: int)
    requires Cached(w)
    ensures var r := ResolveSubject(w, name);
      r.Ok? ==> SubjectResolved(w, name, rid, r.value.0, r.value.1)
  {
    var ss := w.db.subjects;
    if name in w.subjectIds {
      var j :| 0 <= j < |ss| && ss[j].name == name && ss[j].id == w.subjectIds[name];
      assert ss[j] in ss;
      assert SubjectNames(ss) == SubjectNames(ss) + {name};
    } else if !SlugTaken(ss, Slug(name)) {
      var id := NextSubjectId(ss);
      NewSubjectCached(w, name);
      AppendSubjectCatalog(ss, name, id);
      AppendSubjectKeepsNames(w.db, Subject(id, name, Slug(name)), rid);
    }
  }

  /** Resolving an action keeps the store valid and cached, adds its name to the catalog and
      changes no role's grants. */
  lemma ResolveActionSpec(w: Work, name: string, rid: int)
    requires Cached(w)
    ensures var r := ResolveAction(w, name);
      && Cached(r.0)
      && (exists x | x in r.0.db.actions :: x.id == r.1 && x.name == name)
      && ActionNames(r.0.db.actions) == ActionNames(w.db.actions) + {name}
      && GrantedNames(r.0.db, rid) == GrantedNames(w.db, rid)
  {
    var r := ResolveAction(w, name);
    var xs := w.db.actions;
    if name in w.actionIds {
      var j :| 0 <= j < |xs| && xs[j].name == name && xs[j].id == w.actionIds[name];
      assert xs[j] in r.0.db.actions;
    } else {
      ResolveNewAction(w, name, rid);
    }
  }

  /** An action name not yet cached: one row with a fresh key is appended and cached. */
  lemma ResolveNewAction(w: Work, name: string, rid: int)
    requires Cached(w) && name !in w.actionIds
    ensures var r := ResolveAction(w, name);
      && Cached(r.0)
      && (exists x | x in r.0.db.actions :: x.id == r.1 && x.name == name)
      && ActionNames(r.0.db.actions) == ActionNames(w.db.actions) + {name}
      && GrantedNames(r.0.db, rid) == GrantedNames(w.db, rid)
  {
    var xs := w.db.actions;
    var nx := Action(NextActionId(xs), name);
    assert ResolveAction(w, name) == (Work(w.db.(actions := xs + [nx]), w.subjectIds, w.actionIds[nx.name := nx.id]), nx.id);
    assert (xs + [nx])[|xs|] == nx;
    assert ActionNames(xs + [nx]) == ActionNames(xs) + {name};
    AppendActionCached(w, nx);
    AppendActionKeepsNames(w.db, nx, rid);
  }

  /** Granting one flagged action on subject `s` adds exactly (s.name, name) to the role,
      keeps the store valid and cached, and leaves the other roles' edges alone. */
  lemma GrantActionSpec(w: Work, rid: Id, s: Subject, name: string)
    requires Cached(w) && s in w.db.subjects
    ensures var r := GrantAction(w, rid, s.id, name);
      && Cached(r)
      && GrantedNames(r.db, rid) == GrantedNames(w.db, rid) + {(s.name, name)}
      && ActionNames(r.db.actions) == ActionNames(w.db.actions) + {name}
  {
    var (w1, aid) := ResolveAction(w, name);
    ResolveActionSpec(w, name, rid);
    var x :| x in w1.db.actions && x.id == aid && x.name == name;
    assert s.id in SubjectIds(w1.db.subjects);
    GrantPairValid(w1.db, rid, s.id, aid);
    GrantPairAdds(w1.db, rid, s.id, aid);
    NamesOfAdd(w1.db.subjects, w1.db.actions, GrantedPairs(w1.db, rid), s, x);
    assert w1.db.grants == w.db.grants;
  }

  lemma FlagNamesStep(subject: string, flags: seq<FlagValue>, i: nat)
    requires i < |flags|
    ensures FlagAction(flags, i).None? ==> FlagNames(subject, flags, i) == FlagNames(subject, flags, i + 1)
    ensures FlagAction(flags, i).None? ==> FlagActionNames(flags, i) == FlagActionNames(flags, i + 1)
    ensures FlagAction(flags, i).Some? ==>
      FlagNames(subject, flags, i) == {(subject, FlagAction(flags, i).value)} + FlagNames(subject, flags, i + 1)
    ensures FlagAction(flags, i).Some? ==>
      FlagActionNames(flags, i) == {FlagAction(flags, i).value} + FlagActionNames(flags, i + 1)
  {
  }

  lemma FlagNamesEnd(subject: string, flags: seq<FlagValue>)
    ensures FlagNames(subject, flags, |flags|) == {} && FlagActionNames(flags, |flags|) == {}
  {
  }

  /** Set algebra for a fold step: `a + b` then `+ c` is `a + (b + c)`. */
  lemma UnionStep<T>(a: set<T>, b: set<T>, c: set<T>, x: set<T>, y: set<T>, d: set<T>)
    requires x == a + b && y == x + c && d == b + c
    ensures y == a + d
  {
  }

  /** The flags of one entry, from position `i` on, add exactly the pairs they declare for
      subject `s`, create the actions they name, keep the store valid and cached, and leave
      the other roles' edges alone. */
  lemma {:induction false} GrantFlagsSpec(w: Work, rid: Id, s: Subject, flags: seq<FlagValue>, i: nat)
    requires Cached(w) && s in w.db.subjects && i <= |flags|
    ensures var r := GrantFlags(w, rid, s.id, flags, i);
      && Cached(r)
      && GrantedNames(r.db, rid) == GrantedNames(w.db, rid) + FlagNames(s.name, flags, i)
      && ActionNames(r.db.actions) == ActionNames(w.db.actions) + FlagActionNames(flags, i)
    decreases |flags| - i
  {
    if i == |flags| {
      FlagNamesEnd(s.name, flags);
    } else {
      var r := GrantFlags(w, rid, s.id, flags, i);
      FlagNamesStep(s.name, flags, i);
      match FlagAction(flags, i)
      case None =>
        assert r == GrantFlags(w, rid, s.id, flags, i + 1);
        GrantFlagsSpec(w, rid, s, flags, i + 1);
      case Some(name) =>
        var w1 := GrantAction(w, rid, s.id, name);
        assert r == GrantFlags(w1, rid, s.id, flags, i + 1);
        GrantActionSpec(w, rid, s, name);
        GrantFlagsSpec(w1, rid, s, flags, i + 1);
        UnionStep(GrantedNames(w.db, rid), {(s.name, name)}, FlagNames(s.name, flags, i + 1),
                  GrantedNames(w1.db, rid), GrantedNames(r.db, rid), FlagNames(s.name, flags, i));
        UnionStep(ActionNames(w.db.actions), {name}, FlagActionNames(flags, i + 1),
                  ActionNames(w1.db.actions), ActionNames(r.db.actions), FlagActionNames(flags, i));
    }
  }

  lemma SlugsDerivedTransitive(a: seq<Subject>, b: seq<Subject>, c: seq<Subject>)
    requires IsPrefix(a, b) && IsPrefix(b, c)
    requires SlugsDerived(b, |a|) && SlugsDerived(c, |b|)
    ensures SlugsDerived(c, |a|)
  {
    forall i | |a| <= i < |b| ensures c[i] == b[i] {
      assert c[..|b|][i] == c[i];
    }
  }

  /** The declared meaning of a request is its first entry's plus the rest's. */
  lemma EntriesStep(entries: seq<FlagEntry>)
    requires |entries| > 0
    ensures FlagPairs(entries) == FlagNames(entries[0].subject, entries[0].flags, 0) + FlagPairs(entries[1..])
    ensures DeclaredSubjects(entries) == {entries[0].subject} + DeclaredSubjects(entries[1..])
    ensures FlaggedActions(entries) == FlagActionNames(entries[0].flags, 0) + FlaggedActions(entries[1..])
  {
    var rest := entries[1..];
    forall x | x in FlagPairs(entries)
      ensures x in FlagNames(entries[0].subject, entries[0].flags, 0) + FlagPairs(rest)
    {
      var k, j :| 0 <= k < |entries| && 0 <= j < |entries[k].flags| && j < |ActionOrder|
        && entries[k].flags[j] == Bool(true) && x == (entries[k].subject, ActionOrder[j]);
      if k > 0 {
        assert rest[k - 1] == entries[k];
      }
    }
    forall x | x in FlagPairs(rest) ensures x in FlagPairs(entries) {
      var k, j :| 0 <= k < |rest| && 0 <= j < |rest[k].flags| && j < |ActionOrder|
        && rest[k].flags[j] == Bool(true) && x == (rest[k].subject, ActionOrder[j]);
      assert rest[k] == entries[k + 1];
    }
    forall x | x in DeclaredSubjects(entries) ensures x in {entries[0].subject} + DeclaredSubjects(rest) {
      var k :| 0 <= k < |entries| && x == entries[k].subject;
      if k > 0 {
        assert rest[k - 1] == entries[k];
      }
    }
    forall x | x in DeclaredSubjects(rest) ensures x in DeclaredSubjects(entries) {
      var k :| 0 <= k < |rest| && x == rest[k].subject;
      assert rest[k] == entries[k + 1];
    }
    forall x | x in FlaggedActions(entries)
      ensures x in FlagActionNames(entries[0].flags, 0) + FlaggedActions(rest)
    {
      var k, j :| 0 <= k < |entries| && 0 <= j < |entries[k].flags| && j < |ActionOrder|
        && entries[k].flags[j] == Bool(true) && x == ActionOrder[j];
      if k > 0 {
        assert rest[k - 1] == entries[k];
      }
    }
    forall x | x in FlaggedActions(rest) ensures x in FlaggedActions(entries) {
      var k, j :| 0 <= k < |rest| && 0 <= j < |rest[k].flags| && j < |ActionOrder|
        && rest[k].flags[j] == Bool(true) && x == ActionOrder[j];
      assert rest[k] == entries[k + 1];
    }
  }

  /** A successful run over the entries keeps the store valid and cached, grants the role exactly
      the pairs the request declares on top of what it held, and leaves other roles' edges alone. */
  lemma {:induction false} GrantFlagEntriesSpec(w: Work, rid: Id, entries: seq<FlagEntry>)
    requires Cached(w)
    ensures var r := GrantFlagEntries(w, rid, entries);
      r.Ok? ==>
        && Cached(r.value)
        && GrantedNames(r.value.db, rid) == GrantedNames(w.db, rid) + FlagPairs(entries)
    decreases |entries|
  {
    var r := GrantFlagEntries(w, rid, entries);
    if |entries| == 0 {
      assert FlagPairs(entries) == {};
    } else if r.Ok? {
      var e := entries[0];
      var (w1, sid) := ResolveSubject(w, e.subject).value;
      ResolveSubjectSpec(w, e.subject, rid);
      var sub :| sub in w1.db.subjects && sub.id == sid && sub.name == e.subject;
      var w2 := GrantFlags(w1, rid, sid, e.flags, 0);
      assert r == GrantFlagEntries(w2, rid, entries[1..]);
      GrantFlagsSpec(w1, rid, sub, e.flags, 0);
      GrantFlagEntriesSpec(w2, rid, entries[1..]);
      EntriesStep(entries);
      UnionStep(GrantedNames(w.db, rid), FlagNames(e.subject, e.flags, 0), FlagPairs(entries[1..]),
                GrantedNames(w2.db, rid), GrantedNames(r.value.db, rid), FlagPairs(entries));
    }
  }

  /** A successful run over the entries creates exactly the subjects and actions the request names
      that the catalog lacked, each new subject with the slug of its name. */
  lemma {:induction false} GrantFlagEntriesCatalog(w: Work, rid: Id, entries: seq<FlagEntry>)
    requires Cached(w)
    ensures var r := GrantFlagEntries(w, rid, entries);
      r.Ok? ==>
        && SubjectNames(r.value.db.subjects) == SubjectNames(w.db.subjects) + DeclaredSubjects(entries)
        && SlugsDerived(r.value.db.subjects, |w.db.subjects|)
        && ActionNames(r.value.db.actions) == ActionNames(w.db.actions) + FlaggedActions(entries)
    decreases |entries|
  {
    var r := GrantFlagEntries(w, rid, entries);
    if |entries| == 0 {
      assert DeclaredSubjects(entries) == {} && FlaggedActions(entries) == {};
    } else if r.Ok? {
      var e := entries[0];
      var (w1, sid) := ResolveSubject(w, e.subject).value;
      ResolveSubjectSpec(w, e.subject, rid);
      var sub :| sub in w1.db.subjects && sub.id == sid && sub.name == e.subject;
      var w2 := GrantFlags(w1, rid, sid, e.flags, 0);
      assert r == GrantFlagEntries(w2, rid, entries[1..]);
      GrantFlagsSpec(w1, rid, sub, e.flags, 0);
      GrantFlagEntriesCatalog(w2, rid, entries[1..]);
      EntriesStep(entries);
      UnionStep(SubjectNames(w.db.subjects), {e.subject}, DeclaredSubjects(entries[1..]),
                SubjectNames(w2.db.subjects), SubjectNames(r.value.db.subjects), DeclaredSubjects(entries));
      UnionStep(ActionNames(w.db.actions), FlagActionNames(e.flags, 0), FlaggedActions(entries[1..]),
                ActionNames(w2.db.actions), ActionNames(r.value.db.actions), FlaggedActions(entries));
      SlugsDerivedTransitive(w.db.subjects, w2.db.subjects, r.value.db.subjects);
    }
  }

  /** An entry whose subject the catalog has creates nothing, so it adds no slug clash. */
  lemma SlugsFreeKnownHead(ss: seq<Subject>, entries: seq<FlagEntry>)
    requires |entries| > 0 && entries[0].subject in SubjectNames(ss)
    ensures SlugsFree(ss, entries) <==> SlugsFree(ss, entries[1..])
  {
    var rest := entries[1..];
    assert forall k | 0 <= k < |rest| :: rest[k] == entries[k + 1];
    if SlugsFree(ss, rest) {
      forall k | 0 <= k < |entries| && entries[k].subject !in SubjectNames(ss)
        ensures forall k' | 0 <= k' < |entries| && entries[k'].subject !in SubjectNames(ss)
          && entries[k'].subject != entries[k].subject :: Slug(entries[k'].subject) != Slug(entries[k].subject)
      {
        assert rest[k - 1] == entries[k];
        forall k' | 0 <= k' < |entries| && entries[k'].subject !in SubjectNames(ss) && entries[k'].subject != entries[k].subject
          ensures Slug(entries[k'].subject) != Slug(entries[k].subject)
        {
          assert rest[k' - 1] == entries[k'];
        }
      }
      forall k | 0 <= k < |entries| && entries[k].subject !in SubjectNames(ss)
        ensures forall s | s in ss :: s.slug != Slug(entries[k].subject)
      {
        assert rest[k - 1] == entries[k];
      }
    }
  }

  /** A first entry whose subject is new and whose slug is taken clashes. */
  lemma SlugsFreeTakenHead(ss: seq<Subject>, entries: seq<FlagEntry>)
    requires |entries| > 0 && entries[0].subject !in SubjectNames(ss)
    requires SlugTaken(ss, Slug(entries[0].subject))
    ensures !SlugsFree(ss, entries)
  {
    var i :| 0 <= i < |ss| && ss[i].slug == Slug(entries[0].subject);
    assert ss[i] in ss;
  }

  /** A first entry whose subject is new and whose slug is free is created; the rest of the
      request is then free of clashes against the grown catalog exactly when the whole
      request was free of clashes against the old one. */
  lemma SlugsFreeNewHead(ss: seq<Subject>, entries: seq<FlagEntry>, ns: Subject)
    requires |entries| > 0 && ns.name == entries[0].subject && ns.slug == Slug(ns.name)
    requires ns.name !in SubjectNames(ss)
    requires forall s | s in ss :: s.slug != ns.slug
    ensures SlugsFree(ss, entries) <==> SlugsFree(ss + [ns], entries[1..])
  {
    var rest := entries[1..];
    var ss' := ss + [ns];
    assert SubjectNames(ss') == SubjectNames(ss) + {ns.name} by {
      assert ss'[|ss|] == ns;
    }
    assert forall s | s in ss' :: s in ss || s == ns;
    if SlugsFree(ss, entries) {
      forall k | 0 <= k < |rest| && rest[k].subject !in SubjectNames(ss')
        ensures forall s | s in ss' :: s.slug != Slug(rest[k].subject)
        ensures forall k' | 0 <= k' < |rest| && rest[k'].subject !in SubjectNames(ss')
          && rest[k'].subject != rest[k].subject :: Slug(rest[k'].subject) != Slug(rest[k].subject)
      {
        assert rest[k] == entries[k + 1];
        assert entries[0].subject != entries[k + 1].subject;
        forall k' | 0 <= k' < |rest| && rest[k'].subject !in SubjectNames(ss') && rest[k'].subject != rest[k].subject
          ensures Slug(rest[k'].subject) != Slug(rest[k].subject)
        {
          assert rest[k'] == entries[k' + 1];
        }
      }
    }
    if SlugsFree(ss', rest) {
      forall k | 0 <= k < |entries| && entries[k].subject !in SubjectNames(ss)
        ensures forall s | s in ss :: s.slug != Slug(entries[k].subject)
        ensures forall k' | 0 <= k' < |entries| && entries[k'].subject !in SubjectNames(ss)
          && entries[k'].subject != entries[k].subject :: Slug(entries[k'].subject) != Slug(entries[k].subject)
      {
        if entries[k].subject == ns.name {
          forall k' | 0 <= k' < |entries| && entries[k'].subject !in SubjectNames(ss) && entries[k'].subject != entries[k].subject
            ensures Slug(entries[k'].subject) != Slug(entries[k].subject)
          {
            assert rest[k' - 1] == entries[k'];
            assert ns in ss';
          }
        } else {
          assert rest[k - 1] == entries[k];
          forall s | s in ss ensures s.slug != Slug(entries[k].subject) {
            assert s in ss';
          }
          forall k' | 0 <= k' < |entries| && entries[k'].subject !in SubjectNames(ss) && entries[k'].subject != entries[k].subject
            ensures Slug(entries[k'].subject) != Slug(entries[k].subject)
          {
            if entries[k'].subject == ns.name {
              assert ns in ss';
            } else {
              assert rest[k' - 1] == entries[k'];
            }
          }
        }
      }
    }
  }

  /** The cached name map has a key exactly for the catalog's names. */
  lemma CachedNames(w: Work, name: string)
    requires Cached(w)
    ensures name in w.subjectIds <==> name in SubjectNames(w.db.subjects)
  {
    if name in SubjectNames(w.db.subjects) {
      var s :| s in w.db.subjects && s.name == name;
      var i :| 0 <= i < |w.db.subjects| && w.db.subjects[i] == s;
    } else {
      UncachedIsNew(w.db.subjects, name);
    }
  }

  /** The run over the entries is rolled back exactly when a subject it has to create
      clashes with the unique slug index. */
  lemma {:induction false} GrantFlagEntriesAborts(w: Work, rid: Id, entries: seq<FlagEntry>)
    requires Cached(w)
    ensures GrantFlagEntries(w, rid, entries).Err? <==> !SlugsFree(w.db.subjects, entries)
    decreases |entries|
  {
    if |entries| > 0 {
      var e := entries[0];
      var ss := w.db.subjects;
      CachedNames(w, e.subject);
      if e.subject in w.subjectIds {
        var sid := w.subjectIds[e.subject];
        ResolveSubjectSpec(w, e.subject, rid);
        var s :| s in ss && s.id == sid && s.name == e.subject;
        var w2 := GrantFlags(w, rid, sid, e.flags, 0);
        assert GrantFlagEntries(w, rid, entries) == GrantFlagEntries(w2, rid, entries[1..]);
        GrantFlagsSpec(w, rid, s, e.flags, 0);
        GrantFlagEntriesAborts(w2, rid, entries[1..]);
        SlugsFreeKnownHead(ss, entries);
      } else if SlugTaken(ss, Slug(e.subject)) {
        SlugsFreeTakenHead(ss, entries);
      } else {
        var (w1, sid) := ResolveSubject(w, e.subject).value;
        var ns := Subject(sid, e.subject, Slug(e.subject));
        assert w1.db.subjects == ss + [ns];
        ResolveSubjectSpec(w, e.subject, rid);
        var w2 := GrantFlags(w1, rid, sid, e.flags, 0);
        assert GrantFlagEntries(w, rid, entries) == GrantFlagEntries(w2, rid, entries[1..]);
        GrantFlagsSpec(w1, rid, ns, e.flags, 0);
        GrantFlagEntriesAborts(w2, rid, entries[1..]);
        assert forall x | x in ss :: x.slug != ns.slug;
        SlugsFreeNewHead(ss, entries, ns);
      }
    }
  }

  // ---------------------------------------------------------------------------
  // The endpoint.

  /** `storePermissionByIndex($request, $slug)` (lines 606-685). Returns the outcome and the
      committed state; every outcome but `Written` leaves the store as it was. */
  function StorePermissionByIndex(db: Db, slug: string, entries: seq<FlagEntry>): (r: (WriteOutcome, Db))
    ensures r.0 != Written ==> r.1 == db
    ensures r.0 == InvalidInput <==> !WellFormed(entries)
    ensures WellFormed(entries) && RoleBySlug(db.roles, slug).None? ==> r.0 == InvalidRole
    ensures r.0 == Written || r.0 == InvalidInput || r.0 == InvalidRole || r.0 == Aborted
    ensures r.0 != InvalidRole ==> r.0 == InvalidInput || RoleBySlug(db.roles, slug).Some?
    ensures r.1.users == db.users && r.1.roles == db.roles
    ensures r.0 == Written ==>
      var rid := RoleBySlug(db.roles, slug).value.id;
      && WithoutRole(r.1.grants, rid) == WithoutRole(db.grants, rid)
      && IsPrefix(db.subjects, r.1.subjects) && IsPrefix(db.actions, r.1.actions)
      && IsPrefix(db.permissions, r.1.permissions)
  {
    if !WellFormed(entries) then (InvalidInput, db)
    else match RoleBySlug(db.roles, slug)
      case None => (InvalidRole, db)
      case Some(role) =>
        var cleared := db.(grants := WithoutRole(db.grants, role.id));
        WithoutRoleTwice(db.grants, role.id);
        var w := Work(cleared, SubjectIdsByName(cleared.subjects), ActionIdsByName(cleared.actions));
        match GrantFlagEntries(w, role.id, entries)
        case Err(e) => (e, db)
        case Ok(next) => (Written, next.db)
  }

  /** A well-formed request for an existing role runs the entries on the role's cleared edges. */
  lemma StorePermissionByIndexRuns(db: Db, slug: string, entries: seq<FlagEntry>)
    requires WellFormed(entries) && RoleBySlug(db.roles, slug).Some?
    ensures var rid := RoleBySlug(db.roles, slug).value.id;
      var cleared := db.(grants := WithoutRole(db.grants, rid));
      var result := GrantFlagEntries(Work(cleared, SubjectIdsByName(db.subjects), ActionIdsByName(db.actions)), rid, entries);
      && (StorePermissionByIndex(db, slug, entries).0 == Written <==> result.Ok?)
      && (result.Ok? ==> StorePermissionByIndex(db, slug, entries).1 == result.value.db)
  {
  }

  /** The start of the transaction: the role's edges cleared, the caches preloaded. */
  lemma ClearedCached(db: Db, rid: Id)
    requires Valid(db)
    ensures var cleared := db.(grants := WithoutRole(db.grants, rid));
      && Cached(Work(cleared, SubjectIdsByName(db.subjects), ActionIdsByName(db.actions)))
      && GrantedNames(cleared, rid) == {}
  {
    ClearRoleSpec(db, rid);
  }

  /** A well-formed request for an existing role commits exactly when no subject it has to
      create clashes on its slug; otherwise it is rolled back. */
  lemma StorePermissionByIndexCommits(db: Db, slug: string, entries: seq<FlagEntry>)
    requires Valid(db) && WellFormed(entries) && RoleBySlug(db.roles, slug).Some?
    ensures StorePermissionByIndex(db, slug, entries).0 == Written <==> SlugsFree(db.subjects, entries)
    ensures StorePermissionByIndex(db, slug, entries).0 != Written ==> StorePermissionByIndex(db, slug, entries).0 == Aborted
  {
    var rid := RoleBySlug(db.roles, slug).value.id;
    var w := Work(db.(grants := WithoutRole(db.grants, rid)), SubjectIdsByName(db.subjects), ActionIdsByName(db.actions));
    StorePermissionByIndexRuns(db, slug, entries);
    ClearedCached(db, rid);
    GrantFlagEntriesAborts(w, rid, entries);
  }

  lemma EmptyUnion<T>(a: set<T>, b: set<T>, c: set<T>)
    requires a == {} && c == a + b
    ensures c == b
  {
  }

  /** The entries run on a valid store whose role edges were cleared grant exactly the flagged names. */
  lemma ClearedThenFlagged(db: Db, rid: Id, entries: seq<FlagEntry>)
    requires Valid(db)
    ensures var w := Work(db.(grants := WithoutRole(db.grants, rid)), SubjectIdsByName(db.subjects), ActionIdsByName(db.actions));
      var result := GrantFlagEntries(w, rid, entries);
      result.Ok? ==> Valid(result.value.db) && GrantedNames(result.value.db, rid) == FlagPairs(entries)
  {
    var cleared := db.(grants := WithoutRole(db.grants, rid));
    var w := Work(cleared, SubjectIdsByName(db.subjects), ActionIdsByName(db.actions));
    var result := GrantFlagEntries(w, rid, entries);
    if result.Ok? {
      ClearedCached(db, rid);
      GrantFlagEntriesSpec(w, rid, entries);
      EmptyUnion(GrantedNames(cleared, rid), FlagPairs(entries), GrantedNames(result.value.db, rid));
    }
  }

  /** Full replace by flags: after a committed request the role holds exactly the (subject, action)
      name pairs whose flag is `true`, whatever it held before, and the store is still valid. */
  lemma StorePermissionByIndexReplaces(db: Db, slug: string, entries: seq<FlagEntry>)
    requires Valid(db)
    requires StorePermissionByIndex(db, slug, entries).0 == Written
    ensures Valid(StorePermissionByIndex(db, slug, entries).1)
    ensures GrantedNames(StorePermissionByIndex(db, slug, entries).1, RoleBySlug(db.roles, slug).value.id) == FlagPairs(entries)
  {
    StorePermissionByIndexRuns(db, slug, entries);
    ClearedThenFlagged(db, RoleBySlug(db.roles, slug).value.id, entries);
  }

  /** Catalog growth: a committed request creates exactly the subjects and actions it names that the
      catalog lacked, each at most once (names stay unique), new subjects with the slug of their name. */
  lemma StorePermissionByIndexCatalog(db: Db, slug: string, entries: seq<FlagEntry>)
    requires Valid(db)
    requires StorePermissionByIndex(db, slug, entries).0 == Written
    ensures var r := StorePermissionByIndex(db, slug, entries).1;
      && SubjectNames(r.subjects) == SubjectNames(db.subjects) + DeclaredSubjects(entries)
      && ActionNames(r.actions) == ActionNames(db.actions) + FlaggedActions(entries)
      && SlugsDerived(r.subjects, |db.subjects|)
      && SubjectsUnique(r.subjects) && ActionsUnique(r.actions)
  {
    var rid := RoleBySlug(db.roles, slug).value.id;
    var cleared := db.(grants := WithoutRole(db.grants, rid));
    var w := Work(cleared, SubjectIdsByName(db.subjects), ActionIdsByName(db.actions));
    StorePermissionByIndexRuns(db, slug, entries);
    ClearedCached(db, rid);
    GrantFlagEntriesCatalog(w, rid, entries);
    GrantFlagEntriesSpec(w, rid, entries);
  }

  /** The edges of other roles are untouched by a committed request, and so are their pairs. */
  lemma StorePermissionByIndexKeepsOtherRoles(db: Db, slug: string, entries: seq<FlagEntry>, other: int)
    requires Valid(db)
    requires StorePermissionByIndex(db, slug, entries).0 == Written
    requires other != RoleBySlug(db.roles, slug).value.id
    ensures GrantedPairs(StorePermissionByIndex(db, slug, entries).1, other) == GrantedPairs(db, other)
  {
    StorePermissionByIndexReplaces(db, slug, entries);
    OtherRolesKeepPairs(db, StorePermissionByIndex(db, slug, entries).1, RoleBySlug(db.roles, slug).value.id, other);
  }

  /** Sending the same flags twice: the second call creates nothing, so it cannot clash, and leaves
      the role with the same names as the first. */
  lemma StorePermissionByIndexIdempotent(db: Db, slug: string, entries: seq<FlagEntry>)
    requires Valid(db)
    requires StorePermissionByIndex(db, slug, entries).0 == Written
    ensures var once := StorePermissionByIndex(db, slug, entries).1;
      var twice := StorePermissionByIndex(once, slug, entries);
      var rid := RoleBySlug(db.roles, slug).value.id;
      twice.0 == Written && GrantedNames(twice.1, rid) == GrantedNames(once, rid)
  {
    var once := StorePermissionByIndex(db, slug, entries).1;
    StorePermissionByIndexReplaces(db, slug, entries);
    StorePermissionByIndexCatalog(db, slug, entries);
    StorePermissionByIndexCommits(once, slug, entries);
    forall k | 0 <= k < |entries| ensures entries[k].subject in SubjectNames(once.subjects) {
      assert entries[k].subject in DeclaredSubjects(entries);
    }
    assert SlugsFree(once.subjects, entries);
    StorePermissionByIndexReplaces(once, slug, entries);
  }

  /** The mapping rule on the documented request: `[true, false, true, false]` grants exactly
      create and delete; 1 and "1" pass validation but grant nothing. */
  /** `required` on `permissions.*.subject` fails on a subject `trim` empties, with nothing written. */
  lemma StorePermissionByIndexRejectsBlank(db: Db, slug: string, entries: seq<FlagEntry>, k: nat)
    requires k < |entries| && Trim(entries[k].subject) == ""
    ensures StorePermissionByIndex(db, slug, entries) == (InvalidInput, db)
  {
    BlankIffTrimmedEmpty(entries[k].subject);
  }

  lemma FlagsExample()
    ensures FlagPairs([FlagEntry("Invoice", [Bool(true), Bool(false), Bool(true), Bool(false)])])
         == {("Invoice", "create"), ("Invoice", "delete")}
    ensures FlagPairs([FlagEntry("Invoice", [Int(1), Str("1"), Bool(false), Bool(true), Bool(true)])])
         == {("Invoice", "read")}
    ensures WellFormed([FlagEntry("Invoice", [Int(1), Str("1"), Bool(false), Bool(true), Bool(true)])])
  {
    var e1 := [FlagEntry("Invoice", [Bool(true), Bool(false), Bool(true), Bool(false)])];
    assert e1[0].flags[0] == Bool(true) && e1[0].flags[2] == Bool(true);
    assert ActionOrder[0] == "create" && ActionOrder[2] == "delete" && ActionOrder[3] == "read";
    var e2 := [FlagEntry("Invoice", [Int(1), Str("1"), Bool(false), Bool(true), Bool(true)])];
    assert e2[0].flags[3] == Bool(true);
    assert !IsTrimmed(e2[0].subject[0]);
  }
}
