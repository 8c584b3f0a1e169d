/** `getRolePermissionByslug`: a role's grants flattened to `"subjectSlug.action"` tokens,
    with the role looked up by name (as written) or by slug (as evidently intended). */
module RolePermissionTokens {
  import opened Common
  import opened Text
  import opened Schema
  import opened PermissionResolver

  /** `CONCAT_WS('.', subjects.slug, actions.name)`; neither column is null. */
  function Token(slug: string, action: string): string {
    slug + "." + action
  }

  /** A token names its subject slug and action again when neither holds a dot. */
  lemma TokenSplits(slug: string, action: string)
    requires '.' !in slug && '.' !in action
    ensures Split(Token(slug, action), '.') == [slug, action]
  {
    SplitJoin([slug, action], '.');
    assert Join([slug], '.') == slug;
    assert Join([slug, action], '.') == Token(slug, action);
  }

  /** Edge `g` belongs to a role whose slug is `slug`, joins, and yields the token `t`. */
  ghost predicate TokenOf(db: Db, slug: string, g: Grant, t: string) {
    && RoleById(db.roles, g.roleId).Some? && RoleById(db.roles, g.roleId).value.slug == slug
    && JoinRow(db, g).Some? && t == Token(JoinRow(db, g).value.0.slug, JoinRow(db, g).value.1.name)
  }

  /** The `permissions` column plucked from the join `user_permissions ⋈ user_roles ⋈ permissions
      ⋈ subjects ⋈ actions where user_roles.slug = slug`, from edge `i` on, in edge-table order. */
  function TokensFrom(db: Db, slug: string, i: nat): (r: seq<string>)
    requires i <= |db.grants|
    ensures forall t :: t in r <==> exists k | i <= k < |db.grants| :: TokenOf(db, slug, db.grants[k], t)
    decreases |db.grants| - i
  {
    if i == |db.grants| then []
    else
      var rest := TokensFrom(db, slug, i + 1);
      var g := db.grants[i];
      match (RoleById(db.roles, g.roleId), JoinRow(db, g))
      case (Some(role), Some((s, x))) => if role.slug == slug then [Token(s.slug, x.name)] + rest else rest
      case _ => rest
  }

  function Tokens(db: Db, slug: string): seq<string> {
    TokensFrom(db, slug, 0)
  }

  /** The tokens of everything granted to the roles whose slug is `slug`. */
  ghost function SlugTokens(db: Db, slug: string): set<string> {
    set role, s, x | role in db.roles && s in db.subjects && x in db.actions && role.slug == slug
      && Pair(s.id, x.id) in GrantedPairs(db, role.id) :: Token(s.slug, x.name)
  }

  /** Every plucked token is granted to a role with that slug. */
  lemma TokensSound(db: Db, slug: string)
    ensures forall t | t in Tokens(db, slug) :: t in SlugTokens(db, slug)
  {
    forall t | t in Tokens(db, slug) ensures t in SlugTokens(db, slug) {
      var k :| 0 <= k < |db.grants| && TokenOf(db, slug, db.grants[k], t);
      var g := db.grants[k];
      var role := RoleById(db.roles, g.roleId).value;
      var (s, x) := JoinRow(db, g).value;
      var p :| p in db.permissions && p.id == g.permissionId && p.subjectId == s.id && p.actionId == x.id;
      assert Pair(s.id, x.id) in GrantedPairs(db, role.id);
    }
  }

  /** In a valid store the edge of `role` with permission `p` on (s, x) yields its token. */
  lemma EdgeYieldsToken(db: Db, role: Role, g: Grant, p: Permission, s: Subject, x: Action)
    requires Valid(db) && role in db.roles && g in db.grants && g.roleId == role.id
    requires p in db.permissions && p.id == g.permissionId
    requires s in db.subjects && s.id == p.subjectId && x in db.actions && x.id == p.actionId
    ensures Token(s.slug, x.name) in Tokens(db, role.slug)
  {
    JoinRowOfValid(db, g, p, s, x);
    var found := RoleById(db.roles, g.roleId).value;
    var i :| 0 <= i < |db.roles| && db.roles[i] == role;
    var j :| 0 <= j < |db.roles| && db.roles[j] == found;
    assert i == j;
    var k :| 0 <= k < |db.grants| && db.grants[k] == g;
    assert TokenOf(db, role.slug, db.grants[k], Token(s.slug, x.name));
  }

  /** In a valid store every token granted to the slug's role is plucked. */
  lemma TokensComplete(db: Db, slug: string)
    requires Valid(db)
    ensures forall t | t in SlugTokens(db, slug) :: t in Tokens(db, slug)
  {
    forall t | t in SlugTokens(db, slug) ensures t in Tokens(db, slug) {
      var role, s, x :| role in db.roles && s in db.subjects && x in db.actions && role.slug == slug
        && Pair(s.id, x.id) in GrantedPairs(db, role.id) && t == Token(s.slug, x.name);
      var g, p :| g in db.grants && p in db.permissions && g.roleId == role.id && g.permissionId == p.id
        && Pair(s.id, x.id) == Pair(p.subjectId, p.actionId);
      EdgeYieldsToken(db, role, g, p, s, x);
    }
  }

  /** In a valid store the role with slug `slug` has no tokens exactly when it has no edges. */
  lemma TokensEmpty(db: Db, role: Role)
    requires Valid(db) && role in db.roles
    ensures |Tokens(db, role.slug)| == 0 <==> forall g | g in db.grants :: g.roleId != role.id
  {
    var ts := Tokens(db, role.slug);
    if exists g | g in db.grants :: g.roleId == role.id {
      var g :| g in db.grants && g.roleId == role.id;
      var p :| p in db.permissions && p.id == g.permissionId;
      var s :| s in db.subjects && s.id == p.subjectId;
      var x :| x in db.actions && x.id == p.actionId;
      EdgeYieldsToken(db, role, g, p, s, x);
      assert Token(s.slug, x.name) in ts;
    } else if |ts| > 0 {
      assert ts[0] in ts;
    }
  }

  // ---------------------------------------------------------------------------
  // The endpoint.

  /** The three responses, in the order the endpoint checks for them. */
  datatype SlugLookup =
    | RoleNotFound(arg: string)                    // "roles no found", data = the argument
    | NoPermissions(name: string)                  // permissions null
    | Permissions(name: string, tokens: seq<string>)

  /** `getRolePermissionByslug` as written (UserPermissionController.php lines 489-526): the
      tokens are those of the role whose slug is the argument, but the role is looked up by
      name, and the reported name is that of the role whose name is the argument. */
  function RolePermissionsBySlug(db: Db, arg: string): (r: SlugLookup)
    ensures r.RoleNotFound? <==> RoleByName(db.roles, arg).None?
    ensures r.RoleNotFound? ==> r.arg == arg
    ensures !r.RoleNotFound? ==> r.name == arg
    ensures r.NoPermissions? ==> |Tokens(db, arg)| == 0
    ensures r.Permissions? ==> |r.tokens| > 0
  {
    var tokens := Tokens(db, arg);
    match RoleByName(db.roles, arg)
    case None => RoleNotFound(arg)
    case Some(role) => if |tokens| == 0 then NoPermissions(role.name) else Permissions(role.name, tokens)
  }

  /** As written, in a valid store: the tokens reported are exactly those granted to the role
      whose slug is the argument. */
  lemma RolePermissionsBySlugTokens(db: Db, arg: string)
    requires Valid(db)
    ensures var r := RolePermissionsBySlug(db, arg);
      r.Permissions? ==> forall t :: t in r.tokens <==> t in SlugTokens(db, arg)
  {
    TokensSound(db, arg);
    TokensComplete(db, arg);
  }

  /** As written, in a valid store: "no permissions" means some role is named by the argument
      and nothing is granted to a role whose slug is the argument. */
  lemma RolePermissionsBySlugEmpty(db: Db, arg: string)
    requires Valid(db)
    ensures RolePermissionsBySlug(db, arg).NoPermissions? <==>
      RoleByName(db.roles, arg).Some? && forall t :: t !in SlugTokens(db, arg)
  {
    var ts := Tokens(db, arg);
    TokensComplete(db, arg);
    if |ts| > 0 {
      TokensSound(db, arg);
      assert ts[0] in SlugTokens(db, arg);
    }
  }

  /** The roles table, grants and catalog of the counterexample: role 3 is named "Sales Manager"
      with slug "salesmanager" and holds create on Invoice. */
  function SalesDb(): Db {
    Db([], [Role(3, "Sales Manager", "salesmanager")], [Subject(1, "Invoice", "invoice")],
       [Action(1, "create")], [Permission(1, 1, 1)], [Grant(3, 1)])
  }

  /** As written, asking by the slug reports that the role does not exist, although the role
      holds "invoice.create"; asking by the name finds the role but none of its grants. */
  lemma RolePermissionsBySlugMisses()
    ensures Valid(SalesDb())
    ensures "invoice.create" in SlugTokens(SalesDb(), "salesmanager")
    ensures RolePermissionsBySlug(SalesDb(), "salesmanager") == RoleNotFound("salesmanager")
    ensures RolePermissionsBySlug(SalesDb(), "Sales Manager") == NoPermissions("Sales Manager")
  {
    var db := SalesDb();
    assert JoinRow(db, db.grants[0]) == Some((db.subjects[0], db.actions[0]));
    assert RoleById(db.roles, 3) == Some(db.roles[0]);
    assert TokensFrom(db, "salesmanager", 1) == [];
    assert Token("invoice", "create") == "invoice.create";
    assert TokensFrom(db, "salesmanager", 0) == [Token("invoice", "create")] + TokensFrom(db, "salesmanager", 1);
    assert Tokens(db, "salesmanager") == ["invoice.create"];
    assert Tokens(db, "Sales Manager") == [];
    assert Pair(1, 1) in GrantedPairs(db, 3) by {
      assert db.grants[0] in db.grants && db.permissions[0] in db.permissions;
    }
    assert Token("invoice", "create") == "invoice.create";
    assert db.roles[0] in db.roles && db.subjects[0] in db.subjects && db.actions[0] in db.actions;
  }

  /** `getRolePermissionByslug` with the existence test on the slug, which the route parameter
      and the token filter both use. */
  function RolePermissionsBySlugFixed(db: Db, slug: string): (r: SlugLookup)
    ensures r.RoleNotFound? <==> RoleBySlug(db.roles, slug).None?
    ensures r.RoleNotFound? ==> r.arg == slug
    ensures !r.RoleNotFound? ==> r.name == RoleBySlug(db.roles, slug).value.name
  {
    var tokens := Tokens(db, slug);
    match RoleBySlug(db.roles, slug)
    case None => RoleNotFound(slug)
    case Some(role) => if |tokens| == 0 then NoPermissions(role.name) else Permissions(role.name, tokens)
  }

  /** With the slug test, in a valid store: a role exists for every answer but "not found", the
      tokens are exactly those granted to it, and "no permissions" means it has no edges. */
  lemma RolePermissionsBySlugFixedExact(db: Db, slug: string)
    requires Valid(db)
    ensures var r := RolePermissionsBySlugFixed(db, slug);
      && (r.Permissions? ==> forall t :: t in r.tokens <==> t in SlugTokens(db, slug))
      && (r.NoPermissions? <==>
            RoleBySlug(db.roles, slug).Some? && forall g | g in db.grants :: g.roleId != RoleBySlug(db.roles, slug).value.id)
  {
    TokensSound(db, slug);
    TokensComplete(db, slug);
    if RoleBySlug(db.roles, slug).Some? {
      TokensEmpty(db, RoleBySlug(db.roles, slug).value);
    }
  }

  /** The corrected endpoint answers the counterexample: one token, "invoice.create". */
  lemma RolePermissionsBySlugFixedFinds()
    ensures RolePermissionsBySlugFixed(SalesDb(), "salesmanager") == Permissions("Sales Manager", ["invoice.create"])
  {
    var db := SalesDb();
    assert JoinRow(db, db.grants[0]) == Some((db.subjects[0], db.actions[0]));
    assert RoleById(db.roles, 3) == Some(db.roles[0]);
    assert TokensFrom(db, "salesmanager", 1) == [];
    assert Token("invoice", "create") == "invoice.create";
    assert TokensFrom(db, "salesmanager", 0) == [Token("invoice", "create")] + TokensFrom(db, "salesmanager", 1);
    assert Tokens(db, "salesmanager") == ["invoice.create"];
  }
}
