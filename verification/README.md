# Role-based permissions of the hireplus backend, in Dafny

This project models the permission logic of the Laravel back end of hireplus. A role holds a set of
permissions. A permission is a (subject, action) pair: a subject is a protected resource such as
"Purchase Order", and an action is a verb such as `create`. The model covers:

- the two writers that replace a role's permissions;
- the role lifecycle: listing, creation, renaming and the deletion cascade;
- the resolvers that turn a role's permissions into the login capability and the
  `"subjectSlug.action"` token list;
- the slug normaliser, and username derivation with its numeric disambiguation.

The six tables (`users`, `user_roles`, `subjects`, `actions`, `permissions`, `user_permissions`) are
sequences of rows in insertion order (`Schema.Db`). A lookup returns the first matching row, as
`->value('id')`, `->first()` and `find` do. `pluck('id', key)` is a map in which a later row
overwrites an earlier one.

`Schema.Valid` states the keys, the unique indexes and the references a committed store has:

- one row per id;
- unique role names and slugs, and unique subject names and slugs;
- unique action names;
- one permission row per (subject, action);
- one edge per (role, permission);
- every permission names catalog rows, and every edge names a permission.

Every controller action is a pure function from a store and a request to an outcome and a store. A
transaction is all or nothing: every outcome but success returns the store it was given.

Modules, following the two controllers:

- `Common`, `Text`: `Option`/`Result`, de-duplication, and the normaliser
  `strtolower(preg_replace('/\s+/', '', x))` (`Text.Slug`). Also PHP decimal rendering, `GROUP_CONCAT`
  (`Text.Join`) and `explode` (`Text.Split`).
- `Schema`: rows, lookups (one first-match function, `FirstWith`, behind every `find`), plucks, fresh
  keys (one function, `FreshKey`, for every auto-increment), `Valid`. It also defines the grant views:
  - `GrantedPairs(db, rid)`, the (subject id, action id) pairs of role `rid`;
  - `GrantedNames(db, rid)`, the same pairs as (subject name, action name).
- `GrantStep`: find-or-create of a permission row and `insertOrIgnore` of the edge, shared by both
  writers.
- `StrictWriter`: `storePermission`. The subject map is plucked by slug but indexed with the
  submitted name, so a subject is found only when it is submitted under its slug
  (`StorePermissionMatchesSlugs`). An unknown name returns 404 inside the open transaction without
  reaching `DB::commit()`. This is modelled as "nothing committed".
- `FlagsWriter`: `storePermissionByIndex`. Flag `i` grants `['create','update','delete','read'][i]`
  only when it is exactly `true`. Missing subjects (with the slug of their name) and missing actions
  are created and cached by name. Creating a subject whose slug another subject already has makes
  the unique slug index throw, so the transaction rolls back (`Aborted`).
- `PermissionResolver`: the join of edges with permissions, subjects and actions. It covers:
  - `groupBy('subjects.name')` with `GROUP_CONCAT(actions.name)`;
  - `explode(',')` on both columns;
  - `login` and `getUserPermissionByid`.
- `RolePermissionTokens`: `getRolePermissionByslug`, as written and corrected (see Findings).
- `RoleLifecycle`: `getRoles`' reserved-role filter, `createRoles`, `updateRoles`, and `deleteRoles`
  as written and guarded (see Findings).
- `Registration`: `register`'s username derivation, the disambiguation loop (a method with loop
  invariants) and the new user row.

## Model

| member | source | states |
|---|---|---|
| Text.Slug | app/Http/Controllers/Api/UserPermissionController.php:237 | the slug of a name has no whitespace and no upper-case letter, and is never longer than the name |
| Text.SlugIdempotent | app/Http/Controllers/Api/UserPermissionController.php:279 | taking the slug of a slug changes nothing |
| Text.SlugFixedPoint | app/Http/Controllers/Api/UserPermissionController.php:557 | a string is its own slug exactly when it has no whitespace and no upper-case letter |
| Text.SlugAppend | app/Http/Controllers/Api/UserPermissionController.php:634 | the slug of a concatenation is the concatenation of the slugs |
| Text.SplitJoin | app/Http/Controllers/Api/AuthController.php:101-104 | `explode(',')` of a `GROUP_CONCAT` of a non-empty list whose items hold no comma gives back the list |
| Text.BlankIffTrimmedEmpty | app/Http/Controllers/Api/UserPermissionController.php:225 | a string is blank (only the characters PHP's `trim` strips) exactly when trimming leaves nothing, which is the case Laravel's `required` rejects |
| Schema.FirstWith | app/Http/Controllers/Api/UserPermissionController.php:311 | the lookup misses exactly when no row has the key; a hit is a row of the table carrying the key |
| Schema.FreshKey | app/Http/Controllers/Api/UserPermissionController.php:241 | the new auto-increment key is above every key in the table |
| Text.NatToStringInjective | app/Http/Controllers/Api/AuthController.php:38 | different counters render to different suffixes |
| Common.Dedup | app/Http/Controllers/Api/UserPermissionController.php:567 | `array_unique` keeps every element, introduces none and leaves no repeat |
| Schema.WithoutRole | app/Http/Controllers/Api/UserPermissionController.php:548 | deleting a role's edges keeps exactly the edges of the other roles, with no new repeats |
| GrantStep.ClearRoleSpec | app/Http/Controllers/Api/UserPermissionController.php:623 | after the delete the role holds no pair and the store is still valid |
| GrantStep.InsertOrIgnore | app/Http/Controllers/Api/UserPermissionController.php:589-592 | the edge table afterwards holds the old edges plus the new one, never a repeat, and only grows |
| GrantStep.FindOrCreatePermission | app/Http/Controllers/Api/UserPermissionController.php:577-587 | an existing (subject, action) row is reused with the table unchanged; otherwise one row with a fresh key is appended |
| GrantStep.FindOrCreateSpec | app/Http/Controllers/Api/UserPermissionController.php:658-668 | find-or-create keeps permission keys and (subject, action) pairs unique and adds only the row for the pair |
| GrantStep.GrantPairValid | app/Http/Controllers/Api/UserPermissionController.php:577-592 | granting a catalog pair keeps the store valid |
| GrantStep.GrantPairAdds | app/Http/Controllers/Api/UserPermissionController.php:577-592 | granting a pair adds exactly that pair to the role, even when it was already held |
| GrantStep.GrantPairKeepsOthers | app/Http/Controllers/Api/UserPermissionController.php:589-592 | granting to one role leaves every other role's edges as they were |
| GrantStep.OtherRolesKeepPairs | app/Http/Controllers/Api/UserPermissionController.php:670-673 | with other roles' edges unchanged and permissions only appended, every other role keeps exactly its pairs |
| StrictWriter.GrantEntries | app/Http/Controllers/Api/UserPermissionController.php:555-594 | the loop succeeds exactly when every subject and action is a key of its preloaded map; a failure names a submitted subject or action missing from its map; success changes no catalog table and no other role's edges |
| StrictWriter.GrantEntriesSpec | app/Http/Controllers/Api/UserPermissionController.php:555-594 | a successful loop keeps the store valid and adds exactly the declared pairs to the role |
| StrictWriter.StorePermission | app/Http/Controllers/Api/UserPermissionController.php:529-603 | outcomes: 422 on bad input (no entries, a blank subject or an empty action list); 400 for an unknown role slug, before the transaction; 404 for a subject not keyed by slug or an unknown action. Nothing changes unless the call commits. It commits exactly when the input is valid, the role exists and every name is known. No subject or action row is ever created. |
| StrictWriter.StorePermissionReplaces | app/Http/Controllers/Api/UserPermissionController.php:548-596 | after a commit the role holds exactly the declared pairs, whatever it held before, and the store stays valid (no duplicate permission row or edge) |
| StrictWriter.StorePermissionKeepsOtherRoles | app/Http/Controllers/Api/UserPermissionController.php:589-592 | every other role keeps exactly its pairs |
| StrictWriter.StorePermissionIdempotent | app/Http/Controllers/Api/UserPermissionController.php:529-603 | writing the same declaration twice has the same outcome and leaves the same pairs |
| StrictWriter.StorePermissionRejectsBlank | app/Http/Controllers/Api/UserPermissionController.php:531-536 | an entry whose subject is empty or only whitespace fails validation, with nothing changed |
| StrictWriter.StorePermissionMatchesSlugs | app/Http/Controllers/Api/UserPermissionController.php:550-564 | a subject submitted by display name is unknown (404) |
| StrictWriter.StorePermissionWritesBySlug | app/Http/Controllers/Api/UserPermissionController.php:550-564 | the same subject submitted by slug is written |
| FlagsWriter.ResolveSubject | app/Http/Controllers/Api/UserPermissionController.php:633-640 | a cached name reuses its id; otherwise a subject row is appended and cached, or the call aborts when the name's slug is taken |
| FlagsWriter.ResolveAction | app/Http/Controllers/Api/UserPermissionController.php:651-656 | the action is looked up in the cache or appended and cached; nothing else changes |
| FlagsWriter.GrantFlagsSpec | app/Http/Controllers/Api/UserPermissionController.php:642-674 | the flags of one entry grant the subject exactly the actions whose flag is `true` at a position the action order covers |
| FlagsWriter.GrantFlagEntriesSpec | app/Http/Controllers/Api/UserPermissionController.php:632-676 | the entries loop keeps the store valid and caches consistent and adds exactly the flagged name pairs |
| FlagsWriter.StorePermissionByIndexRejectsBlank | app/Http/Controllers/Api/UserPermissionController.php:607-612 | an entry whose subject is empty or only whitespace fails validation, with nothing changed |
| FlagsWriter.StorePermissionByIndex | app/Http/Controllers/Api/UserPermissionController.php:606-685 | outcomes: invalid input (no entries, a blank subject or an empty flag list), 400 for an unknown role slug before any transaction, a rollback, or a commit. Every failure leaves the store unchanged. A commit changes no user, role or other role's edge, and only appends to subjects, actions and permissions. |
| FlagsWriter.StorePermissionByIndexCommits | app/Http/Controllers/Api/UserPermissionController.php:632-640 | for a valid request on an existing role, the call commits exactly when no subject it must create clashes on its slug, and rolls back otherwise |
| FlagsWriter.StorePermissionByIndexReplaces | app/Http/Controllers/Api/UserPermissionController.php:623-675 | after a commit the role holds exactly the name pairs flagged `true`, whatever it held before, and the store stays valid |
| FlagsWriter.StorePermissionByIndexCatalog | app/Http/Controllers/Api/UserPermissionController.php:635-656 | subject names grow by exactly the declared subjects and action names by exactly the flagged actions; new subjects carry the slug of their name; names stay unique (each created once) |
| FlagsWriter.StorePermissionByIndexKeepsOtherRoles | app/Http/Controllers/Api/UserPermissionController.php:670-673 | every other role keeps exactly its pairs |
| FlagsWriter.StorePermissionByIndexIdempotent | app/Http/Controllers/Api/UserPermissionController.php:606-685 | re-sending the same flags commits again and leaves the same names |
| FlagsWriter.FlagsExample | app/Http/Controllers/Api/UserPermissionController.php:630-649 | `[true,false,true,false]` grants exactly create and delete; `[1,"1",false,true,true]` passes validation and grants only read, since `1` and `"1"` are not `true` and the fifth flag has no action |
| PermissionResolver.JoinRowOfValid | app/Http/Controllers/Api/AuthController.php:88-91 | in a valid store an edge joins with exactly the subject and action its permission names |
| PermissionResolver.NameRowsSound | app/Http/Controllers/Api/AuthController.php:88-96 | every row of the join is a name pair granted to the role |
| PermissionResolver.NameRowsComplete | app/Http/Controllers/Api/AuthController.php:88-96 | in a valid store every name pair granted to the role is a row of the join |
| PermissionResolver.NameRowsEmpty | app/Http/Controllers/Api/AuthController.php:96 | in a valid store the join is empty exactly when the role has no edge |
| PermissionResolver.NameRowsFromDistinct | app/Http/Controllers/Api/AuthController.php:88-97 | in a valid store the join never yields the same (subject, action) row twice |
| PermissionResolver.ActionsOfDistinct | app/Http/Controllers/Api/AuthController.php:93-97 | distinct rows give a group with no repeated action |
| PermissionResolver.GroupBySubject | app/Http/Controllers/Api/AuthController.php:94-97 | one group per distinct subject name, covering every row; each group is non-empty and holds exactly that subject's actions |
| PermissionResolver.EntryIsGroup | app/Http/Controllers/Api/AuthController.php:101-104 | with comma-free names, each exploded entry is its group: a one-name subject list and the group's actions |
| PermissionResolver.CapabilityOfRows | app/Http/Controllers/Api/AuthController.php:92-104 | the capability of comma-free rows has one entry per subject, distinct subjects, and exactly that subject's actions. Every entry holds at least one action, and none twice when the rows are distinct. |
| PermissionResolver.CapabilityExact | app/Http/Controllers/Api/AuthController.php:88-104 | in a valid, comma-free store the capability has one entry per subject the role holds and no other. Each entry's actions are exactly the actions granted to the role on it, at least one and none twice. |
| PermissionResolver.CapabilityOfEmpty | app/Http/Controllers/Api/AuthController.php:98 | the capability is empty exactly when the join is |
| PermissionResolver.LoginOutcome | app/Http/Controllers/Api/AuthController.php:107-113 | login fails exactly when no role has the user's position, and otherwise reports that role's name as the position |
| PermissionResolver.LoginCapability | app/Http/Controllers/Api/AuthController.php:88-105 | a user whose position is a role logs in with that role's capability only. It has one entry per held subject and no other, exactly the granted actions with none twice, and is empty rather than an error for a role with no edges. |
| PermissionResolver.UserRowsAreRoleRows | app/Http/Controllers/Api/UserPermissionController.php:460-467 | joining through `users.position` yields the rows of the user's position, and none for an unknown user |
| PermissionResolver.UserPermissions | app/Http/Controllers/Api/UserPermissionController.php:459-487 | an unknown user has no capability; a known user has that of their position |
| PermissionResolver.UserPermissionsMatchLogin | app/Http/Controllers/Api/UserPermissionController.php:459-487 | with keyed users, the user-id endpoint returns the capability login returns |
| RolePermissionTokens.TokenSplits | app/Http/Controllers/Api/UserPermissionController.php:495 | a token splits back into subject slug and action name when neither holds a dot |
| RolePermissionTokens.TokensSound | app/Http/Controllers/Api/UserPermissionController.php:490-499 | every token is `slug.action` of a pair granted to a role with that slug |
| RolePermissionTokens.TokensComplete | app/Http/Controllers/Api/UserPermissionController.php:490-499 | in a valid store every such token is listed |
| RolePermissionTokens.TokensEmpty | app/Http/Controllers/Api/UserPermissionController.php:515-520 | in a valid store a role has no tokens exactly when it has no edge |
| RolePermissionTokens.RolePermissionsBySlug | app/Http/Controllers/Api/UserPermissionController.php:489-527 | as written: "roles no found" exactly when no role is named by the argument; otherwise the name reported is the argument, and `null` permissions mean no token |
| RolePermissionTokens.RolePermissionsBySlugTokens | app/Http/Controllers/Api/UserPermissionController.php:490-499 | as written, the reported tokens are exactly those granted to the role whose slug is the argument |
| RolePermissionTokens.RolePermissionsBySlugEmpty | app/Http/Controllers/Api/UserPermissionController.php:502-520 | as written, `null` permissions exactly when a role is named by the argument and nothing is granted under that slug |
| RolePermissionTokens.RolePermissionsBySlugMisses | app/Http/Controllers/Api/UserPermissionController.php:502-513 | counterexample: the slug of a role with grants is reported as not found, and its name as having no permissions |
| RolePermissionTokens.RolePermissionsBySlugFixed | app/Http/Controllers/Api/UserPermissionController.php:489-527 | corrected: "not found" exactly when no role has the slug; otherwise the name reported is that role's |
| RolePermissionTokens.RolePermissionsBySlugFixedExact | app/Http/Controllers/Api/UserPermissionController.php:489-527 | corrected, in a valid store: the tokens are exactly those granted to the slug's role, and `null` exactly when it has no edge |
| RolePermissionTokens.RolePermissionsBySlugFixedFinds | app/Http/Controllers/Api/UserPermissionController.php:489-527 | corrected, the counterexample role with create on Invoice yields `["invoice.create"]` |
| RoleLifecycle.ListRoles | app/Http/Controllers/Api/UserPermissionController.php:168-170 | a role is listed exactly when it is in the table and not named "Administrator" or "User" |
| RoleLifecycle.ListRolesKeepsUnreserved | app/Http/Controllers/Api/UserPermissionController.php:168-170 | a table without reserved roles is listed whole, in order |
| RoleLifecycle.ListRolesIdempotent | app/Http/Controllers/Api/UserPermissionController.php:168-170 | filtering a listing again changes nothing |
| RoleLifecycle.CreateRole | app/Http/Controllers/Api/UserPermissionController.php:223-255 | invalid exactly when the name is blank (empty or only whitespace), over 255 characters or taken. A valid name whose slug is taken is refused by the store with nothing written. Otherwise one role is appended with that name, a normalised slug and a fresh id. |
| RoleLifecycle.BlankNameRejected | app/Http/Controllers/Api/UserPermissionController.php:224-233 | a name that trimming empties is refused by create and, for an existing role, by update, with nothing changed |
| RoleLifecycle.CreateRoleFound | app/Http/Controllers/Api/UserPermissionController.php:237-242 | the created role is found again by its name and by the slug of its name, and the store stays valid |
| RoleLifecycle.UpdateRole | app/Http/Controllers/Api/UserPermissionController.php:257-300 | 404 exactly when no role has the id, and 400 exactly when the role exists but the name fails its rules (blank, or over 255 characters). A name or slug held by another role is refused by the store. An update changing nothing is "Failed to update role". Every failure leaves the store unchanged. |
| RoleLifecycle.UpdateRoleRenames | app/Http/Controllers/Api/UserPermissionController.php:279-293 | the renamed role carries the name and its slug, other roles are untouched, the store stays valid, and the same rename again is the unaffected update |
| RoleLifecycle.RemoveRoleUnique | app/Http/Controllers/Api/UserPermissionController.php:325 | deleting role rows keeps the role table keyed |
| RoleLifecycle.DeleteRole | app/Http/Controllers/Api/UserPermissionController.php:302-351 | 400 exactly for a non-numeric id, 404 exactly when no role has it, and rollback exactly when the store fails. Every failure leaves the store unchanged. |
| RoleLifecycle.DeleteRoleEffects | app/Http/Controllers/Api/UserPermissionController.php:325-338 | on success the role is gone, its users hold the default position, its edges are gone, and everything else is as it was |
| RoleLifecycle.CascadeValid | app/Http/Controllers/Api/UserPermissionController.php:321-338 | the committed cascade keeps the store valid |
| RoleLifecycle.DeleteRoleStrandsUsers | app/Http/Controllers/Api/UserPermissionController.php:331-333 | counterexample: deleting the default role commits and leaves its users on a position no role has |
| RoleLifecycle.DeleteRoleGuarded | app/Http/Controllers/Api/UserPermissionController.php:302-351 | corrected: additionally refuses, with nothing changed, to delete the default role or to move users to a missing default role |
| RoleLifecycle.DeleteRoleGuardedKeepsPositions | app/Http/Controllers/Api/UserPermissionController.php:331-333 | corrected: every user's position still names a role, and the store stays valid |
| Registration.BaseUsername | app/Http/Controllers/Api/AuthController.php:33 | the base username has no whitespace and no upper-case letter |
| Registration.BaseUsernameParts | app/Http/Controllers/Api/AuthController.php:33 | the base is the slug of the first name, an underscore, and the slug of the last name |
| Registration.CandidateInjective | app/Http/Controllers/Api/AuthController.php:38 | different attempts try different names |
| Registration.TriedSize | app/Http/Controllers/Api/AuthController.php:37-40 | after `k` attempts, `k` distinct names have been tried |
| Registration.ChooseUsername | app/Http/Controllers/Api/AuthController.php:35-40 | the loop ends for any finite set of taken names. Its result is free. It is the base when the base is free, and otherwise the base followed by the smallest counter that makes it free. |
| Registration.DisambiguatedUnique | app/Http/Controllers/Api/AuthController.php:35-40 | that name is unique |
| Registration.JaneDoeBase | app/Http/Controllers/Api/AuthController.php:33 | Jane Doe's base username is `jane_doe` |
| Registration.JaneDoeExample | app/Http/Controllers/Api/AuthController.php:35-40 | `jane_doe` taken gives `jane_doe1`; nothing taken gives `jane_doe` |
| Registration.BlankFieldRejected | app/Http/Controllers/Api/AuthController.php:16-22 | a first name, last name, email or password that trimming empties fails validation |
| Registration.Register | app/Http/Controllers/Api/AuthController.php:14-58 | invalid exactly when a rule fails (a blank field, a field over 255 characters, a password under 8 characters, an email some user has), with nothing written. Otherwise one user is appended, with a fresh id, the request's fields and the disambiguated username. A valid store stays valid. |

## Left out

- Laravel validation is modelled only through the rules' conditions. A `required` string is one that
  PHP's `trim` does not empty (`Text.Blank`); a `required` list is a non-empty one. The `email` format
  rule, the `TrimStrings` middleware (which would also trim the stored values) and response shapes
  and messages are left out. HTTP status codes appear only as outcome kinds. Lengths count
  characters.
- `Auth::attempt`, `bcrypt`, `createToken` and `logout`'s token revocation are foreign library calls.
  `Login` starts from the user `Auth::user()` returns; the password is not part of the model.
- Search, sorting and pagination in `getRoles`, plain user CRUD, `getRolesByid`, `getSubject`,
  `getAllPermission` and `getAllUserPermissions` have no invariant of interest and are not modelled.
- app/Models/OtherIncome.php (date formatting) is not part of this model.
- Concurrency, isolation levels and what the driver does with a transaction left open by an early
  return are not modelled. A transaction either commits or keeps the old state.
- `config('roles.default_position', 2)` is the parameter `defaultPosition`.
- The position `register` accepts is any integer (`required|integer`). It need not name a role, so
  such a user fails at login (`LoginOutcome`); the model keeps this behaviour.
- RoleLifecycle.ListRoles: names are compared exactly. A case-insensitive column collation, which
  would also hide "administrator", is not modelled.
- RoleLifecycle.DeleteRole: `is_numeric` and MySQL's numeric comparison are abstracted.
  - The route segment arrives as `Numeric(value)` or `NonNumeric`.
  - `fault` stands for an exception at any step inside the transaction. All of them roll back the
    same way, so the failing step is not named.
  - A zero-row delete cannot happen after `find` succeeded in a sequential store.
- RoleLifecycle.UpdateRole: the route id is an integer. MySQL's coercion of a non-numeric id string
  is not modelled.
- RoleLifecycle.CreateRole: names and slugs are compared exactly, in the `unique:user_roles,name`
  rule and in the unique indexes. A case-insensitive MySQL collation, under which "Sales" and "sales"
  clash, is not modelled.
- RoleLifecycle.UpdateRole: the unique indexes compare names and slugs exactly; a case-insensitive
  collation is not modelled.
- RoleLifecycle.CreateRole: only the name and the slug are inserted. Any other request field that
  `$request->all()` would also pass to the insert is left out.
- PermissionResolver.UserPermissions: the user is found by first match. `users.id` is the primary
  key, so the join contributes at most one row per edge, and duplicated user ids are not modelled.
- PermissionResolver.CapabilityExact: it requires that no subject or action name contains a comma,
  the condition under which `explode` undoes `GROUP_CONCAT`. The order of the groups, which SQL
  leaves to the engine, is not stated. `GROUP_CONCAT` is taken to return the whole list: MySQL cuts
  it at `group_concat_max_len` (1024 bytes by default), which would drop trailing actions of a
  subject with many actions, and `Text.SplitJoin` assumes no such cut. The same holds for
  `LoginCapability` and `UserPermissions`.
- RolePermissionTokens.RolePermissionsBySlugTokens: the tokens are stated as a set, because
  `pluck` over an unordered join promises no order. Duplicate tokens are not counted.
- StrictWriter.StorePermission: the role slug and the subject and action keys of the plucked maps
  are compared exactly. PHP array keys are case-sensitive, but the role lookup runs in MySQL, so a
  route slug `Admin` finds the role `admin` there; a case-insensitive collation is not modelled. The items of `permissions.*.actions` carry no
  validation rule; the model takes them to be strings, so integer or nested items are not modelled.
- FlagsWriter.StorePermissionByIndex: the flags are a list, and position `i` is the index into
  `['create','update','delete','read']`. `storePermissionByIndex` iterates the request's array
  keys, so a JSON object such as `{"3": true}` would grant read; keyed flag objects are not
  modelled. The role slug and the subject and action names are compared exactly, so a route slug
  `Admin` misses the role `admin`; a case-insensitive collation is not modelled.
- RolePermissionTokens.RolePermissionsBySlug: the role name and slug are compared exactly; a
  case-insensitive collation is not modelled.
- Registration.Register: `unique:users,email` is an exact comparison in the model. MySQL's default
  collation compares case-insensitively (and ignores trailing spaces), so `Jane@x.com` next to
  `jane@x.com` is accepted here but refused by `register`. The `email` format rule is not modelled.
- Registration.ChooseUsername: a candidate is free when no user has exactly that username. Under a
  case-insensitive collation a stored `Jane_Doe` would also block `jane_doe`; that is not modelled.
- StrictWriter.StorePermission and FlagsWriter.StorePermissionByIndex: exceptions other than the
  unique slug index are not modelled. The strict writer's catalog is never written, so it cannot
  raise one.

## Findings

| source | as written | input that shows it | evidently intended | confidence | as-written member | corrected member |
|---|---|---|---|---|---|---|
| app/Http/Controllers/Api/UserPermissionController.php:502-505 | the route argument is a slug and the tokens are filtered by `user_roles.slug`, but the existence test and the reported name use `where('name', $slug)` | role 3 "Sales Manager" with slug `salesmanager` holding create on Invoice: `salesmanager` gives "roles no found"; `Sales Manager` gives permissions `null` | the existence test on `slug`, giving `["invoice.create"]` for `salesmanager` | not executed; high | RolePermissionTokens.RolePermissionsBySlugMisses | RolePermissionTokens.RolePermissionsBySlugFixed |
| app/Http/Controllers/Api/UserPermissionController.php:311-336 | `deleteRoles` deletes any role, including the default position that users are moved to | delete role 2 while it is the default position and user 1 holds it: the call commits and user 1's position names no role | refuse to delete the default role, or to move users to a missing one | not executed; medium | RoleLifecycle.DeleteRoleStrandsUsers | RoleLifecycle.DeleteRoleGuarded |
