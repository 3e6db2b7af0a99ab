# ACL manager: a verified Dafny model

This project models `AclManager`, the class that manages access-control lists
(ACLs) for domain entities in a Symfony bundle. It has four parts:

- **Identity resolver** (`identities.dfy`, module `Identities`). It turns a role
  name, a user account, an authentication token or a role object into a security
  identity. A user is tried before a token, and a token before a role. Anything
  else, an object without those interfaces or a value that is neither a string
  nor an object, is rejected with `InvalidIdentity`.
- **ACL provisioner** (`provider.dfy`, module `Provider`). The provider is an
  abstract store: a map from object identity to ACL, plus a log of its
  `updateAcl` calls. Loading tries `createAcl` first. When that reports
  "already exists", it falls back to `findAcl`.
- **Permission reconciler** (`reconciler.dfy`, module `Reconciler`). It walks one
  entry list of an ACL, class scope or object scope, from the highest index down
  to 0:
  - an entry of the target identity with the same polarity gets the new mask;
  - an entry of the target identity with the opposite polarity is deleted;
  - afterwards, a new entry is inserted at `index` if something was deleted or
    nothing matched;
  - `updateAcl` is then called once, whatever happened.

  `ReconcileAces` is a reference definition of this that does not depend on
  visiting order. The imperative loop `WalkDown` edits the live list by
  index, and is proved to compute exactly `ReconcileAces`.
- **Manager** (`manager.dfy`, module `AclManager`). It holds the bound entity,
  the loaded ACL, the current identity and the collection of identities. It also
  installs the default policy: four class-scope grants, for ROLE_SUPER_ADMIN,
  ROLE_ADMIN, IS_AUTHENTICATED_ANONYMOUSLY and ROLE_USER.

`domain.dfy` (module `Domain`) holds the data model, and `wrappers.dfy` holds
`Option` and `Result`.

Identity matching (Acl/AclManager.php:216) uses PHP's `===`, which is object
identity. A security identity is therefore modelled as `Sid(handle, kind)`:
`handle` stands for the object's allocation, and `==` on the whole value stands
for `===`. Every `new ...SecurityIdentity` gets a fresh handle from the
manager's `nextHandle`. Symfony's security identities also offer `equals()`, a
value comparison, but line 216 uses `===`, and this model follows it. One
consequence is proved: the default
identities are new objects, so installing default access twice leaves two
entries per role (`DefaultAccessTwice`).

The loaded ACL is kept as the object identity under which the provider holds it.
An edit through the manager is therefore an edit of the provider's ACL, as with
the shared PHP object.

## Model

| member | source | states |
|---|---|---|
| Identities.ResolveIdentity | Acl/AclManager.php:101-124 | a string becomes a role identity; a value that is neither a string nor an object (an integer, null, an array), and an object with none of the user, token or role interfaces, fail with InvalidIdentity, and only such values fail; a user is resolved before a token and a token before a role; the result is always a newly built identity object |
| Identities.StringAsRole | Acl/AclManager.php:102-104 | a string is resolved exactly as a role object of that name |
| Identities.DispatchNeverNull | Acl/AclManager.php:110-121 | once the interface check has passed, the dispatch chain always builds an identity, so the null check is defensive only |
| Identities.ResolveKeyDeterministic | Acl/AclManager.php:111-117 | resolving the same value twice succeeds or fails alike; on success it builds two distinct objects naming the same principal or role |
| Provider.LoadOrCreate | Acl/AclManager.php:81-88 | with no ACL for the key, an empty one is created and the store gains exactly that key; with one, the store is unchanged and the existing ACL is returned; no update is issued |
| Provider.LoadOrCreateIdempotent | Acl/AclManager.php:82-86 | a second load returns the same ACL and leaves the store as the first load left it |
| Provider.DoLoadAcl | Acl/AclManager.php:78-89 | fails exactly when no entity is given; otherwise loads or creates the ACL under the entity's object identity, with the same create-or-find outcome |
| Reconciler.ReconcileSpec | Acl/AclManager.php:210-230 | the result has the input's length, minus the opposite-polarity entries of the identity, plus one when an entry is inserted; an entry is inserted exactly when an opposite entry existed or no entry of the identity existed, and it then sits at `index`; every remaining entry of the identity carries the new mask and polarity; entries of other identities keep their values and relative order |
| Reconciler.WalkLength | Acl/AclManager.php:219-221 | the walk removes exactly the opposite-polarity entries of the identity |
| Reconciler.WalkKeepsOthers | Acl/AclManager.php:215-225 | entries of other identities survive the walk with their values and relative order |
| Reconciler.WalkEntriesOfSid | Acl/AclManager.php:216-221 | after the walk, every entry of the identity has the supplied mask and polarity; as many same-polarity entries remain as there were; no opposite-polarity entry remains |
| Reconciler.ReconcileUnique | Acl/AclManager.php:215-229 | if the list held at most one entry for the identity, it ends with exactly one, carrying the supplied mask and polarity |
| Reconciler.ReconcileIdempotent | Acl/AclManager.php:210-230 | a second identical reconcile leaves the entry list unchanged (the provider still records one more update) |
| Reconciler.ReconcileAbsentPrepends | Acl/AclManager.php:227-229 | for an identity with no entry, a reconcile at index 0 puts the new entry in front of the unchanged list |
| Reconciler.ReconcileIdentities | Acl/AclManager.php:215-229 | the entries after a reconcile name exactly the identities the list named before plus the reconciled one: none is lost, even one whose entries were all deleted, and no other appears |
| Reconciler.ReconcileHandles | Acl/AclManager.php:215-229 | when the list's identities and the reconciled one were all allocated below a bound, the result's identities are too |
| Reconciler.PolarityFlip | Acl/AclManager.php:216-229 | on any list, a grant followed by a deny leaves exactly one entry for the identity, the deny with the second mask, and other identities' entries untouched; from at most one entry, the grant alone leaves exactly one grant with the first mask |
| Reconciler.LastMaskWins | Acl/AclManager.php:215-229 | after any run of grants to an identity with at most one entry, it holds exactly one grant, with the last mask supplied; other identities' entries are untouched |
| Reconciler.ReverseOrderExample | Acl/AclManager.php:214-225 | with the identity at positions 1 (grant) and 3 (deny) of five entries, granting updates 1, deletes 3, keeps 0, 2 and 4, and also inserts a second grant in front |
| Reconciler.WalkDown | Acl/AclManager.php:214-225 | the downward loop edits the live list by index, using positions of the list fetched before the loop; it visits each original entry exactly once and leaves the walked list; `aceFound` is set exactly when the identity had an entry, `doInsert` exactly when it had an opposite one |
| Reconciler.SetPermissionWalk | Acl/AclManager.php:210-230 | the loop followed by the conditional insert computes `ReconcileAces`; it inserts exactly when an opposite entry existed or none matched |
| Reconciler.SetPermission | Acl/AclManager.php:201-233 | exactly one `updateAcl` call, for this ACL, whichever branch ran; other ACLs, the other scope and the object identity are untouched; the scope's list is reconciled; polarity and index default to granting and 0 |
| Reconciler.DoSetPermission | Acl/AclManager.php:201-233 | running the walk on the provider's ACL gives the same store as `SetPermission` |
| AclManager.NewManager | Acl/AclManager.php:38-42 | a new manager has nothing bound, nothing loaded and no identities; over a consistent provider it is well formed |
| AclManager.SetContextEntity | Acl/AclManager.php:44-48 | binds the entity, or unbinds it on `null`, and changes nothing else |
| AclManager.ContextRebind | Acl/AclManager.php:44-48 | re-binding replaces the earlier binding |
| AclManager.UnbindStopsLoading | Acl/AclManager.php:44-48 | after `setContextEntity(null)`, loading the ACL and installing default access fail again with the invalid-domain-object error |
| AclManager.AddSecurityIdentity | Acl/AclManager.php:61-63 | appends the identity to the collection and changes nothing else |
| AclManager.ResetSecurityIdentities | Acl/AclManager.php:64-66 | empties the collection and changes nothing else |
| AclManager.CreateSecurityIdentity | Acl/AclManager.php:91-95 | fails exactly when resolution fails (a non-string, non-object value, or an object without the interfaces); otherwise appends one newly built identity to the collection; the current identity and the ACLs are not touched |
| AclManager.LoadAcl | Acl/AclManager.php:68-72 | fails exactly when no entity is bound; otherwise the manager keeps the entity's ACL, created empty if missing; nothing else changes |
| AclManager.InstallDefaultAccess | Acl/AclManager.php:129-169 | fails exactly when no entity is bound; otherwise returns true; the manager's loaded ACL, entity and identities are unchanged, and four identity objects are allocated |
| AclManager.GrantPolicy | Acl/AclManager.php:138-166 | the default grants, made in order at class scope, issue exactly one update of the entity's ACL per grant; they touch neither its object list nor any other ACL |
| AclManager.DefaultStep | Acl/AclManager.php:141-144 | a grant to a newly built identity goes in front of the class list |
| AclManager.GrantPolicyPrepend | Acl/AclManager.php:138-166 | on a class list that contains none of the new identities, each grant adds one granting entry in front, so the last grant ends up first; the list then names no identity allocated after the grants |
| AclManager.GrantPolicyHandles | Acl/AclManager.php:138-166 | the grants keep every ACL under its own object identity and allocate exactly one new identity per grant |
| AclManager.DefaultEntriesOfPolicy | Acl/AclManager.php:138-166 | the four default grants add, front first: ROLE_USER (create+view), anonymous (view), ROLE_ADMIN (master), ROLE_SUPER_ADMIN (iddqd) |
| AclManager.DefaultAccessSpec | Acl/AclManager.php:135-168 | on a well-formed manager with a bound entity, the class list gains exactly the four default entries in front; the object list and every other ACL are unchanged; the provider gets four updates; the result is true; well-formedness is kept |
| AclManager.DefaultAccessTwice | Acl/AclManager.php:141-166 | because identities are matched by object, a second installation adds four more entries in front of the first four |
| AclManager.SetObjectPermission | Acl/AclManager.php:171-179 | reconciles the current identity in the loaded ACL's object list at index 0, with granting by default; the class list, the other ACLs and the manager's other fields are unchanged; one update is issued |
| AclManager.SetClassPermission | Acl/AclManager.php:181-189 | reconciles the current identity in the loaded ACL's class list at index 0, with granting by default; the object list, the other ACLs and the manager's other fields are unchanged; one update is issued |
| AclManager.SetScopePermission | Acl/AclManager.php:171-189 | the shared body of both setters; it reconciles one scope, leaves the other scope and the other ACLs alone, issues one update, and keeps the manager well formed |

## Left out

- The security context passed to the constructor is stored and never used. It is not modelled.
- Permission masks are integer constants with the mask builder's values: view 1, create 2, master 64, iddqd 1073741823. Create+view is 3. The builder's reset/add/get protocol (`getMaskBuilder`, Acl/AclManager.php:235-237) is not modelled.
- Database persistence of the provider is not modelled. `updateAcl` is a store write plus one log entry, and it cannot fail. `createAcl` fails only when the ACL already exists, and `findAcl` then succeeds, so the rethrow branches of `doLoadAcl` and the `Storage` error are never reached. The model has no storage error after a partial in-memory edit, so the missing transaction (the TODO at Acl/AclManager.php:195) is not modelled. Concurrent edits are not modelled either.
- `ObjectIdentity::fromDomainObject` is reduced to the entity's class and id. It fails only when no entity is bound.
- `UserSecurityIdentity::fromAccount`/`fromToken` and `RoleSecurityIdentity` are reduced to the account key or role name they record.
- The `Role` class built from a string at Acl/AclManager.php:103 is not imported in the file. The model takes the intent: a string becomes a role of that name.
- Exception message texts, including the `get_class` name, are left out. Each failure is one error value. For a value that is not an object, PHP 8's `get_class` fails while the message is being built, so PHP raises its own error in place of `InvalidIdentityException`; the model reports `InvalidIdentity` either way.
- ACE fields other than identity, mask and polarity are not modelled. These are the entry id, the strategy and the audit flags.
- The `return $this` of the public setters is not modelled. `isAclLoaded` and `hasSecurityIdentity` (Acl/AclManager.php:50-56) are the predicates `IsAclLoaded` and `HasSecurityIdentity`, used as preconditions of the setters; `getSecurityIdentities` is the `identities` field. The `instanceof` halves of those checks hold by typing.
- `$this->securityIdentity` is never assigned in the class. The setters require it, and require a loaded ACL, as the typed parameter at Acl/AclManager.php:201 does. No operation of the model changes it.
- Reconciler.SetPermission: requires, when an entry is to be inserted, an index from 0 to the length of the list after the walk. `doSetPermission` reads the index only for that insert and hands it to Symfony's ACL, whose insert rejects an index outside that range with an exception; the model does not turn that exception into an error value. On a call that only updates, any index is accepted. Every caller in the class uses 0.
- Reconciler.DoSetPermission: same index requirement as `SetPermission`.
- Reconciler.SetPermissionWalk: same index requirement as `SetPermission`.
- Reconciler.ReconcileSpec: same index requirement as `SetPermission`.
- Class-scope entries are kept per ACL. Symfony's ACL provider shares them among all ACLs of one object type and copies a class-scope change to the other loaded ACLs of that type. So a new ACL of a known type starts here with an empty class list, and "every other ACL is unchanged" after a class-scope edit (`SetClassPermission`, `SetScopePermission`, `GrantPolicy`, `DefaultAccessSpec`) holds in Symfony only for ACLs of other object types. The provider's code is not part of this model.
- The polarity argument of the setters is a `bool`. PHP's parameter is untyped, and the `===` at Acl/AclManager.php:217 never matches a non-boolean such as `1`; such a call deletes every entry of the identity and inserts one. That case is not modelled.
