/** The ACL manager (Acl/AclManager.php): the entity under management, the
    loaded ACL, the security identities collected so far, and the operations
    that compose the identity resolver, the provisioner and the reconciler.

    PHP objects are modelled by value. The loaded ACL is kept as the object
    identity under which the provider holds it, so an edit through the manager
    is an edit of the provider's ACL, as with the shared object in PHP. New
    security identity objects take their allocation handle from `nextHandle`. */
module AclManager {
  import opened Wrappers
  import opened Domain
  import opened Identities
  import opened Provider
  import opened Reconciler

  // Permission masks of the mask builder, as opaque integers.
  const MaskView: int := 1
  const MaskCreate: int := 2
  const MaskMaster: int := 64
  const MaskIddqd: int := 1073741823
  /** `create` and `view` together; the two bits are disjoint, so their
      bitwise or is their sum. */
  const MaskCreateView: int := MaskCreate + MaskView

  const RoleSuperAdmin: string := "ROLE_SUPER_ADMIN"
  const RoleAdmin: string := "ROLE_ADMIN"
  const RoleAnonymous: string := "IS_AUTHENTICATED_ANONYMOUSLY"
  const RoleUser: string := "ROLE_USER"

  /** The default policy, in the order the grants are made: each role with
      the mask it is granted at class scope. */
  const DefaultPolicy: seq<(string, int)> :=
    [(RoleSuperAdmin, MaskIddqd), (RoleAdmin, MaskMaster), (RoleAnonymous, MaskView), (RoleUser, MaskCreateView)]

  datatype Manager = Manager(
    store: Store,
    contextEntity: Option<Entity>,
    acl: Option<ObjectIdentity>,
    securityIdentity: Option<SecurityIdentity>,
    identities: seq<SecurityIdentity>,
    nextHandle: nat)

  /** Every identity in an entry of a stored ACL was allocated before `n`. */
  ghost predicate StoreHandlesBelow(s: Store, n: nat)
  {
    forall o :: o in s.acls ==> AclHandlesBelow(s.acls[o], n)
  }

  /** The state the manager keeps consistent: the provider is valid, every
      identity in a stored entry and the current identity were allocated before
      `nextHandle`, and a loaded ACL is one the provider holds. */
  ghost predicate Wf(m: Manager)
  {
    && Valid(m.store)
    && StoreHandlesBelow(m.store, m.nextHandle)
    && (m.securityIdentity.Some? ==> m.securityIdentity.value.handle < m.nextHandle)
    && (m.acl.Some? ==> m.acl.value in m.store.acls)
  }

  /** A manager over `store`, with nothing bound, loaded or collected. */
  function NewManager(store: Store, firstFree: nat): (m: Manager)
    ensures m.contextEntity.None? && m.acl.None? && m.securityIdentity.None? && m.identities == []
    ensures Valid(store) && StoreHandlesBelow(store, firstFree) ==> Wf(m)
  {
    Manager(store, None, None, None, [], firstFree)
  }

  predicate IsAclLoaded(m: Manager)
  {
    m.acl.Some?
  }

  predicate HasSecurityIdentity(m: Manager)
  {
    m.securityIdentity.Some?
  }

  /** `setContextEntity`: binds (or re-binds) the entity under management;
      `None` stands for `null`, which unbinds it. */
  function SetContextEntity(m: Manager, entity: Option<Entity>): (r: Manager)
    ensures r.contextEntity == entity
    ensures r.store == m.store && r.acl == m.acl && r.securityIdentity == m.securityIdentity
    ensures r.identities == m.identities && r.nextHandle == m.nextHandle
    ensures Wf(m) ==> Wf(r)
  {
    m.(contextEntity := entity)
  }

  /** Re-binding forgets the earlier binding. */
  lemma ContextRebind(m: Manager, e1: Option<Entity>, e2: Option<Entity>)
    ensures SetContextEntity(SetContextEntity(m, e1), e2) == SetContextEntity(m, e2)
  {
  }

  /** After unbinding, loading and installing default access fail again,
      whatever was bound before. */
  lemma UnbindStopsLoading(m: Manager, e: Entity)
    ensures var r := SetContextEntity(SetContextEntity(m, Some(e)), None);
            && LoadAcl(r) == Failure(InvalidDomainObject)
            && InstallDefaultAccess(r) == Failure(InvalidDomainObject)
  {
  }

  /** `addSecurityIdentity`: appends to the collection. */
  function AddSecurityIdentity(m: Manager, sid: SecurityIdentity): (r: Manager)
    ensures r.identities == m.identities + [sid]
    ensures r.store == m.store && r.contextEntity == m.contextEntity && r.acl == m.acl
    ensures r.securityIdentity == m.securityIdentity && r.nextHandle == m.nextHandle
    ensures Wf(m) ==> Wf(r)
  {
    m.(identities := m.identities + [sid])
  }

  /** `resetSecurityIdentities`: empties the collection. */
  function ResetSecurityIdentities(m: Manager): (r: Manager)
    ensures r.identities == []
    ensures r.store == m.store && r.contextEntity == m.contextEntity && r.acl == m.acl
    ensures r.securityIdentity == m.securityIdentity && r.nextHandle == m.nextHandle
    ensures Wf(m) ==> Wf(r)
  {
    m.(identities := [])
  }

  /** `createSecurityIdentity`: resolves `v` into a new identity object and
      appends it to the collection; the current identity is not touched. */
  function CreateSecurityIdentity(m: Manager, v: IdentityValue): (r: Result<Manager, Error>)
    ensures r.Failure? <==> v.Scalar? || (v.Obj? && !HasCapability(v))
    ensures r.Failure? ==> r.error == InvalidIdentity
    ensures r.Success? ==>
      && |r.value.identities| == |m.identities| + 1
      && r.value.identities[..|m.identities|] == m.identities
      && r.value.identities[|m.identities|] == ResolveIdentity(v, m.nextHandle).value
      && r.value.identities[|m.identities|].handle == m.nextHandle
      && r.value.nextHandle == m.nextHandle + 1
      && r.value.store == m.store && r.value.acl == m.acl
      && r.value.contextEntity == m.contextEntity
      && r.value.securityIdentity == m.securityIdentity
      && (Wf(m) ==> Wf(r.value))
  {
    var sid :- ResolveIdentity(v, m.nextHandle);
    var m' := AddSecurityIdentity(m, sid);
    assert m'.identities[..|m.identities|] == m.identities;
    Success(m'.(nextHandle := m.nextHandle + 1))
  }

  /** `loadAcl`: loads or creates the ACL of the bound entity and keeps it. */
  function LoadAcl(m: Manager): (r: Result<Manager, Error>)
    ensures r.Failure? <==> m.contextEntity.None?
    ensures r.Failure? ==> r.error == InvalidDomainObject
    ensures r.Success? ==>
      var oid := ObjectIdentity(m.contextEntity.value.id, m.contextEntity.value.className);
      && r.value.acl == Some(oid)
      && r.value.store.acls.Keys == m.store.acls.Keys + {oid}
      && (oid in m.store.acls ==> r.value.store == m.store)
      && (oid !in m.store.acls ==> r.value.store.acls == m.store.acls[oid := Acl(oid, [], [])])
      && r.value.store.updated == m.store.updated
      && r.value.contextEntity == m.contextEntity && r.value.identities == m.identities
      && r.value.securityIdentity == m.securityIdentity && r.value.nextHandle == m.nextHandle
      && (Wf(m) ==> Wf(r.value))
  {
    var loaded :- DoLoadAcl(m.store, m.contextEntity);
    var oid := ObjectIdentity(m.contextEntity.value.id, m.contextEntity.value.className);
    Success(m.(store := loaded.0, acl := Some(oid)))
  }

  /** A role identity newly built with the given allocation handle. */
  function NewRole(handle: nat, role: string): SecurityIdentity
  {
    Sid(handle, RoleName(role))
  }

  /** `installDefaultAccess`: loads the bound entity's ACL (without keeping it
      in the manager) and grants, at class scope and index 0, `iddqd` to a new
      ROLE_SUPER_ADMIN identity, `master` to a new ROLE_ADMIN identity, `view`
      to a new IS_AUTHENTICATED_ANONYMOUSLY identity and `create`+`view` to a new
      ROLE_USER identity, in that order. The boolean is the `true` that
      `doInstallDefaultAccess` returns. */
  function InstallDefaultAccess(m: Manager): (r: Result<(Manager, bool), Error>)
    ensures r.Failure? <==> m.contextEntity.None?
    ensures r.Failure? ==> r.error == InvalidDomainObject
    ensures r.Success? ==> r.value.1
    ensures r.Success? ==>
      && r.value.0.acl == m.acl && r.value.0.contextEntity == m.contextEntity
      && r.value.0.identities == m.identities && r.value.0.securityIdentity == m.securityIdentity
      && r.value.0.nextHandle == m.nextHandle + 4
  {
    var loaded :- DoLoadAcl(m.store, m.contextEntity);
    var oid := ObjectIdentity(m.contextEntity.value.id, m.contextEntity.value.className);
    Success((m.(store := GrantPolicy(loaded.0, oid, m.nextHandle, DefaultPolicy), nextHandle := m.nextHandle + 4), true))
  }

  /** The class-scope grants of `policy` on the ACL held under `oid`, made in
      order, each with granting polarity and index 0 and each to a new role
      identity, allocated from handle `h` on. */
  function GrantPolicy(s: Store, oid: ObjectIdentity, h: nat, policy: seq<(string, int)>): (r: Store)
    requires oid in s.acls
    ensures r.updated == s.updated + seq(|policy|, _ => oid)
    ensures r.acls.Keys == s.acls.Keys
    ensures forall o :: o in s.acls && o != oid ==> r.acls[o] == s.acls[o]
    ensures r.acls[oid].objectAces == s.acls[oid].objectAces
    ensures r.acls[oid].oid == s.acls[oid].oid
    decreases |policy|
  {
    if |policy| == 0 then s
    else
      var s1 := SetPermission(s, oid, Class, NewRole(h, policy[0].0), policy[0].1);
      assert s.updated + [oid] + seq(|policy| - 1, _ => oid) == s.updated + seq(|policy|, _ => oid);
      GrantPolicy(s1, oid, h + 1, policy[1..])
  }

  /** The shared body of `setObjectPermission` (object scope) and
      `setClassPermission` (class scope): reconcile the current identity in
      the loaded ACL at index 0. */
  function SetScopePermission(m: Manager, scope: Scope, mask: int, granting: bool): (r: Manager)
    requires IsAclLoaded(m) && m.acl.value in m.store.acls
    requires HasSecurityIdentity(m)
    ensures var oid := m.acl.value;
            var sid := m.securityIdentity.value;
            && r.store.updated == m.store.updated + [oid]
            && r.store.acls.Keys == m.store.acls.Keys
            && (forall o :: o in m.store.acls && o != oid ==> r.store.acls[o] == m.store.acls[o])
            && Aces(r.store.acls[oid], Other(scope)) == Aces(m.store.acls[oid], Other(scope))
            && Aces(r.store.acls[oid], scope) == ReconcileAces(Aces(m.store.acls[oid], scope), sid, mask, granting, 0)
    ensures r.acl == m.acl && r.contextEntity == m.contextEntity && r.identities == m.identities
    ensures r.securityIdentity == m.securityIdentity && r.nextHandle == m.nextHandle
    ensures Wf(m) ==> Wf(r)
  {
    var oid := m.acl.value;
    var sid := m.securityIdentity.value;
    ScopePermissionWf(m, scope, mask, granting);
    m.(store := SetPermission(m.store, oid, scope, sid, mask, granting, 0))
  }

  /** Reconciling the current identity keeps the manager well formed. */
  lemma ScopePermissionWf(m: Manager, scope: Scope, mask: int, granting: bool)
    requires IsAclLoaded(m) && m.acl.value in m.store.acls
    requires HasSecurityIdentity(m)
    ensures Wf(m) ==> Wf(m.(store := SetPermission(m.store, m.acl.value, scope, m.securityIdentity.value, mask, granting, 0)))
  {
    var oid := m.acl.value;
    var sid := m.securityIdentity.value;
    var s := SetPermission(m.store, oid, scope, sid, mask, granting, 0);
    if Wf(m) {
      ReconcileHandles(Aces(m.store.acls[oid], scope), sid, mask, granting, 0, m.nextHandle);
      match scope
      case Class =>
        assert AclHandlesBelow(s.acls[oid], m.nextHandle);
      case Object =>
        assert AclHandlesBelow(s.acls[oid], m.nextHandle);
    }
  }

  function SetObjectPermission(m: Manager, mask: int, granting: bool := true): (r: Manager)
    requires IsAclLoaded(m) && m.acl.value in m.store.acls
    requires HasSecurityIdentity(m)
    ensures var oid := m.acl.value;
            && r.store.updated == m.store.updated + [oid]
            && r.store.acls.Keys == m.store.acls.Keys
            && (forall o :: o in m.store.acls && o != oid ==> r.store.acls[o] == m.store.acls[o])
            && r.store.acls[oid].classAces == m.store.acls[oid].classAces
            && r.store.acls[oid].objectAces
               == ReconcileAces(m.store.acls[oid].objectAces, m.securityIdentity.value, mask, granting, 0)
    ensures r.acl == m.acl && r.contextEntity == m.contextEntity && r.identities == m.identities
    ensures r.securityIdentity == m.securityIdentity && r.nextHandle == m.nextHandle
    ensures Wf(m) ==> Wf(r)
  {
    SetScopePermission(m, Object, mask, granting)
  }

  function SetClassPermission(m: Manager, mask: int, granting: bool := true): (r: Manager)
    requires IsAclLoaded(m) && m.acl.value in m.store.acls
    requires HasSecurityIdentity(m)
    ensures var oid := m.acl.value;
            && r.store.updated == m.store.updated + [oid]
            && r.store.acls.Keys == m.store.acls.Keys
            && (forall o :: o in m.store.acls && o != oid ==> r.store.acls[o] == m.store.acls[o])
            && r.store.acls[oid].objectAces == m.store.acls[oid].objectAces
            && r.store.acls[oid].classAces
               == ReconcileAces(m.store.acls[oid].classAces, m.securityIdentity.value, mask, granting, 0)
    ensures r.acl == m.acl && r.contextEntity == m.contextEntity && r.identities == m.identities
    ensures r.securityIdentity == m.securityIdentity && r.nextHandle == m.nextHandle
    ensures Wf(m) ==> Wf(r)
  {
    SetScopePermission(m, Class, mask, granting)
  }

  // ---------------------------------------------------------------------------
  // Default access.

  /** An identity allocated at or after `n` has no entry in a list whose
      identities were all allocated before `n`. */
  lemma {:induction false} FreshAbsent(aces: seq<Ace>, sid: SecurityIdentity, n: nat)
    requires HandlesBelow(aces, n) && sid.handle >= n
    ensures Count(aces, sid) == 0
    decreases |aces|
  {
    if |aces| > 0 {
      assert HandlesBelow(aces[1..], n) by {
        forall j | 0 <= j < |aces[1..]|
          ensures aces[1..][j].sid.handle < n
        {
          assert aces[1..][j] == aces[j + 1];
        }
      }
      FreshAbsent(aces[1..], sid, n);
    }
  }

  /** One default grant: a new identity goes in front of the class list, and
      the provider records one more update. */
  lemma DefaultStep(s: Store, oid: ObjectIdentity, sid: SecurityIdentity, mask: int)
    requires oid in s.acls && HandlesBelow(s.acls[oid].classAces, sid.handle)
    ensures var s' := SetPermission(s, oid, Class, sid, mask, true, 0);
            && s'.acls[oid].classAces == [Ace(sid, mask, true)] + s.acls[oid].classAces
            && HandlesBelow(s'.acls[oid].classAces, sid.handle + 1)
  {
    var aces := s.acls[oid].classAces;
    FreshAbsent(aces, sid, sid.handle);
    ReconcileAbsentPrepends(aces, sid, mask, true);
    var r := [Ace(sid, mask, true)] + aces;
    forall j | 0 <= j < |r|
      ensures r[j].sid.handle < sid.handle + 1
    {
      if j > 0 {
        assert r[j] == aces[j - 1];
      }
    }
  }

  /** The entries a policy adds, front first: the last grant is in front. */
  function PolicyEntries(h: nat, policy: seq<(string, int)>): seq<Ace>
    decreases |policy|
  {
    if |policy| == 0 then []
    else PolicyEntries(h + 1, policy[1..]) + [Ace(NewRole(h, policy[0].0), policy[0].1, true)]
  }

  /** The four default entries, front first, for identities allocated from
      handle `h` on: ROLE_USER with create+view, the anonymous role with view,
      ROLE_ADMIN with master and ROLE_SUPER_ADMIN with iddqd. */
  function DefaultEntries(h: nat): seq<Ace>
  {
    [ Ace(NewRole(h + 3, RoleUser), MaskCreateView, true),
      Ace(NewRole(h + 2, RoleAnonymous), MaskView, true),
      Ace(NewRole(h + 1, RoleAdmin), MaskMaster, true),
      Ace(NewRole(h, RoleSuperAdmin), MaskIddqd, true) ]
  }

  /** The default policy, granted in order, adds exactly the four default
      entries. */
  lemma DefaultEntriesOfPolicy(h: nat)
    ensures PolicyEntries(h, DefaultPolicy) == DefaultEntries(h)
  {
    var p1 := DefaultPolicy[1..];
    var p2 := p1[1..];
    var p3 := p2[1..];
    assert p3[1..] == [];
    assert PolicyEntries(h + 3, p3) == [Ace(NewRole(h + 3, RoleUser), MaskCreateView, true)];
    assert PolicyEntries(h + 2, p2) == DefaultEntries(h)[..2];
    assert PolicyEntries(h + 1, p1) == DefaultEntries(h)[..3];
  }

  /** On a class list whose identities were all allocated before `h`, the
      grants of a policy put its entries in front, the last grant first, and
      the list then mentions no identity allocated at `h + |policy|` or later. */
  lemma {:induction false} GrantPolicyPrepend(s: Store, oid: ObjectIdentity, h: nat, policy: seq<(string, int)>)
    requires oid in s.acls && HandlesBelow(s.acls[oid].classAces, h)
    ensures GrantPolicy(s, oid, h, policy).acls[oid].classAces == PolicyEntries(h, policy) + s.acls[oid].classAces
    ensures HandlesBelow(GrantPolicy(s, oid, h, policy).acls[oid].classAces, h + |policy|)
    decreases |policy|
  {
    if |policy| > 0 {
      var sid := NewRole(h, policy[0].0);
      var s1 := SetPermission(s, oid, Class, sid, policy[0].1);
      var rest := policy[1..];
      DefaultStep(s, oid, sid, policy[0].1);
      GrantPolicyPrepend(s1, oid, h + 1, rest);
      var e := Ace(sid, policy[0].1, true);
      var front := PolicyEntries(h + 1, rest);
      var aces := s.acls[oid].classAces;
      assert GrantPolicy(s, oid, h, policy) == GrantPolicy(s1, oid, h + 1, rest);
      assert PolicyEntries(h, policy) == front + [e];
      assert front + ([e] + aces) == (front + [e]) + aces;
    }
  }

  /** The grants of a policy keep the provider valid and mention no identity
      allocated at `h + |policy|` or later. */
  lemma GrantPolicyHandles(s: Store, oid: ObjectIdentity, h: nat, policy: seq<(string, int)>)
    requires oid in s.acls && Valid(s) && StoreHandlesBelow(s, h)
    ensures Valid(GrantPolicy(s, oid, h, policy))
    ensures StoreHandlesBelow(GrantPolicy(s, oid, h, policy), h + |policy|)
  {
    var r := GrantPolicy(s, oid, h, policy);
    GrantPolicyPrepend(s, oid, h, policy);
    forall o | o in r.acls
      ensures AclHandlesBelow(r.acls[o], h + |policy|)
    {
      assert AclHandlesBelow(s.acls[o], h);
    }
  }

  /** Default access on a well-formed manager with a bound entity: the four
      identities are new objects, so none of them matches an existing entry,
      and each grant is an insert at index 0. The class list thus gains exactly
      four granting entries in front, ROLE_USER first and ROLE_SUPER_ADMIN last;
      the object list and every other ACL are unchanged; the provider received
      four updates of this ACL; the result is `true`. */
  lemma DefaultAccessSpec(m: Manager)
    requires Wf(m) && m.contextEntity.Some?
    ensures var r := InstallDefaultAccess(m);
            var oid := ObjectIdentity(m.contextEntity.value.id, m.contextEntity.value.className);
            var before := if oid in m.store.acls then m.store.acls[oid] else Acl(oid, [], []);
            && r.Success? && r.value.1
            && r.value.0.store.acls.Keys == m.store.acls.Keys + {oid}
            && r.value.0.store.acls[oid].classAces == DefaultEntries(m.nextHandle) + before.classAces
            && r.value.0.store.acls[oid].objectAces == before.objectAces
            && (forall o :: o in m.store.acls && o != oid ==> r.value.0.store.acls[o] == m.store.acls[o])
            && r.value.0.store.updated == m.store.updated + [oid, oid, oid, oid]
            && Wf(r.value.0)
  {
    DefaultAccessClassList(m);
    DefaultAccessFrame(m);
    DefaultAccessWf(m);
  }

  /** The class-list part of `DefaultAccessSpec`. */
  lemma DefaultAccessClassList(m: Manager)
    requires Wf(m) && m.contextEntity.Some?
    ensures var r := InstallDefaultAccess(m);
            var oid := ObjectIdentity(m.contextEntity.value.id, m.contextEntity.value.className);
            var before := if oid in m.store.acls then m.store.acls[oid] else Acl(oid, [], []);
            && r.Success?
            && oid in r.value.0.store.acls
            && r.value.0.store.acls[oid].classAces == DefaultEntries(m.nextHandle) + before.classAces
  {
    var oid := ObjectIdentity(m.contextEntity.value.id, m.contextEntity.value.className);
    GrantPolicyPrepend(LoadedStore(m), oid, m.nextHandle, DefaultPolicy);
    DefaultEntriesOfPolicy(m.nextHandle);
    InstallDefaultUnfold(m);
  }

  /** What `DefaultAccessSpec` says about everything but the class list. */
  lemma DefaultAccessFrame(m: Manager)
    requires m.contextEntity.Some?
    ensures var r := InstallDefaultAccess(m);
            var oid := ObjectIdentity(m.contextEntity.value.id, m.contextEntity.value.className);
            var before := if oid in m.store.acls then m.store.acls[oid] else Acl(oid, [], []);
            && r.Success? && r.value.1
            && r.value.0.store.acls.Keys == m.store.acls.Keys + {oid}
            && r.value.0.store.acls[oid].objectAces == before.objectAces
            && (forall o :: o in m.store.acls && o != oid ==> r.value.0.store.acls[o] == m.store.acls[o])
            && r.value.0.store.updated == m.store.updated + [oid, oid, oid, oid]
  {
    InstallDefaultUnfold(m);
    var oid := ObjectIdentity(m.contextEntity.value.id, m.contextEntity.value.className);
    assert seq(|DefaultPolicy|, _ => oid) == [oid, oid, oid, oid];
  }

  /** Default access keeps the manager well formed. */
  lemma DefaultAccessWf(m: Manager)
    requires Wf(m) && m.contextEntity.Some?
    ensures InstallDefaultAccess(m).Success? && Wf(InstallDefaultAccess(m).value.0)
  {
    var oid := ObjectIdentity(m.contextEntity.value.id, m.contextEntity.value.className);
    var loaded := LoadedStore(m);
    var granted := GrantPolicy(loaded, oid, m.nextHandle, DefaultPolicy);
    GrantPolicyHandles(loaded, oid, m.nextHandle, DefaultPolicy);
    InstallDefaultUnfold(m);
    var r := m.(store := granted, nextHandle := m.nextHandle + 4);
    assert InstallDefaultAccess(m).value.0 == r;
    assert m.acl.Some? ==> m.acl.value in granted.acls;
    assert Valid(granted) && StoreHandlesBelow(granted, r.nextHandle);
  }

  /** The provider after `doLoadAcl` on the bound entity. */
  function LoadedStore(m: Manager): (s: Store)
    requires m.contextEntity.Some?
    ensures var oid := ObjectIdentity(m.contextEntity.value.id, m.contextEntity.value.className);
            && oid in s.acls
            && s.acls[oid] == (if oid in m.store.acls then m.store.acls[oid] else Acl(oid, [], []))
            && s.acls.Keys == m.store.acls.Keys + {oid}
            && (forall o :: o in m.store.acls ==> s.acls[o] == m.store.acls[o])
            && s.updated == m.store.updated
            && (Wf(m) ==> Valid(s) && StoreHandlesBelow(s, m.nextHandle))
  {
    DoLoadAcl(m.store, m.contextEntity).value.0
  }

  lemma InstallDefaultUnfold(m: Manager)
    requires m.contextEntity.Some?
    ensures var oid := ObjectIdentity(m.contextEntity.value.id, m.contextEntity.value.className);
            InstallDefaultAccess(m)
            == Success((m.(store := GrantPolicy(LoadedStore(m), oid, m.nextHandle, DefaultPolicy), nextHandle := m.nextHandle + 4), true))
  {
  }

  /** Because entries are matched by object identity and the default
      identities are new objects each time, a second installation does not
      find the first one's entries: the class list then holds eight default
      entries, two for each role. */
  lemma DefaultAccessTwice(m: Manager, once: Manager)
    requires Wf(m) && m.contextEntity.Some?
    requires InstallDefaultAccess(m) == Success((once, true))
    ensures var oid := ObjectIdentity(m.contextEntity.value.id, m.contextEntity.value.className);
            var before := if oid in m.store.acls then m.store.acls[oid] else Acl(oid, [], []);
            && InstallDefaultAccess(once).Success?
            && InstallDefaultAccess(once).value.0.store.acls[oid].classAces
               == DefaultEntries(m.nextHandle + 4) + DefaultEntries(m.nextHandle) + before.classAces
  {
    DefaultAccessClassList(m);
    DefaultAccessWf(m);
    DefaultAccessClassList(once);
  }

}
