/** The ACL provider the manager talks to, as an abstract store: a map from
    object identity to ACL plus a log of the `updateAcl` calls it received.
    On top of it, the ACL provisioner of the manager: create first, and fall back
    to find when the provider reports that the ACL already exists
    (Acl/AclManager.php:78-89). */
module Provider {
  import opened Wrappers
  import opened Domain

  datatype StoreError = AlreadyExists | NotFound

  /** `updated` lists, oldest first, the object identities of the ACLs handed
      to `updateAcl`. */
  datatype Store = Store(acls: map<ObjectIdentity, Acl>, updated: seq<ObjectIdentity>)

  /** Every stored ACL sits under its own object identity. */
  ghost predicate Valid(s: Store)
  {
    forall o :: o in s.acls ==> s.acls[o].oid == o
  }

  /** The provider's `createAcl`: a new, empty ACL, or `AlreadyExists`. */
  function CreateAcl(s: Store, oid: ObjectIdentity): Result<(Store, Acl), StoreError>
  {
    if oid in s.acls then Failure(AlreadyExists)
    else
      var acl := Acl(oid, [], []);
      Success((s.(acls := s.acls[oid := acl]), acl))
  }

  /** The provider's `findAcl`. */
  function FindAcl(s: Store, oid: ObjectIdentity): Result<Acl, StoreError>
  {
    if oid in s.acls then Success(s.acls[oid]) else Failure(NotFound)
  }

  /** The provider's `updateAcl` on an ACL loaded under `oid`: persists `acl`
      under that key and records the call. */
  function UpdateAcl(s: Store, oid: ObjectIdentity, acl: Acl): (r: Store)
    ensures r.acls == s.acls[oid := acl]
    ensures r.updated == s.updated + [oid]
  {
    Store(s.acls[oid := acl], s.updated + [oid])
  }

  /** `ObjectIdentity::fromDomainObject`, on an entity that may be missing. */
  function ObjectIdentityOf(entity: Option<Entity>): Result<ObjectIdentity, Error>
  {
    match entity
    case None => Failure(InvalidDomainObject)
    case Some(e) => Success(ObjectIdentity(e.id, e.className))
  }

  /** Create-then-find: returns the ACL stored for `oid`, creating an empty one
      when there is none. Only `AlreadyExists` is caught; any other provider
      error would propagate, but `CreateAcl` fails only with `AlreadyExists`
      and `FindAcl` then succeeds, so those branches are never taken. */
  function LoadOrCreate(s: Store, oid: ObjectIdentity): (r: Result<(Store, Acl), StoreError>)
    ensures r.Success?
    // A missing ACL is created empty and the store gains exactly that key.
    ensures oid !in s.acls ==>
      && r.value.1 == Acl(oid, [], [])
      && r.value.0.acls == s.acls[oid := r.value.1]
      && r.value.0.acls.Keys == s.acls.Keys + {oid}
    // An existing ACL is returned and the store is left as it was.
    ensures oid in s.acls ==> r.value == (s, s.acls[oid])
    // Either way the returned ACL is the one the store now holds for `oid`.
    ensures oid in r.value.0.acls && r.value.0.acls[oid] == r.value.1
    ensures r.value.0.updated == s.updated
    ensures Valid(s) ==> Valid(r.value.0) && r.value.1.oid == oid
  {
    match CreateAcl(s, oid)
    case Success(created) => Success(created)
    case Failure(e) =>
      if e == AlreadyExists then
        match FindAcl(s, oid)
        case Success(acl) => Success((s, acl))
        case Failure(e') => Failure(e')
      else
        Failure(e)
  }

  /** Loading twice yields the same ACL, and the second load changes nothing. */
  lemma LoadOrCreateIdempotent(s: Store, oid: ObjectIdentity)
    ensures var (s1, a1) := LoadOrCreate(s, oid).value;
            LoadOrCreate(s1, oid).value == (s1, a1)
  {
  }

  /** `doLoadAcl`: the provisioner applied to an entity that may be missing. */
  function DoLoadAcl(s: Store, entity: Option<Entity>): (r: Result<(Store, Acl), Error>)
    ensures r.Failure? <==> entity.None?
    ensures r.Failure? ==> r.error == InvalidDomainObject
    ensures r.Success? ==>
      var oid := ObjectIdentity(entity.value.id, entity.value.className);
      && r.value.0.acls.Keys == s.acls.Keys + {oid}
      && r.value.0.acls[oid] == r.value.1
      && (oid in s.acls ==> r.value == (s, s.acls[oid]))
      && (oid !in s.acls ==> r.value.1 == Acl(oid, [], []) && r.value.0.acls == s.acls[oid := r.value.1])
      && r.value.0.updated == s.updated
      && (Valid(s) ==> Valid(r.value.0) && r.value.1.oid == oid)
  {
    var oid :- ObjectIdentityOf(entity);
    match LoadOrCreate(s, oid)
    case Success(loaded) => Success(loaded)
    case Failure(_) => Failure(Storage)
  }
}
