/** The data the ACL manager works on: security identities, access-control
    entries (ACEs), ACLs with their class-scoped and object-scoped entry lists,
    the domain entities ACLs are attached to, and the errors the manager raises. */
module Domain {

  /** What a security identity names: a principal (by account key) or a role. */
  datatype SidKind =
    | UserKey(username: string, userClass: string)
    | RoleName(role: string)

  /** A security identity object. `handle` stands for the object's allocation:
      two values are equal exactly when they denote the same PHP object, so `==`
      on this type is the strict identity test `===` that the reconciler uses
      (Acl/AclManager.php:216). Two separately built identities with the same
      `kind` are different values. */
  datatype SecurityIdentity = Sid(handle: nat, kind: SidKind)

  /** A domain entity under management: its class and its identifier. */
  datatype Entity = Entity(className: string, id: string)

  /** The key under which the provider stores an entity's ACL. */
  datatype ObjectIdentity = ObjectIdentity(identifier: string, objectType: string)

  /** One permission entry: who, which permission bits, grant or deny. The
      position of an entry is its index in the list that holds it. */
  datatype Ace = Ace(sid: SecurityIdentity, mask: int, granting: bool)

  /** The two parallel entry lists of an ACL; replaces the `"get{$type}Aces"`
      dispatch of `doSetPermission` on the strings "class" and "object". */
  datatype Scope = Class | Object

  datatype Acl = Acl(oid: ObjectIdentity, classAces: seq<Ace>, objectAces: seq<Ace>)

  /** The errors the manager surfaces. */
  datatype Error =
    | InvalidIdentity        // InvalidIdentityException
    | InvalidDomainObject    // the entity is not an object (no entity bound)
    | Storage                // any other failure of the ACL provider; the abstract provider raises none

  function Other(scope: Scope): Scope
  {
    match scope
    case Class => Object
    case Object => Class
  }

  /** The entry list of `acl` for `scope`. */
  function Aces(acl: Acl, scope: Scope): seq<Ace>
  {
    match scope
    case Class => acl.classAces
    case Object => acl.objectAces
  }

  /** `acl` with the list for `scope` replaced by `aces`. */
  function WithAces(acl: Acl, scope: Scope, aces: seq<Ace>): (r: Acl)
    ensures Aces(r, scope) == aces
    ensures Aces(r, Other(scope)) == Aces(acl, Other(scope))
    ensures r.oid == acl.oid
  {
    match scope
    case Class => acl.(classAces := aces)
    case Object => acl.(objectAces := aces)
  }

  /** Every identity mentioned in `aces` was allocated before handle `n`. */
  ghost predicate HandlesBelow(aces: seq<Ace>, n: nat)
  {
    forall i :: 0 <= i < |aces| ==> aces[i].sid.handle < n
  }

  ghost predicate AclHandlesBelow(acl: Acl, n: nat)
  {
    HandlesBelow(acl.classAces, n) && HandlesBelow(acl.objectAces, n)
  }
}
