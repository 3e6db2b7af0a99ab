/** The identity resolver: turns a role name, a user account, an
    authentication token or a role object into a security identity
    (Acl/AclManager.php:101-124). */
module Identities {
  import opened Wrappers
  import opened Domain

  /** A user account as seen through the user interface: its username and
      its real class. */
  datatype Account = Account(username: string, className: string)

  /** An authentication token, reduced to the account it carries. */
  datatype Token = Token(user: Account)

  /** A value handed to the resolver, whose parameter is untyped. A PHP object
      may implement several of the user, token and role interfaces at once, so
      an object records each capability it has; `className` stands for what
      `get_class` would report. Any other value (an integer, a float, a
      boolean, null or an array) is a `Scalar`, named by its PHP type. */
  datatype IdentityValue =
    | Str(name: string)
    | Obj(className: string, asUser: Option<Account>, asToken: Option<Token>, asRole: Option<string>)
    | Scalar(typeName: string)

  /** The object implements at least one of the three accepted interfaces. */
  predicate HasCapability(v: IdentityValue)
    requires v.Obj?
  {
    v.asUser.Some? || v.asToken.Some? || v.asRole.Some?
  }

  /** A bare string is first wrapped into a role object named by it. */
  function AsObject(v: IdentityValue): (o: IdentityValue)
    requires !v.Scalar?
    ensures o.Obj?
    ensures v.Str? ==> o.asRole == Some(v.name) && o.asUser.None? && o.asToken.None?
    ensures v.Obj? ==> o == v
  {
    match v
    case Str(name) => Obj("Role", None, None, Some(name))
    case Obj(_, _, _, _) => v
  }

  /** The user security identity built from an account. */
  function FromAccount(a: Account, handle: nat): SecurityIdentity
  {
    Sid(handle, UserKey(a.username, a.className))
  }

  /** The user security identity built from a token's account. */
  function FromToken(t: Token, handle: nat): SecurityIdentity
  {
    FromAccount(t.user, handle)
  }

  /** The role security identity built from a role name. */
  function FromRole(role: string, handle: nat): SecurityIdentity
  {
    Sid(handle, RoleName(role))
  }

  /** The if / else-if chain that picks the constructor: user first, then
      token, then role; `None` stands for the `null` left when no branch runs. */
  function Dispatch(o: IdentityValue, handle: nat): Option<SecurityIdentity>
    requires o.Obj?
  {
    if o.asUser.Some? then Some(FromAccount(o.asUser.value, handle))
    else if o.asToken.Some? then Some(FromToken(o.asToken.value, handle))
    else if o.asRole.Some? then Some(FromRole(o.asRole.value, handle))
    else None
  }

  /** Resolves `v` into a new security identity object whose allocation is
      `handle`. */
  function ResolveIdentity(v: IdentityValue, handle: nat): (r: Result<SecurityIdentity, Error>)
    // Rejected exactly when the value is neither a string nor an object with
    // one of the interfaces.
    ensures r.Failure? <==> v.Scalar? || (v.Obj? && !HasCapability(v))
    ensures r.Failure? ==> r.error == InvalidIdentity
    // The result is always a newly built object.
    ensures r.Success? ==> r.value.handle == handle
    // A string names a role.
    ensures v.Str? ==> r == Success(Sid(handle, RoleName(v.name)))
    // A user wins over a token, a token over a role.
    ensures v.Obj? && v.asUser.Some? ==>
      r == Success(Sid(handle, UserKey(v.asUser.value.username, v.asUser.value.className)))
    ensures v.Obj? && v.asUser.None? && v.asToken.Some? ==>
      r == Success(Sid(handle, UserKey(v.asToken.value.user.username, v.asToken.value.user.className)))
    ensures v.Obj? && v.asUser.None? && v.asToken.None? && v.asRole.Some? ==>
      r == Success(Sid(handle, RoleName(v.asRole.value)))
  {
    if v.Scalar? then Failure(InvalidIdentity)
    else
      var o := AsObject(v);
      if !HasCapability(o) then Failure(InvalidIdentity)
      else
        match Dispatch(o, handle)
        case None => Failure(InvalidIdentity)
        case Some(sid) => Success(sid)
  }

  /** A string is resolved exactly as a role object of that name would be,
      whatever the role object's class. */
  lemma StringAsRole(name: string, roleClass: string, handle: nat)
    ensures ResolveIdentity(Str(name), handle) == ResolveIdentity(Obj(roleClass, None, None, Some(name)), handle)
  {
  }

  /** The null check at the end of the resolver is defensive only: once the
      capability check passed, the dispatch chain always builds an identity. */
  lemma DispatchNeverNull(o: IdentityValue, handle: nat)
    requires o.Obj? && HasCapability(o)
    ensures Dispatch(o, handle).Some?
    ensures Dispatch(o, handle).value.handle == handle
  {
  }

  /** Resolving the same value twice builds two distinct objects that name the
      same principal or role. */
  lemma ResolveKeyDeterministic(v: IdentityValue, h1: nat, h2: nat)
    requires h1 != h2
    ensures ResolveIdentity(v, h1).Success? <==> ResolveIdentity(v, h2).Success?
    ensures ResolveIdentity(v, h1).Success? ==>
      ResolveIdentity(v, h1).value.kind == ResolveIdentity(v, h2).value.kind
      && ResolveIdentity(v, h1).value != ResolveIdentity(v, h2).value
  {
  }
}
