/** The permission check meant to gate privileged endpoints (no route in the
    code calls it): a user holding the wildcard permission passes every check; otherwise one permission shared
    with the endpoint's list is enough (the endpoint's list is read with OR,
    not AND). The check reads nothing but its two arguments. */
module Authorization {

  /** The permission name that stands for every permission. */
  const Wildcard: string := "*.*"

  /** The decision, as a statement about membership. */
  predicate Authorized(held: seq<string>, required: seq<string>) {
    Wildcard in held || exists p :: p in held && p in required
  }

  /** `PermissionClaimsService.required_permissions`: the wildcard test, then a
      scan of the user's permissions that returns at the first one the
      endpoint lists. */
  method RequiredPermissions(permissionsNames: seq<string>, endpointPermissions: seq<string>)
    returns (granted: bool)
    ensures granted == Authorized(permissionsNames, endpointPermissions)
  {
    if Wildcard in permissionsNames {
      return true;
    }
    for i := 0 to |permissionsNames|
      invariant forall j | 0 <= j < i :: permissionsNames[j] !in endpointPermissions
    {
      if permissionsNames[i] in endpointPermissions {
        return true;
      }
    }
    return false;
  }

  /** The wildcard grants every endpoint, one that lists nothing included. */
  lemma WildcardGrantsAll(held: seq<string>, required: seq<string>)
    requires Wildcard in held
    ensures Authorized(held, required)
  {
  }

  /** Without the wildcard, access is granted exactly when some held
      permission occurs in the endpoint's list. */
  lemma GrantedIffShared(held: seq<string>, required: seq<string>)
    requires Wildcard !in held
    ensures Authorized(held, required) <==> exists i | 0 <= i < |held| :: held[i] in required
  {
  }

  /** OR semantics: one shared permission suffices, whatever else the
      endpoint lists. */
  lemma OneSharedSuffices(held: seq<string>, required: seq<string>, p: string)
    requires p in held && p in required
    ensures Authorized(held, required)
  {
  }

  /** A user holding nothing is refused. */
  lemma NothingHeldDenied(required: seq<string>)
    ensures !Authorized([], required)
  {
  }

  /** An endpoint that lists nothing admits only the wildcard holder. */
  lemma NothingRequiredNeedsWildcard(held: seq<string>)
    ensures Authorized(held, []) <==> Wildcard in held
  {
  }

  /** The wildcard counts on the user's side only: an endpoint that lists
      nothing but the wildcard admits only users holding it. */
  lemma EndpointWildcardIsLiteral(held: seq<string>, required: seq<string>)
    requires forall q | q in required :: q == Wildcard
    ensures Authorized(held, required) <==> Wildcard in held
  {
  }

  /** Holding more never loses access, and neither does an endpoint listing more. */
  lemma Monotonic(held: seq<string>, more: seq<string>, required: seq<string>, moreRequired: seq<string>)
    requires forall p | p in held :: p in more
    requires forall q | q in required :: q in moreRequired
    ensures Authorized(held, required) ==> Authorized(more, moreRequired)
  {
  }

  /** Only membership matters: order and repetition in either list do not. */
  lemma MembershipOnly(held: seq<string>, held': seq<string>, required: seq<string>, required': seq<string>)
    requires forall p :: p in held <==> p in held'
    requires forall q :: q in required <==> q in required'
    ensures Authorized(held, required) == Authorized(held', required')
  {
  }

  /** A user holding `groups.read_groups` may read groups but not delete them;
      a user holding the wildcard may do both. */
  lemma ReadGroupsScenario()
    ensures Authorized(["groups.read_groups"], ["groups.read_groups"])
    ensures !Authorized(["groups.read_groups"], ["groups.delete_group"])
    ensures Authorized([Wildcard], ["groups.delete_group"])
  {
    assert "groups.read_groups" in ["groups.read_groups"];
  }
}
