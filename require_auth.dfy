/** The permission check of `RequireAuth` and `withAuth`: a user passes when one of their
    roles is the administrator role, or when one of their roles carries a permission whose
    code is among the accepted ones. Only role and permission codes matter; the other
    fields of the role records are left out. */
module RequireAuth {
  import opened JsValues

  const AdminCode := "ADMIN"

  /** A role of the user, with the codes of the permissions attached to it. */
  datatype Role = Role(code: string, permissionCodes: seq<string>)

  /** The per-role test: an administrator role, or a role with some accepted permission. */
  predicate Grants(role: Role, accept: seq<string>) {
    role.code == AdminCode || exists j :: 0 <= j < |role.permissionCodes| && role.permissionCodes[j] in accept
  }

  /** `role.rolePermissions.find(p => accept.includes(p.permission.code))`: the first
      permission code that is accepted. */
  function FindPermission(codes: seq<string>, accept: seq<string>): (r: Option<string>)
    ensures r.Some? <==> exists j :: 0 <= j < |codes| && codes[j] in accept
    ensures r.Some? ==> r.value in codes && r.value in accept
    ensures r.Some? ==> exists j :: 0 <= j < |codes| && codes[j] == r.value && forall i :: 0 <= i < j ==> codes[i] !in accept
  {
    if |codes| == 0 then None
    else if codes[0] in accept then Some(codes[0])
    else
      var r := FindPermission(codes[1..], accept);
      assert forall j :: 1 <= j < |codes| ==> codes[j] == codes[1..][j - 1];
      r
  }

  /** The callback of `userRoles.find`: ADMIN returns true before permissions are looked at. */
  predicate RoleMatches(role: Role, accept: seq<string>) {
    if role.code == AdminCode then true else FindPermission(role.permissionCodes, accept).Some?
  }

  /** `userRoles.find(...)`: the first role the callback accepts. */
  function FindRole(roles: seq<Role>, accept: seq<string>): (r: Option<Role>)
    ensures r.Some? ==> r.value in roles && RoleMatches(r.value, accept)
    ensures r.None? ==> forall i :: 0 <= i < |roles| ==> !RoleMatches(roles[i], accept)
    ensures r.Some? ==> exists i :: (0 <= i < |roles| && roles[i] == r.value
      && forall k :: 0 <= k < i ==> !RoleMatches(roles[k], accept))
  {
    if |roles| == 0 then None
    else if RoleMatches(roles[0], accept) then Some(roles[0])
    else
      var r := FindRole(roles[1..], accept);
      assert forall i :: 1 <= i < |roles| ==> roles[i] == roles[1..][i - 1];
      r
  }

  /** `hasPermission`: `!!userRoles.find(...)`. */
  predicate HasPermission(roles: seq<Role>, accept: seq<string>) {
    FindRole(roles, accept).Some?
  }

  /** The search agrees with the specification: some role is ADMIN or holds some accepted
      permission. This is "any of", not "all of", the accepted codes. */
  lemma HasPermissionIff(roles: seq<Role>, accept: seq<string>)
    ensures HasPermission(roles, accept) <==> exists i :: 0 <= i < |roles| && Grants(roles[i], accept)
  {
    if HasPermission(roles, accept) {
      var r := FindRole(roles, accept).value;
      var i :| 0 <= i < |roles| && roles[i] == r;
      assert Grants(roles[i], accept);
    } else {
      forall i | 0 <= i < |roles|
        ensures !Grants(roles[i], accept)
      {
        assert !RoleMatches(roles[i], accept);
      }
    }
  }

  /** What `RequireAuth` renders. */
  datatype Rendered = Children | Nothing

  /** `RequireAuth`: without a list of accepted codes the children are rendered as they are. */
  function RequireAuth(roles: seq<Role>, acceptAuths: Option<seq<string>>): (r: Rendered)
    ensures acceptAuths.None? ==> r == Children
  {
    if acceptAuths.None? then Children
    else if HasPermission(roles, acceptAuths.value) then Children
    else Nothing
  }

  /** An administrator passes every list, the empty one included. */
  lemma AdminAlwaysPasses(roles: seq<Role>, acceptAuths: Option<seq<string>>, i: int)
    requires 0 <= i < |roles| && roles[i].code == AdminCode
    ensures RequireAuth(roles, acceptAuths) == Children
  {
    if acceptAuths.Some? {
      HasPermissionIff(roles, acceptAuths.value);
      assert Grants(roles[i], acceptAuths.value);
    }
  }

  /** With an empty list of accepted codes only an administrator passes; with no roles at
      all nobody does. */
  lemma EmptyListOnlyAdmin(roles: seq<Role>)
    ensures RequireAuth(roles, Some([])) == Children <==> exists i :: 0 <= i < |roles| && roles[i].code == AdminCode
    ensures RequireAuth([], Some([])) == Nothing
  {
    HasPermissionIff(roles, []);
    if exists i :: 0 <= i < |roles| && roles[i].code == AdminCode {
      var i :| 0 <= i < |roles| && roles[i].code == AdminCode;
      assert Grants(roles[i], []);
    }
  }

  /** Accepting more codes never shuts a user out. */
  lemma MoreAcceptedCodesKeepAccess(roles: seq<Role>, accept: seq<string>, more: seq<string>)
    requires HasPermission(roles, accept)
    ensures HasPermission(roles, accept + more) && HasPermission(roles, more + accept)
  {
    HasPermissionIff(roles, accept);
    HasPermissionIff(roles, accept + more);
    HasPermissionIff(roles, more + accept);
    var i :| 0 <= i < |roles| && Grants(roles[i], accept);
    assert Grants(roles[i], accept + more) && Grants(roles[i], more + accept);
  }

  /** What the component made by `withAuth` shows. */
  datatype Outcome = Navigate(to: string) | RenderWrapped

  /** `withAuth(Component, requiredPermissions)` for the current auth state. */
  function WithAuth(isAuthenticated: bool, roles: seq<Role>, required: seq<string>): (r: Outcome)
    ensures !isAuthenticated ==> r == Navigate("/login")
  {
    if !isAuthenticated then Navigate("/login")
    else if !HasPermission(roles, required) then Navigate("/unauthorized")
    else RenderWrapped
  }

  /** The complete decision of `withAuth`: login first, then the any-of permission check. */
  lemma WithAuthDecision(isAuthenticated: bool, roles: seq<Role>, required: seq<string>)
    ensures WithAuth(isAuthenticated, roles, required) == RenderWrapped <==>
      isAuthenticated && exists i :: 0 <= i < |roles| && Grants(roles[i], required)
    ensures WithAuth(isAuthenticated, roles, required) == Navigate("/unauthorized") <==>
      isAuthenticated && forall i :: 0 <= i < |roles| ==> !Grants(roles[i], required)
  {
    HasPermissionIff(roles, required);
  }

  /** One permission out of several listed is enough to see the wrapped component, even
      though the helper's documentation speaks of "all" required permissions. */
  lemma OnePermissionSuffices(name: string, p: string, q: string)
    requires name != AdminCode && p != q
    ensures WithAuth(true, [Role(name, [p])], [p, q]) == RenderWrapped
  {
    HasPermissionIff([Role(name, [p])], [p, q]);
    assert Grants(Role(name, [p]), [p, q]) by {
      assert Role(name, [p]).permissionCodes[0] == p;
    }
  }

  /** `withAuth` agrees with `RequireAuth` for an authenticated user with a list. */
  lemma WithAuthMatchesRequireAuth(roles: seq<Role>, required: seq<string>)
    ensures WithAuth(true, roles, required) == RenderWrapped <==> RequireAuth(roles, Some(required)) == Children
  {
  }
}
