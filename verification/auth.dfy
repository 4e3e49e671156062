/** Role checks of the HTTP middleware and the extraction of the bearer token. Verifying the
    JSON web token and loading the employee are parameters; password hashing is left out. */
module Auth {
  import opened Wrappers
  import opened Text

  /** The request's user as the middleware sees it. Only the role matters here; it may be
      absent, and an empty role is falsy in JavaScript. */
  datatype User = User(role: Option<string>)

  /** What a middleware does with a request: pass it on, or answer with a status and a
      message. */
  datatype Response = Next | Reject(status: int, message: string)

  /** `req.user?.role?.toLowerCase()`. */
  function LoweredRole(user: Option<User>): (r: Option<string>)
    ensures r.Some? <==> user.Some? && user.value.role.Some?
    ensures r.Some? ==> r.value == ToLower(user.value.role.value)
  {
    match user
    case None => None
    case Some(u) => match u.role
      case None => None
      case Some(role) => Some(ToLower(role))
  }

  /** The user has a role that JavaScript treats as truthy. */
  predicate HasRoleValue(user: Option<User>) {
    user.Some? && user.value.role.Some? && user.value.role.value != ""
  }

  /** Whether some allowed role equals `loweredRole` once lower-cased. */
  function AnyRoleMatches(loweredRole: string, allowedRoles: seq<string>): (r: bool)
    ensures r <==> exists i :: 0 <= i < |allowedRoles| && loweredRole == ToLower(allowedRoles[i])
  {
    if |allowedRoles| == 0 then false
    else if loweredRole == ToLower(allowedRoles[0]) then
      assert loweredRole == ToLower(allowedRoles[0]);
      true
    else
      var r := AnyRoleMatches(loweredRole, allowedRoles[1..]);
      assert forall i :: 1 <= i < |allowedRoles| ==> allowedRoles[i] == allowedRoles[1..][i - 1];
      r
  }

  /** `hasRole`: no user or no role means no; an administrator in any casing is always
      admitted; otherwise some allowed role must match without regard to case. */
  function HasRole(user: Option<User>, allowedRoles: seq<string>): (r: bool)
    ensures !HasRoleValue(user) ==> !r
    ensures HasRoleValue(user) && LoweredRole(user) == Some("admin") ==> r
    ensures HasRoleValue(user) && LoweredRole(user) != Some("admin")
            ==> (r <==> exists i :: 0 <= i < |allowedRoles|
                                   && LoweredRole(user).value == ToLower(allowedRoles[i]))
  {
    if !HasRoleValue(user) then false
    else
      var userRole := ToLower(user.value.role.value);
      if userRole == "admin" then true
      else AnyRoleMatches(userRole, allowedRoles)
  }

  /** `requireRole(...allowedRoles)`: 401 without a user, the next handler when `hasRole`
      admits the user, 403 otherwise. */
  function RequireRole(allowedRoles: seq<string>, user: Option<User>): (r: Response)
    ensures user.None? <==> r == Reject(401, "Not authenticated")
    ensures r == Next <==> HasRole(user, allowedRoles)
    ensures r.Reject? && r.status == 403 <==> user.Some? && !HasRole(user, allowedRoles)
    ensures r.Reject? && r.status == 403
            ==> r.message == "Access denied. Required role(s): " + Join(allowedRoles, ", ")
                             + " (or admin for full access)"
  {
    if user.None? then Reject(401, "Not authenticated")
    else if HasRole(user, allowedRoles) then Next
    else Reject(403, "Access denied. Required role(s): " + Join(allowedRoles, ", ")
                     + " (or admin for full access)")
  }

  /** `isAuthenticated`: any user passes. */
  function IsAuthenticated(user: Option<User>): (r: Response)
    ensures r == Next <==> user.Some?
    ensures r != Next ==> r == Reject(401, "Not authenticated")
  {
    if user.Some? then Next else Reject(401, "Not authenticated")
  }

  /** `isCEO`: only the role "ceo" in any casing; a missing user gets 403, not 401. */
  function IsCEO(user: Option<User>): (r: Response)
    ensures r == Next <==> LoweredRole(user) == Some("ceo")
    ensures r != Next ==> r == Reject(403, "Access denied. CEO role required.")
  {
    if LoweredRole(user) == Some("ceo") then Next
    else Reject(403, "Access denied. CEO role required.")
  }

  /** `isCEOOrAdmin`. */
  function IsCEOOrAdmin(user: Option<User>): (r: Response)
    ensures r == Next <==> LoweredRole(user) == Some("ceo") || LoweredRole(user) == Some("admin")
    ensures r != Next ==> r == Reject(403, "Access denied. CEO or Admin role required.")
  {
    var role := LoweredRole(user);
    if role == Some("ceo") || role == Some("admin") then Next
    else Reject(403, "Access denied. CEO or Admin role required.")
  }

  /** `canApprove`. */
  function CanApprove(user: Option<User>): (r: Response)
    ensures r == Next <==> LoweredRole(user) in {Some("ceo"), Some("admin"), Some("supervisor")}
    ensures r != Next ==> r == Reject(403, "Access denied. CEO, Admin, or Supervisor role required.")
  {
    var role := LoweredRole(user);
    if role == Some("ceo") || role == Some("admin") || role == Some("supervisor") then Next
    else Reject(403, "Access denied. CEO, Admin, or Supervisor role required.")
  }

  /** `isSupervisorOrCEO`: the cost-entry check, which deliberately turns administrators away. */
  function IsSupervisorOrCEO(user: Option<User>): (r: Response)
    ensures r == Next <==> LoweredRole(user) == Some("supervisor") || LoweredRole(user) == Some("ceo")
    ensures r != Next
            ==> r == Reject(403, "Access denied. Cost entry is restricted to supervisors (foremen) and CEO only.")
  {
    var role := LoweredRole(user);
    if role == Some("supervisor") || role == Some("ceo") then Next
    else Reject(403, "Access denied. Cost entry is restricted to supervisors (foremen) and CEO only.")
  }

  lemma LowerCaseLiteral(s: string)
    requires forall i :: 0 <= i < |s| ==> 'a' <= s[i] <= 'z'
    ensures ToLower(s) == s
  {
  }

  /** `isAuthenticated` turns away exactly the requests `requireRole` answers with 401,
      whatever roles the latter asks for, and lets through every user `requireRole` admits. */
  lemma AuthenticatedUnderRequireRole(user: Option<User>, allowedRoles: seq<string>)
    ensures IsAuthenticated(user) == Reject(401, "Not authenticated")
            <==> RequireRole(allowedRoles, user) == Reject(401, "Not authenticated")
    ensures RequireRole(allowedRoles, user) == Next ==> IsAuthenticated(user) == Next
  {
  }

  /** `isCEO` admits the users `hasRole(user, "ceo")` admits, except administrators. */
  lemma CEOExcludesAdmin(user: Option<User>)
    ensures IsCEO(user) == Next <==> HasRole(user, ["ceo"]) && LoweredRole(user) != Some("admin")
  {
    LowerCaseLiteral("ceo");
  }

  /** `isCEOOrAdmin` admits exactly the users `hasRole(user, "ceo")` admits. */
  lemma CEOOrAdminIsHasRole(user: Option<User>)
    ensures IsCEOOrAdmin(user) == Next <==> HasRole(user, ["ceo"])
  {
    LowerCaseLiteral("ceo");
  }

  /** `canApprove` admits exactly the users `hasRole(user, "ceo", "supervisor")` admits. */
  lemma CanApproveIsHasRole(user: Option<User>)
    ensures CanApprove(user) == Next <==> HasRole(user, ["ceo", "supervisor"])
  {
    if HasRoleValue(user) {
      TwoRoles(LoweredRole(user).value, "ceo", "supervisor");
    }
  }

  /** `isSupervisorOrCEO` admits the users `hasRole(user, "supervisor", "ceo")` admits,
      except administrators. */
  lemma SupervisorOrCEOExcludesAdmin(user: Option<User>)
    ensures IsSupervisorOrCEO(user) == Next
            <==> HasRole(user, ["supervisor", "ceo"]) && LoweredRole(user) != Some("admin")
  {
    if HasRoleValue(user) {
      TwoRoles(LoweredRole(user).value, "supervisor", "ceo");
    }
  }

  lemma TwoRoles(role: string, a: string, b: string)
    requires forall i :: 0 <= i < |a| ==> 'a' <= a[i] <= 'z'
    requires forall i :: 0 <= i < |b| ==> 'a' <= b[i] <= 'z'
    ensures AnyRoleMatches(role, [a, b]) <==> role == a || role == b
  {
    LowerCaseLiteral(a);
    LowerCaseLiteral(b);
    assert [a, b][1..] == [b];
  }

  /** Allowing more roles never turns a user away. */
  lemma HasRoleMonotone(user: Option<User>, allowed: seq<string>, more: seq<string>)
    requires forall i :: 0 <= i < |allowed| ==> allowed[i] in more
    ensures HasRole(user, allowed) ==> HasRole(user, more)
  {
    if HasRole(user, allowed) && LoweredRole(user) != Some("admin") {
      var i :| 0 <= i < |allowed| && LoweredRole(user).value == ToLower(allowed[i]);
      var j :| 0 <= j < |more| && more[j] == allowed[i];
      assert LoweredRole(user).value == ToLower(more[j]);
    }
  }

  /** The casing of the allowed roles does not matter. */
  lemma HasRoleIgnoresCase(user: Option<User>, allowed: seq<string>)
    ensures HasRole(user, LowerAll(allowed)) == HasRole(user, allowed)
  {
    forall i | 0 <= i < |allowed| ensures ToLower(LowerAll(allowed)[i]) == ToLower(allowed[i]) {
      ToLowerIdempotent(allowed[i]);
    }
  }

  function LowerAll(roles: seq<string>): (r: seq<string>)
    ensures |r| == |roles|
    ensures forall i :: 0 <= i < |r| ==> r[i] == ToLower(roles[i])
  {
    if |roles| == 0 then [] else [ToLower(roles[0])] + LowerAll(roles[1..])
  }

  /** The token of an `Authorization` header: what follows the prefix "Bearer ", or nothing
      when the header is missing or lacks the prefix. */
  function BearerToken(authHeader: Option<string>): (token: Option<string>)
    ensures token.Some? <==> authHeader.Some? && StartsWith(authHeader.value, "Bearer ")
    ensures token.Some? ==> authHeader.value == "Bearer " + token.value
  {
    match authHeader
    case Some(h) =>
      if StartsWith(h, "Bearer ") then
        assert h == h[..7] + h[7..];
        Some(h[7..])
      else None
    case None => None
  }

  /** Every token comes back out of the header it was put in. */
  lemma BearerTokenRoundTrip(token: string)
    ensures BearerToken(Some("Bearer " + token)) == Some(token)
  {
    assert ("Bearer " + token)[..7] == "Bearer ";
  }

  /** The employee row the token's subject refers to. */
  datatype Employee = Employee(username: Option<string>, password: Option<string>, role: Option<string>)

  /** `authenticateToken`: no token (or an empty one), an unverifiable token, an unknown
      employee or one without username and password all leave the request anonymous;
      otherwise the employee becomes the user, with role "user" when it has none. */
  function AuthenticateToken(
    authHeader: Option<string>,
    verify: string -> Option<int>,
    lookup: int -> Option<Employee>): (user: Option<User>)
    ensures BearerToken(authHeader).None? || BearerToken(authHeader) == Some("") ==> user.None?
    ensures user.Some? ==>
      && BearerToken(authHeader).Some?
      && verify(BearerToken(authHeader).value).Some?
      && lookup(verify(BearerToken(authHeader).value).value).Some?
    ensures user.Some? ==> HasRoleValue(user)
    ensures
      && BearerToken(authHeader).Some? && BearerToken(authHeader).value != ""
      && verify(BearerToken(authHeader).value).Some?
      && lookup(verify(BearerToken(authHeader).value).value).Some?
      ==> var e := lookup(verify(BearerToken(authHeader).value).value).value;
          && (user.Some? <==> e.username.Some? && e.username.value != ""
                              && e.password.Some? && e.password.value != "")
          && (user.Some? ==> user.value.role == Some(if e.role.None? || e.role.value == "" then "user"
                                                    else e.role.value))
  {
    var token := BearerToken(authHeader);
    if token.None? || token.value == "" then None
    else match verify(token.value)
      case None => None
      case Some(id) => match lookup(id)
        case None => None
        case Some(e) =>
          if e.username.Some? && e.username.value != "" && e.password.Some? && e.password.value != "" then
            Some(User(Some(if e.role.None? || e.role.value == "" then "user" else e.role.value)))
          else None
  }
}
