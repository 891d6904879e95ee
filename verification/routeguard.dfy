/** The request middleware that guards the admin area: a pure decision on
    the request path, whether a session exists, and the `redirect` query
    parameter. */
module RouteGuard {
  import opened Core
  import opened Text

  const AdminPrefix: string := "/gohte-architects/admin"
  const LoginPath: string := "/gohte-architects/auth/login"

  /** Let the request through, or redirect it to `target`, carrying
      `redirect=<original path>` when `back` is set. */
  datatype Decision = Pass | Redirect(target: string, back: Option<string>)

  /** `middleware`. */
  function Decide(path: string, hasSession: bool, redirect: Option<string>): (d: Decision)
    ensures StartsWith(path, AdminPrefix) && !hasSession ==> d == Redirect(LoginPath, Some(path))
    ensures StartsWith(path, AdminPrefix) && hasSession ==> d == Pass
    ensures path == LoginPath && hasSession && Truthy(redirect) ==> d == Redirect(redirect.value, None)
    ensures path == LoginPath && hasSession && !Truthy(redirect) ==> d == Redirect(AdminPrefix, None)
    ensures d == Pass <==> !(StartsWith(path, AdminPrefix) && !hasSession) && !(path == LoginPath && hasSession)
  {
    LoginOutsideAdmin();
    if StartsWith(path, AdminPrefix) && !hasSession then
      Redirect(LoginPath, Some(path))
    else if path == LoginPath && hasSession then
      Redirect(if Truthy(redirect) then redirect.value else AdminPrefix, None)
    else
      Pass
  }

  /** The login page is not under the admin prefix, so at most one of the
      two redirect rules can apply to a request. */
  lemma LoginOutsideAdmin()
    ensures !StartsWith(LoginPath, AdminPrefix)
  {
    assert LoginPath[19] != AdminPrefix[19];
  }

  /** An admin path without a session goes to the login URL carrying the
      path in `redirect`; a new request for that login URL with a session
      goes back to the path. Whether the login page itself issues that
      request is outside the middleware. */
  lemma LoginBounceReturnsToOrigin(path: string)
    requires StartsWith(path, AdminPrefix)
    ensures Decide(path, false, None) == Redirect(LoginPath, Some(path))
    ensures Decide(LoginPath, true, Some(path)) == Redirect(path, None)
  {
  }

  /** Without a session the login page itself is let through, so the guard
      cannot loop. */
  lemma LoginWithoutSessionPasses(redirect: Option<string>)
    ensures Decide(LoginPath, false, redirect) == Pass
  {
    LoginOutsideAdmin();
  }
}
