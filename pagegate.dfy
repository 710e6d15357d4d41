/** The frontend's request middleware, which gates pages on the `token` cookie. The token verifier is
    a parameter: `verify(token)` is the decoded payload, or None when verification fails. */
module PageGate {
  import opened Wrappers
  import opened Store

  datatype Action = Next | Redirect(location: string)

  /** `context.locals.user`: never assigned, set to null, or set to the decoded payload. */
  datatype LocalUser = Unset | Anonymous | SignedIn(user: Payload)

  /** What the middleware does: where the request goes, whether the cookie is deleted, what the page sees. */
  datatype Outcome = Outcome(action: Action, cookieDeleted: bool, user: LocalUser)

  const ApiPrefix := "/api/"
  const LoginPage := "/login"
  const HomePage := "/dashboard"
  const ProtectedPrefixes := ["/dashboard", "/budget", "/tasks", "/guests", "/notes", "/config"]

  /** A page path under one of the protected prefixes (a plain prefix test, so `/budgets` counts). */
  predicate IsProtected(path: string) {
    exists i :: 0 <= i < |ProtectedPrefixes| && ProtectedPrefixes[i] <= path
  }

  predicate IsApi(path: string) {
    ApiPrefix <= path
  }

  /** The cookie holds a token that verifies. */
  predicate SignedInWith(token: Option<string>, verify: string -> Option<Payload>) {
    Truthy(token) && verify(token.value).Some?
  }

  /** The middleware for one request to `path` carrying the cookie value `token`. */
  function OnRequest(path: string, token: Option<string>, verify: string -> Option<Payload>): (r: Outcome)
    ensures IsApi(path) ==> r == Outcome(Next, false, Unset)
    ensures r.action == Redirect(LoginPage) <==> !IsApi(path) && IsProtected(path) && !SignedInWith(token, verify)
    ensures r.action == Redirect(HomePage) <==> !IsApi(path) && path == LoginPage && SignedInWith(token, verify)
    ensures r.action.Next? <==> (
      IsApi(path) ||
      ((!IsProtected(path) || SignedInWith(token, verify)) && (path != LoginPage || !SignedInWith(token, verify))))
    ensures r.cookieDeleted <==> !IsApi(path) && Truthy(token) && verify(token.value).None?
    ensures r.user == Anonymous <==> r.cookieDeleted
    ensures r.user.SignedIn? <==> !IsApi(path) && SignedInWith(token, verify)
    ensures r.user.SignedIn? ==> verify(token.value) == Some(r.user.user)
  {
    assert !IsProtected(LoginPage) by {
      assert forall i :: 0 <= i < |ProtectedPrefixes| ==> ProtectedPrefixes[i][1] != LoginPage[1];
    }
    if IsApi(path) then Outcome(Next, false, Unset)
    else if IsProtected(path) && !Truthy(token) then Outcome(Redirect(LoginPage), false, Unset)
    else if !Truthy(token) then Outcome(Next, false, Unset)
    else match verify(token.value)
      case None => Outcome(if IsProtected(path) then Redirect(LoginPage) else Next, true, Anonymous)
      case Some(p) => Outcome(if path == LoginPage then Redirect(HomePage) else Next, false, SignedIn(p))
  }

  /** The prefix test reaches past the page names: `/budgets` and `/configuration` are protected, while
      `/api` without its slash is neither skipped nor protected. */
  lemma PrefixReach()
    ensures IsProtected("/budgets") && IsProtected("/configuration")
    ensures !IsApi("/api") && !IsProtected("/api")
  {
    assert ProtectedPrefixes[1] <= "/budgets";
    assert ProtectedPrefixes[5] <= "/configuration";
    assert forall i :: 0 <= i < |ProtectedPrefixes| ==> ProtectedPrefixes[i][1] != "/api"[1];
  }
}
