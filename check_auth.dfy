/** The route guard of Frontend/src/components/check-auth.jsx and the route table of
    Frontend/src/main.jsx that wraps every page in it. The token is what
    `localStorage.getItem("token")` returns: None for a missing key. */
module CheckAuth {
  import opened JsValues

  datatype Decision = RedirectTo(path: string) | RenderChildren

  /** `!!token`: a stored, non-empty string. */
  predicate HasToken(token: Option<string>)
  {
    token.Some? && token.value != ""
  }

  /** `CheckAuth({ children, protectedRoute })`. A page is shown exactly when its kind
      fits the visitor: a protected page to a holder of a token, a public one to someone
      without; otherwise the visitor is sent to the login page or to the home page. */
  function Guard(protectedRoute: bool, token: Option<string>): (d: Decision)
    ensures d == RenderChildren <==> protectedRoute == HasToken(token)
    ensures d == RedirectTo("/login") <==> protectedRoute && !HasToken(token)
    ensures d == RedirectTo("/") <==> !protectedRoute && HasToken(token)
  {
    if protectedRoute && !HasToken(token) then RedirectTo("/login")
    else if !protectedRoute && HasToken(token) then RedirectTo("/")
    else RenderChildren
  }

  /** The decision depends on the token only through its truthiness. */
  lemma GuardSeesOnlyTruthiness(protectedRoute: bool, t1: Option<string>, t2: Option<string>)
    requires HasToken(t1) == HasToken(t2)
    ensures Guard(protectedRoute, t1) == Guard(protectedRoute, t2)
  {
  }

  /** An empty stored token counts as none. */
  lemma EmptyTokenIsNoToken(protectedRoute: bool)
    ensures Guard(protectedRoute, Some("")) == Guard(protectedRoute, None)
  {
  }

  /** Whether a path of the route table is wrapped as protected: "/", "/tickets/:id" and
      "/admin" are; "/login", "/signup" and "/forgot-password" are not. None for a path
      the table does not hold. */
  function RouteProtected(path: string): Option<bool>
  {
    if path == "/" || path == "/admin" || (|path| > 9 && path[..9] == "/tickets/" && '/' !in path[9..]) then Some(true)
    else if path == "/login" || path == "/signup" || path == "/forgot-password" then Some(false)
    else None
  }

  /** A redirect never leads to another redirect: the guard sends the visitor to a route
      of the table that it then renders, whatever the token. */
  lemma RedirectsSettle(path: string, token: Option<string>)
    requires RouteProtected(path).Some?
    ensures var d := Guard(RouteProtected(path).value, token);
      d.RedirectTo? ==>
        RouteProtected(d.path).Some? && Guard(RouteProtected(d.path).value, token) == RenderChildren
  {
    var d := Guard(RouteProtected(path).value, token);
    if d == RedirectTo("/login") {
      assert RouteProtected("/login") == Some(false);
    } else if d == RedirectTo("/") {
      assert RouteProtected("/") == Some(true);
    }
  }
}
