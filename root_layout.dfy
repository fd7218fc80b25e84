/** `RootLayout`: the outermost route decides, from the auth state and the path, whether to
    show the loading screen, send the visitor to the login page, send a signed-in user away
    from the auth pages, or render the page. */
module RootLayout {
  import RequireAuth

  datatype Screen = Loading | Redirect(to: string) | Outlet

  predicate StartsWith(s: string, prefix: string) {
    |prefix| <= |s| && s[..|prefix|] == prefix
  }

  const AuthPrefix := "/auth"
  const LoginPath := "/auth/login"
  const HomePath := "/"

  /** The ordered chain of checks of the layout. */
  function Decide(isLoading: bool, isAuthenticated: bool, pathname: string): (r: Screen)
    ensures r.Redirect? ==> r.to in {LoginPath, HomePath}
  {
    if isLoading then Loading
    else if !isAuthenticated && !StartsWith(pathname, AuthPrefix) then Redirect(LoginPath)
    else if isAuthenticated && StartsWith(pathname, AuthPrefix) then Redirect(HomePath)
    else Outlet
  }

  /** The decision table: each outcome with exactly the states that produce it. The four
      cases are disjoint and cover every state. */
  lemma DecisionTable(isLoading: bool, isAuthenticated: bool, pathname: string)
    ensures Decide(isLoading, isAuthenticated, pathname) == Loading <==> isLoading
    ensures Decide(isLoading, isAuthenticated, pathname) == Redirect(LoginPath) <==>
      !isLoading && !isAuthenticated && !StartsWith(pathname, AuthPrefix)
    ensures Decide(isLoading, isAuthenticated, pathname) == Redirect(HomePath) <==>
      !isLoading && isAuthenticated && StartsWith(pathname, AuthPrefix)
    ensures Decide(isLoading, isAuthenticated, pathname) == Outlet <==>
      !isLoading && (isAuthenticated <==> !StartsWith(pathname, AuthPrefix))
  {
  }

  /** Following a redirect lands on a page that renders: the layout never redirects twice
      in a row for the same auth state. */
  lemma RedirectSettles(isAuthenticated: bool, pathname: string)
    requires Decide(false, isAuthenticated, pathname).Redirect?
    ensures Decide(false, isAuthenticated, Decide(false, isAuthenticated, pathname).to) == Outlet
  {
    assert StartsWith(LoginPath, AuthPrefix) by {
      assert LoginPath[..|AuthPrefix|] == AuthPrefix;
    }
    assert !StartsWith(HomePath, AuthPrefix);
  }

  /** The prefix test is on characters, not path segments: "/authors" counts as an auth page. */
  lemma PrefixIsNotASegment()
    ensures Decide(false, true, "/authors") == Redirect(HomePath)
    ensures Decide(false, false, "/authors") == Outlet
  {
    assert "/authors"[..5] == AuthPrefix;
  }

  /** The pages `withAuth` wraps sit under this layout at paths outside "/auth". The layout
      renders them only for a signed-in user, so the wrapper's own redirect to "/login" (a
      path with no route) is never taken: a signed-out visitor goes to "/auth/login". */
  lemma LoginRedirectUnreachable(isAuthenticated: bool, pathname: string, roles: seq<RequireAuth.Role>,
                                 required: seq<string>)
    requires !StartsWith(pathname, AuthPrefix)
    requires Decide(false, isAuthenticated, pathname) == Outlet
    ensures isAuthenticated
    ensures RequireAuth.WithAuth(isAuthenticated, roles, required) != RequireAuth.Navigate("/login")
  {
    assert "/login"[1] != "/unauthorized"[1];
  }
}
