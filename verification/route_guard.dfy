/** The request middleware: which paths it runs on, and its redirect decision as a function of
    the path and whether the request carries a session. */
module RouteGuard {
  import opened Text

  /** The paths that need a session. */
  const ProtectedPaths: seq<string> := ["/dashboard", "/cart", "/checkout"]

  /** `protectedPaths.some(path => pathname.startsWith(path))`, walking the list. */
  function AnyPrefix(path: string, prefixes: seq<string>): (r: bool)
    ensures r <==> exists k :: 0 <= k < |prefixes| && StartsWith(path, prefixes[k])
  {
    if |prefixes| == 0 then false
    else
      var rest := AnyPrefix(path, prefixes[1..]);
      assert forall k :: 1 <= k < |prefixes| ==> prefixes[1..][k - 1] == prefixes[k];
      StartsWith(path, prefixes[0]) || rest
  }

  predicate IsProtected(path: string) {
    AnyPrefix(path, ProtectedPaths)
  }

  /** A protected path is one that starts with one of the three prefixes, so the test also
      catches longer names such as `/cartx`. */
  lemma ProtectedMeansPrefixed(path: string)
    ensures IsProtected(path) <==>
      StartsWith(path, "/dashboard") || StartsWith(path, "/cart") || StartsWith(path, "/checkout")
    ensures IsProtected("/cartx") && IsProtected("/dashboard/settings")
    ensures !IsProtected("/login") && !IsProtected("/") && !IsProtected("/p/abc")
  {
    assert ProtectedPaths[0] == "/dashboard" && ProtectedPaths[1] == "/cart" && ProtectedPaths[2] == "/checkout";
    assert StartsWith("/cartx", ProtectedPaths[1]);
    assert StartsWith("/dashboard/settings", ProtectedPaths[0]);
    assert "/login"[1] == 'l';
    assert "/p/abc"[1] == 'p';
  }

  /** The two sign-in pages a signed-in user is sent away from. */
  predicate IsAuthPage(path: string) {
    path == "/login" || path == "/register"
  }

  datatype Decision = Redirect(to: string) | Pass

  /** The middleware's decision: a protected path without a session goes to `/login`; with a
      session, the sign-in pages go to `/dashboard`; everything else passes. */
  function Decide(path: string, hasSession: bool): (d: Decision)
    ensures d == Redirect("/login") <==> IsProtected(path) && !hasSession
    ensures d == Redirect("/dashboard") <==> hasSession && IsAuthPage(path)
    ensures d == Pass <==> !(IsProtected(path) && !hasSession) && !(hasSession && IsAuthPage(path))
    ensures d.Redirect? ==> d.to == "/login" || d.to == "/dashboard"
  {
    if IsProtected(path) && !hasSession then Redirect("/login")
    else if hasSession && IsAuthPage(path) then Redirect("/dashboard")
    else Pass
  }

  /** A redirect never leads to a second redirect: `/login` passes without a session and
      `/dashboard` passes with one. */
  lemma RedirectsSettle(path: string, hasSession: bool)
    ensures Decide(path, hasSession).Redirect? ==> Decide(Decide(path, hasSession).to, hasSession) == Pass
  {
    ProtectedMeansPrefixed("/login");
    assert StartsWith("/dashboard", ProtectedPaths[0]);
  }

  /** The paths the middleware runs on: all but those matched by the negative lookahead
      `(?!_next/static|_next/image|icon.svg)` after the leading slash, where the `.` of
      `icon.svg` matches any character. */
  predicate Matched(path: string) {
    !(|path| >= 1 && path[0] == '/' &&
      (StartsWith(path[1..], "_next/static") || StartsWith(path[1..], "_next/image") ||
       (|path| >= 9 && path[1..5] == "icon" && path[6..9] == "svg")))
  }

  /** The full effect on a request: unmatched paths always pass. */
  function Guard(path: string, hasSession: bool): (d: Decision)
    ensures !Matched(path) ==> d == Pass
    ensures Matched(path) ==> d == Decide(path, hasSession)
  {
    if Matched(path) then Decide(path, hasSession) else Pass
  }

  /** The sign-in page is always reachable without a session, and the protected pages always
      reachable with one. */
  lemma LoginReachableWithoutSession(path: string)
    ensures Guard("/login", false) == Pass
    ensures IsProtected(path) && !IsAuthPage(path) ==> Guard(path, true) == Pass
  {
    ProtectedMeansPrefixed("/login");
  }
}
