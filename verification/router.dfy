/**
 * The front end's route table and the navigation guard that runs before
 * every navigation: it may first re-check the session, then allows the
 * navigation or redirects it to the login page or the dashboard.
 */
module Router {
  import opened Wrappers
  import opened AuthStore

  /** A route record; an absent meta flag is false. */
  datatype RouteRecord = RouteRecord(path: string, name: string, requiresAuth: bool, requiresAdmin: bool)

  /** A navigation target: its path and the route records it matched. */
  datatype Target = Target(path: string, matched: seq<RouteRecord>)

  datatype Decision = Allow | Redirect(path: string)

  const NotFound: RouteRecord := RouteRecord("/:pathMatch(.*)*", "NotFound", false, false)

  /** The application's routes in declaration order, the catch-all last. */
  const Routes: seq<RouteRecord> := [
    RouteRecord("/", "LandingPage", false, false),
    RouteRecord("/dashboard", "Dashboard", true, false),
    RouteRecord("/login", "Login", false, false),
    RouteRecord("/time-registrations", "TimeRegistrations", true, false),
    RouteRecord("/admin/time-registrations", "AdminTimeRegistrations", true, true),
    RouteRecord("/settings", "Settings", true, false),
    RouteRecord("/profile", "Profile", true, false),
    RouteRecord("/change-password", "ChangePassword", true, false),
    RouteRecord("/preferences", "Preferences", true, false),
    RouteRecord("/users", "UserManagement", true, true),
    NotFound
  ]

  /** The first record whose path is `path`, or the catch-all. */
  function FindRoute(routes: seq<RouteRecord>, path: string): (r: RouteRecord)
    ensures r in routes || r == NotFound
    ensures r != NotFound ==> r.path == path
    ensures (exists x :: x in routes && x.path == path) ==> r.path == path
  {
    if routes == [] then NotFound
    else if routes[0].path == path then routes[0]
    else FindRoute(routes[1..], path)
  }

  /** The target a path resolves to in the route table. */
  function Resolve(path: string): (t: Target)
    ensures t.path == path && |t.matched| == 1
  {
    Target(path, [FindRoute(Routes, path)])
  }

  /** A flag holds for a target when any matched record carries it. */
  predicate RequiresAuth(t: Target)
  {
    exists r :: r in t.matched && r.requiresAuth
  }

  predicate RequiresAdmin(t: Target)
  {
    exists r :: r in t.matched && r.requiresAdmin
  }

  /** `authStore.user?.role === 'admin'`. */
  predicate SignedInAdmin(s: AuthState)
  {
    s.user.Some? && s.user.value.role == "admin"
  }

  /** The guard's decision once the session check, if any, is done; the first matching rule wins. */
  function Decide(s: AuthState, to: Target): (d: Decision)
    ensures d == Redirect("/login") <==> RequiresAuth(to) && !IsAuthenticated(s)
    ensures d == Redirect("/dashboard") <==>
            !(RequiresAuth(to) && !IsAuthenticated(s))
            && ((RequiresAdmin(to) && !SignedInAdmin(s)) || (to.path == "/login" && IsAuthenticated(s)))
    ensures d == Allow || d == Redirect("/login") || d == Redirect("/dashboard")
  {
    if RequiresAuth(to) && !IsAuthenticated(s) then Redirect("/login")
    else if RequiresAdmin(to) && !SignedInAdmin(s) then Redirect("/dashboard")
    else if to.path == "/login" && IsAuthenticated(s) then Redirect("/dashboard")
    else Allow
  }

  /**
   * `beforeEach`: with a token but no user loaded, the session is checked
   * first (the server's reply is `check`); then the decision is taken on the
   * resulting state.
   */
  function Guard(s: AuthState, to: Target, check: UserReply): (result: (AuthState, Decision))
    ensures IsAuthenticated(s) && s.user.None? ==> result.0 == CheckAuth(s, check).0
    ensures !(IsAuthenticated(s) && s.user.None?) ==> result.0 == s
    ensures result.1 == Decide(result.0, to)
  {
    var after := if IsAuthenticated(s) && s.user.None? then CheckAuth(s, check).0 else s;
    (after, Decide(after, to))
  }

  /** No two records of a table share a path. */
  predicate DistinctPaths(routes: seq<RouteRecord>)
  {
    forall i, j :: 0 <= i < j < |routes| ==> routes[i].path != routes[j].path
  }

  /** In a table without repeated paths a record is found by its own path. */
  lemma {:induction false} FindRouteByPath(routes: seq<RouteRecord>, x: RouteRecord)
    requires DistinctPaths(routes) && x in routes
    ensures FindRoute(routes, x.path) == x
  {
    if routes[0] != x {
      assert routes[0].path != x.path by {
        var k :| 0 <= k < |routes| && routes[k] == x;
      }
      assert DistinctPaths(routes[1..]) by {
        forall i, j | 0 <= i < j < |routes[1..]|
          ensures routes[1..][i].path != routes[1..][j].path
        {
          assert routes[1..][i] == routes[i + 1] && routes[1..][j] == routes[j + 1];
        }
      }
      FindRouteByPath(routes[1..], x);
    }
  }

  lemma RoutesDistinct()
    ensures DistinctPaths(Routes)
  {
  }

  /** The flags of each record of the table, read off its path. */
  lemma RecordFlags(x: RouteRecord)
    requires x in Routes
    ensures x.requiresAdmin <==> x.path == "/admin/time-registrations" || x.path == "/users"
    ensures !x.requiresAuth <==> x.path == "/" || x.path == "/login" || x == NotFound
  {
  }

  /** The record a path resolves to: the one declared with that path, or the catch-all. */
  lemma ResolvedRecord(path: string)
    ensures var r := FindRoute(Routes, path);
            (r.path == path && r in Routes) || (r == NotFound && forall x :: x in Routes ==> x.path != path)
  {
    var r := FindRoute(Routes, path);
    if exists x :: x in Routes && x.path == path {
      var x :| x in Routes && x.path == path;
      RoutesDistinct();
      FindRouteByPath(Routes, x);
    }
  }

  /** Exactly the two admin pages require the admin role. */
  lemma AdminPages(path: string)
    ensures RequiresAdmin(Resolve(path)) <==> path == "/admin/time-registrations" || path == "/users"
  {
    var r := FindRoute(Routes, path);
    ResolveFlags(path);
    ResolvedRecord(path);
    if r == NotFound {
      assert Routes[4].path == "/admin/time-registrations" && Routes[9].path == "/users";
    } else {
      RecordFlags(r);
    }
  }

  /** A flag of a resolved path is the flag of the one record it resolves to. */
  lemma ResolveFlags(path: string)
    ensures RequiresAuth(Resolve(path)) <==> FindRoute(Routes, path).requiresAuth
    ensures RequiresAdmin(Resolve(path)) <==> FindRoute(Routes, path).requiresAdmin
  {
    assert FindRoute(Routes, path) in Resolve(path).matched;
  }

  /** Every page but the landing page, the login page and unknown paths requires a session. */
  lemma SessionPages(path: string)
    ensures !RequiresAuth(Resolve(path)) <==> path == "/" || path == "/login" || forall x :: x in Routes ==> x.path != path || x == NotFound
  {
    var r := FindRoute(Routes, path);
    ResolveFlags(path);
    ResolvedRecord(path);
    if r != NotFound {
      RecordFlags(r);
    }
  }

  /** Without a session an admin page sends the visitor to the login page, not the dashboard: the session rule comes first. */
  lemma SignedOutAdminPageGoesToLogin(s: AuthState, to: Target, check: UserReply)
    requires RequiresAuth(to) && RequiresAdmin(to)
    requires !IsAuthenticated(s) || (s.user.None? && check.FetchFailed?)
    ensures Guard(s, to, check).1 == Redirect("/login")
  {
  }

  /** A signed-in manager asking for an admin page is sent to the dashboard. */
  lemma ManagerAdminPageGoesToDashboard(s: AuthState, to: Target, check: UserReply)
    requires IsAuthenticated(s) && s.user.Some? && s.user.value.role == "manager"
    requires RequiresAdmin(to)
    ensures Guard(s, to, check) == (s, Redirect("/dashboard"))
  {
  }

  /** A stored token whose user is fetched as an admin reaches the admin page without signing in again. */
  lemma RestoredAdminSessionAllowed(saved: string, u: AuthUser)
    requires saved != "" && u.role == "admin"
    ensures Guard(Initial(Some(saved)), Resolve("/users"), Fetched(u)).1 == Allow
  {
    AdminPages("/users");
  }
}
