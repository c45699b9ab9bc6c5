/** The decision `redirectAfterAuth` takes once the backend has answered:
    where a user goes after signing in, given the session and the result of
    the "groups owned by this user, at most one" query. */
module Routing {
  import opened Wrappers

  /** The client-side routes of the application. */
  datatype Route = Login | Cadastro | Visualizacao

  /** The path each route is served at. */
  function PathOf(r: Route): string {
    match r
    case Login => "/login"
    case Cadastro => "/cadastro"
    case Visualizacao => "/visualizacao"
  }

  /** The `<Route>` elements in the order they are listed: each path pattern
      with the page it shows. */
  const RouteTable: seq<(string, Route)> :=
    [("/", Login), ("/login", Login), ("/cadastro", Cadastro), ("/visualizacao", Visualizacao)]

  /** ASCII letters folded to lower case. A case-insensitive regular
      expression without the `u` flag folds no other character onto an
      ASCII one, and every route pattern is ASCII. */
  function LowerAscii(c: char): char {
    if 'A' <= c <= 'Z' then (c as int + 32) as char else c
  }

  /** The two strings are equal up to the case of ASCII letters. */
  predicate SameIgnoringCase(a: string, b: string) {
    |a| == |b| && forall i :: 0 <= i < |a| ==> LowerAscii(a[i]) == LowerAscii(b[i])
  }

  predicate AllSlashes(s: string) {
    forall i :: 0 <= i < |s| ==> s[i] == '/'
  }

  /** React Router 6's default matching of a route path without parameters:
      the pattern `q` compiles to `^q` then any run of slashes then `$`, with the `i` flag, so the path
      must be `q` up to case, followed by nothing but slashes. */
  predicate MatchesRoute(q: string, path: string) {
    |q| <= |path| && SameIgnoringCase(path[..|q|], q) && AllSlashes(path[|q|..])
  }

  /** The page of the first entry whose pattern matches the path. */
  function FirstMatch(table: seq<(string, Route)>, path: string): (r: Option<Route>)
    ensures r.Some? ==> exists i :: 0 <= i < |table| && table[i].1 == r.value && MatchesRoute(table[i].0, path)
    ensures r.None? ==> forall i :: 0 <= i < |table| ==> !MatchesRoute(table[i].0, path)
  {
    if table == [] then None
    else if MatchesRoute(table[0].0, path) then Some(table[0].1)
    else
      var r := FirstMatch(table[1..], path);
      assert forall i :: 1 <= i < |table| ==> table[i] == table[1..][i - 1];
      r
  }

  /** A pattern matches the path spelled the same way. */
  lemma MatchesItself(q: string)
    ensures MatchesRoute(q, q)
  {
    assert q[..|q|] == q;
  }

  /** Past the leading `/` the second character decides between patterns: a
      longer pattern fixes it up to case, the root pattern makes it a slash. */
  lemma SecondCharacter(q: string, path: string)
    requires |q| >= 1 && |path| >= 2
    requires MatchesRoute(q, path)
    ensures |q| >= 2 ==> LowerAscii(path[1]) == LowerAscii(q[1])
    ensures |q| == 1 ==> path[1] == '/'
  {
    if |q| >= 2 {
      assert path[..|q|][1] == path[1];
    } else {
      assert path[|q|..][0] == path[1];
    }
  }

  /** Each path written in the table reaches its own page, and no earlier
      pattern of the table matches it. */
  lemma TablePathsReachTheirPages()
    ensures !MatchesRoute("/", "/login")
    ensures !MatchesRoute("/", "/cadastro") && !MatchesRoute("/login", "/cadastro")
    ensures !MatchesRoute("/", "/visualizacao") && !MatchesRoute("/login", "/visualizacao")
    ensures !MatchesRoute("/cadastro", "/visualizacao")
    ensures FirstMatch(RouteTable, "/") == Some(Login)
    ensures FirstMatch(RouteTable, "/login") == Some(Login)
    ensures FirstMatch(RouteTable, "/cadastro") == Some(Cadastro)
    ensures FirstMatch(RouteTable, "/visualizacao") == Some(Visualizacao)
  {
    MatchesItself("/");
    MatchesItself("/login");
    MatchesItself("/cadastro");
    MatchesItself("/visualizacao");
    NotMatching("/", "/login");
    NotMatching("/", "/cadastro");
    NotMatching("/login", "/cadastro");
    NotMatching("/", "/visualizacao");
    NotMatching("/login", "/visualizacao");
    NotMatching("/cadastro", "/visualizacao");
  }

  /** A pattern whose second character differs from the path's does not
      match it. */
  lemma NotMatching(q: string, path: string)
    requires |q| >= 1 && |path| >= 2
    requires if |q| >= 2 then LowerAscii(path[1]) != LowerAscii(q[1]) else path[1] != '/'
    ensures !MatchesRoute(q, path)
  {
    if MatchesRoute(q, path) {
      SecondCharacter(q, path);
    }
  }

  /** The page `<Routes>` shows at a path: the login page at `/` and
      `/login`, the two other pages at their own paths, and none at a path
      no pattern matches. */
  function RouteAt(path: string): (r: Option<Route>)
    ensures r.Some? ==> exists i :: 0 <= i < |RouteTable| && RouteTable[i].1 == r.value && MatchesRoute(RouteTable[i].0, path)
    ensures r.None? ==> forall i :: 0 <= i < |RouteTable| ==> !MatchesRoute(RouteTable[i].0, path)
    ensures path == "/" || path == "/login" ==> r == Some(Login)
    ensures path == "/cadastro" ==> r == Some(Cadastro)
    ensures path == "/visualizacao" ==> r == Some(Visualizacao)
  {
    TablePathsReachTheirPages();
    FirstMatch(RouteTable, path)
  }

  /** Two paths that each pattern of the table matches alike get the same page. */
  lemma {:induction false} FirstMatchAgrees(table: seq<(string, Route)>, a: string, b: string)
    requires forall i :: 0 <= i < |table| ==> (MatchesRoute(table[i].0, a) <==> MatchesRoute(table[i].0, b))
    ensures FirstMatch(table, a) == FirstMatch(table, b)
  {
    if table != [] {
      assert forall i :: 0 <= i < |table[1..]| ==> table[1..][i] == table[i + 1];
      FirstMatchAgrees(table[1..], a, b);
    }
  }

  /** A path and the same path in other letter case match the same patterns. */
  lemma MatchesRouteIgnoresCase(q: string, a: string, b: string)
    requires SameIgnoringCase(a, b)
    ensures MatchesRoute(q, a) <==> MatchesRoute(q, b)
  {
    if |q| <= |a| {
      forall i | 0 <= i < |q|
        ensures LowerAscii(a[..|q|][i]) == LowerAscii(b[..|q|][i])
      {
        assert a[..|q|][i] == a[i] && b[..|q|][i] == b[i];
      }
      forall i | 0 <= i < |a| - |q|
        ensures a[|q|..][i] == '/' <==> b[|q|..][i] == '/'
      {
        assert a[|q|..][i] == a[|q| + i] && b[|q|..][i] == b[|q| + i];
      }
    }
  }

  /** Letter case does not matter: `/Login` shows the login page. */
  lemma RouteAtIgnoresCase(a: string, b: string)
    requires SameIgnoringCase(a, b)
    ensures RouteAt(a) == RouteAt(b)
  {
    forall i | 0 <= i < |RouteTable|
      ensures MatchesRoute(RouteTable[i].0, a) <==> MatchesRoute(RouteTable[i].0, b)
    {
      MatchesRouteIgnoresCase(RouteTable[i].0, a, b);
    }
    FirstMatchAgrees(RouteTable, a, b);
  }

  /** A pattern that is the root or does not end in a slash matches a
      non-empty path exactly when it matches that path with one more slash. */
  lemma MatchesRouteTrailingSlash(q: string, path: string)
    requires q == "/" || (q != [] && q[|q| - 1] != '/')
    requires path != []
    ensures MatchesRoute(q, path + "/") <==> MatchesRoute(q, path)
  {
    var longer := path + "/";
    if |q| <= |path| {
      assert longer[..|q|] == path[..|q|];
      var tail := path[|q|..];
      assert longer[|q|..] == tail + "/";
      assert AllSlashes(tail + "/") <==> AllSlashes(tail) by {
        assert forall k :: 0 <= k < |tail| ==> (tail + "/")[k] == tail[k];
        assert (tail + "/")[|tail|] == '/';
      }
    } else if |q| == |longer| && q != "/" {
      assert longer[..|q|][|q| - 1] == '/';
      assert LowerAscii(q[|q| - 1]) != '/';
    }
  }

  /** A trailing slash does not matter: `/login/` shows the login page. */
  lemma RouteAtIgnoresTrailingSlash(path: string)
    requires path != []
    ensures RouteAt(path + "/") == RouteAt(path)
  {
    forall i | 0 <= i < |RouteTable|
      ensures MatchesRoute(RouteTable[i].0, path + "/") <==> MatchesRoute(RouteTable[i].0, path)
    {
      var q := RouteTable[i].0;
      assert q == "/" || q[|q| - 1] == 'n' || q[|q| - 1] == 'o';
      MatchesRouteTrailingSlash(q, path);
    }
    FirstMatchAgrees(RouteTable, path + "/", path);
  }

  /** A path matches at most one pattern of the table, so neither the order
      of the `<Route>` elements nor React Router's ranking of them decides
      anything. */
  lemma RoutePatternsExclusive(path: string, i: int, j: int)
    requires 0 <= i < j < |RouteTable|
    ensures MatchesRoute(RouteTable[i].0, path) ==> !MatchesRoute(RouteTable[j].0, path)
  {
    var qi, qj := RouteTable[i].0, RouteTable[j].0;
    if MatchesRoute(qi, path) && |qj| <= |path| {
      SecondCharacter(qi, path);
      NotMatching(qj, path);
    }
  }

  /** Another spelling React Router sends to the login page. */
  lemma CapitalisedLoginWithSlash()
    ensures RouteAt("/Login/") == Some(Login)
  {
    var p, q := "/Login", "/login";
    assert p + "/" == "/Login/";
    RouteAtIgnoresTrailingSlash(p);
    assert SameIgnoringCase(p, q) by {
      forall k | 0 <= k < |p|
        ensures LowerAscii(p[k]) == LowerAscii(q[k])
      {
      }
    }
    RouteAtIgnoresCase(p, q);
    assert RouteAt(q) == Some(Login);
  }

  /** A run of slashes is the root. */
  lemma DoubleSlashIsRoot()
    ensures RouteAt("//") == Some(Login)
  {
    RouteAtIgnoresTrailingSlash("/");
  }

  /** A path that only starts like a pattern shows no page. */
  lemma LongerPathShowsNothing()
    ensures RouteAt("/logins") == None
  {
    NotMatching("/", "/logins");
    assert "/logins"[6..][0] == 's';
    NotMatching("/cadastro", "/logins");
  }

  /** A signed-in user, as far as the decision needs one. */
  datatype Session = Session(userId: string)

  /** A registered group row (only what the pages read of it). */
  datatype Group = Group(id: string, userId: string, name: string, representativeName: string, contactEmail: string)

  /** The query found a group: its `data` is present and not empty. A failed
      query leaves `data` null, and the two are treated alike. */
  predicate HasGroup(groups: Option<seq<Group>>): (found: bool)
    ensures found <==> groups.Some? && exists row :: row in groups.value
  {
    match groups
    case None => false
    case Some(rows) => if |rows| == 0 then false else assert rows[0] in rows; true
  }

  /** `redirectAfterAuth` without its I/O. */
  function RedirectAfterAuth(session: Option<Session>, groups: Option<seq<Group>>): (r: Route)
    ensures r == Login <==> session.None?
    ensures r == Visualizacao <==> session.Some? && HasGroup(groups)
    ensures r == Cadastro <==> session.Some? && !HasGroup(groups)
  {
    if session.None? then Login
    else if groups.Some? && |groups.value| > 0 then Visualizacao
    else Cadastro
  }

  /** Every route's path leads back to that route, so the three paths differ. */
  lemma PathsRoundTrip(r: Route)
    ensures RouteAt(PathOf(r)) == Some(r)
  {
  }

  /** The rows themselves never matter, only whether there is one: which
      group comes first, or how many come back, changes nothing. */
  lemma OnlyPresenceMatters(session: Option<Session>, g1: Option<seq<Group>>, g2: Option<seq<Group>>)
    requires HasGroup(g1) == HasGroup(g2)
    ensures RedirectAfterAuth(session, g1) == RedirectAfterAuth(session, g2)
  {
  }

  /** A null result (a failed query) routes exactly as an empty one. */
  lemma FailedQueryIsNoGroup(session: Session)
    ensures RedirectAfterAuth(Some(session), None) == RedirectAfterAuth(Some(session), Some([]))
    ensures RedirectAfterAuth(Some(session), None) == Cadastro
  {
  }

  /** `select('*').eq('user_id', userId).limit(1)` over a table of group
      rows: some row the user owns, if any (without an `order` the backend
      picks none in particular); the model takes the first in table order. */
  function OwnGroupQuery(table: seq<Group>, userId: string): (rows: seq<Group>)
    ensures |rows| <= 1
    ensures forall g :: g in rows ==> g in table && g.userId == userId
    ensures |rows| == 0 <==> forall g :: g in table ==> g.userId != userId
  {
    if table == [] then []
    else if table[0].userId == userId then [table[0]]
    else OwnGroupQuery(table[1..], userId)
  }

  /** A signed-in user lands on the existing-record view exactly when some
      group row belongs to them, and on the registration form otherwise. */
  lemma ViewExactlyWhenOwningGroup(table: seq<Group>, session: Session)
    ensures RedirectAfterAuth(Some(session), Some(OwnGroupQuery(table, session.userId))) == Visualizacao
        <==> exists g :: g in table && g.userId == session.userId
  {
  }

  /** Once a group has been saved for the user, signing in again leads to
      the existing-record view. */
  lemma SavedGroupLeadsToView(table: seq<Group>, session: Session, saved: Group)
    requires saved.userId == session.userId
    ensures RedirectAfterAuth(Some(session), Some(OwnGroupQuery(table + [saved], session.userId))) == Visualizacao
  {
  }
}
