/** SecurityConfig: the table deciding which paths need a signed-in
    session, the filter that turns the session's attributes into an
    authentication, and the 401 answer for a protected path without one. */
module Security {
  import opened Wrappers
  import opened JavaText
  import opened Accounts
  import opened Http

  datatype Access = PermitAll | Authenticated

  /** A path pattern of the table. `Subtree(base)` is a pattern written
      as the base followed by a slash and two stars: it matches the base
      itself and every path below it. `Exact(path)` matches that path only. */
  datatype Pattern = Exact(path: string) | Subtree(base: string)

  predicate PatternMatches(pattern: Pattern, path: string) {
    match pattern
    case Exact(p) => path == p
    case Subtree(base) => path == base || StartsWith(path, base + "/")
  }

  /** The text every path a pattern matches begins with. */
  function Stem(pattern: Pattern): string {
    match pattern
    case Exact(p) => p
    case Subtree(base) => base
  }

  /** A pattern only matches paths that begin with its stem. */
  lemma MatchHasStem(pattern: Pattern, path: string)
    ensures PatternMatches(pattern, path) ==>
              |Stem(pattern)| <= |path| && forall j :: 0 <= j < |Stem(pattern)| ==> path[j] == Stem(pattern)[j]
  {
    if pattern.Subtree? && StartsWith(path, pattern.base + "/") {
      forall j | 0 <= j < |pattern.base| ensures path[j] == pattern.base[j] {
        assert path[j] == path[..|pattern.base| + 1][j] == (pattern.base + "/")[j];
      }
    }
  }

  /** One differing character inside the stem rules a path out. */
  lemma MismatchAt(pattern: Pattern, path: string, j: nat)
    requires j < |Stem(pattern)| && j < |path| && path[j] != Stem(pattern)[j]
    ensures !PatternMatches(pattern, path)
  {
    MatchHasStem(pattern, path);
  }

  /** The patterns every visitor may reach. */
  const PermittedPatterns: seq<Pattern> := [
    Subtree("/api/auth"), Subtree("/api/search"), Exact("/api/search"), Subtree("/api/sets"), Exact("/api/sets"),
    Exact("/api/rarities"), Exact("/api/types"), Exact("/api/categories"), Subtree("/api/u")]

  /** The patterns that need an authenticated request. */
  const ProtectedPatterns: seq<Pattern> := [Subtree("/api/collection"), Exact("/api/scan")]

  /** The rules in the order they are declared; the first rule whose
      pattern matches decides, and anything else is permitted. */
  function Rules(): (rules: seq<(Pattern, Access)>)
    ensures |rules| == |PermittedPatterns| + |ProtectedPatterns|
    ensures forall i :: 0 <= i < |PermittedPatterns| ==> rules[i] == (PermittedPatterns[i], PermitAll)
    ensures forall i :: 0 <= i < |ProtectedPatterns| ==>
              rules[|PermittedPatterns| + i] == (ProtectedPatterns[i], Authenticated)
  {
    seq(|PermittedPatterns|, i requires 0 <= i < |PermittedPatterns| => (PermittedPatterns[i], PermitAll))
    + seq(|ProtectedPatterns|, i requires 0 <= i < |ProtectedPatterns| => (ProtectedPatterns[i], Authenticated))
  }

  /** The access of the first matching rule, or `fallback` when none does. */
  function FirstMatch(rules: seq<(Pattern, Access)>, path: string, fallback: Access): (a: Access)
    ensures (forall i :: 0 <= i < |rules| ==> !PatternMatches(rules[i].0, path)) ==> a == fallback
    ensures (exists i :: 0 <= i < |rules| && PatternMatches(rules[i].0, path)) ==>
              exists i :: 0 <= i < |rules| && PatternMatches(rules[i].0, path) && a == rules[i].1
                          && forall j :: 0 <= j < i ==> !PatternMatches(rules[j].0, path)
    decreases |rules|
  {
    if |rules| == 0 then fallback
    else if PatternMatches(rules[0].0, path) then rules[0].1
    else
      var a := FirstMatch(rules[1..], path, fallback);
      assert forall i :: 1 <= i < |rules| ==> rules[i] == rules[1..][i - 1];
      a
  }

  /** The access the table gives a path. */
  function AccessFor(path: string): Access {
    FirstMatch(Rules(), path, PermitAll)
  }

  /** A path some permitted pattern matches is open, whatever follows. */
  lemma PermittedWins(path: string, i: nat)
    requires i < |PermittedPatterns| && PatternMatches(PermittedPatterns[i], path)
    ensures AccessFor(path) == PermitAll
  {
    var rules := Rules();
    FirstMatchUpTo(rules, path, PermitAll, i, PermitAll);
  }

  /** When a rule matches and it and every rule before it grant `a`, the
      first match grants `a`. */
  lemma {:induction false} FirstMatchUpTo(rules: seq<(Pattern, Access)>, path: string, fallback: Access, i: nat, a: Access)
    requires i < |rules| && PatternMatches(rules[i].0, path)
    requires forall j :: 0 <= j <= i ==> rules[j].1 == a
    ensures FirstMatch(rules, path, fallback) == a
    decreases i
  {
    if !PatternMatches(rules[0].0, path) {
      assert rules[1..][i - 1] == rules[i];
      FirstMatchUpTo(rules[1..], path, fallback, i - 1, a);
    }
  }

  /** The paths the protected patterns match. */
  predicate ProtectedPath(path: string) {
    path == "/api/collection" || StartsWith(path, "/api/collection/") || path == "/api/scan"
  }

  /** Protected exactly: /api/collection, every path below it, and
      /api/scan. */
  lemma ProtectedPaths(path: string)
    ensures AccessFor(path) == Authenticated <==> ProtectedPath(path)
  {
    if ProtectedPath(path) {
      ProtectedIsAuthenticated(path);
    }
    OnlyProtectedAuthenticated(path);
  }

  lemma ProtectedIsAuthenticated(path: string)
    requires ProtectedPath(path)
    ensures AccessFor(path) == Authenticated
  {
    var rules := Rules();
    var n := |PermittedPatterns|;
    NoPermitMatches(path);
    assert "/api/collection" + "/" == "/api/collection/";
    assert PatternMatches(rules[n].0, path) || PatternMatches(rules[n + 1].0, path);
    var k :| 0 <= k < |rules| && PatternMatches(rules[k].0, path) && AccessFor(path) == rules[k].1;
    assert k >= n;
  }

  lemma OnlyProtectedAuthenticated(path: string)
    ensures AccessFor(path) == Authenticated ==> ProtectedPath(path)
  {
    var rules := Rules();
    var n := |PermittedPatterns|;
    if PatternMatches(Subtree("/api/collection"), path) {
      assert "/api/collection" + "/" == "/api/collection/";
    } else if !PatternMatches(Exact("/api/scan"), path) {
      forall i | 0 <= i < |rules| && PatternMatches(rules[i].0, path) ensures rules[i].1 == PermitAll {
        assert i < n;
      }
    }
  }

  /** None of the permitted patterns matches a protected path. */
  lemma NoPermitMatches(path: string)
    requires ProtectedPath(path)
    ensures forall i :: 0 <= i < |PermittedPatterns| ==> !PatternMatches(PermittedPatterns[i], path)
  {
    if path == "/api/scan" {
      ScanNotPermitted(path);
    } else {
      assert path[..15] == "/api/collection" by {
        if path != "/api/collection" {
          assert path[..15] == path[..16][..15];
        }
      }
      CollectionNotPermitted(path);
    }
  }

  lemma ScanNotPermitted(path: string)
    requires path == "/api/scan"
    ensures forall i :: 0 <= i < |PermittedPatterns| ==> !PatternMatches(PermittedPatterns[i], path)
  {
    assert path[5] == 's' && path[6] == 'c';
    ScanNotFirstFive(path);
    ScanNotLastFour(path);
  }

  lemma ScanNotFirstFive(path: string)
    requires |path| >= 7 && path[5] == 's' && path[6] == 'c'
    ensures forall i :: 0 <= i < 5 ==> !PatternMatches(PermittedPatterns[i], path)
  {
    var ps := PermittedPatterns;
    MismatchAt(ps[0], path, 5);
    MismatchAt(ps[1], path, 6);
    MismatchAt(ps[2], path, 6);
    MismatchAt(ps[3], path, 6);
    MismatchAt(ps[4], path, 6);
  }

  lemma ScanNotLastFour(path: string)
    requires |path| >= 7 && path[5] == 's'
    ensures forall i :: 5 <= i < 9 ==> !PatternMatches(PermittedPatterns[i], path)
  {
    var ps := PermittedPatterns;
    MismatchAt(ps[5], path, 5);
    MismatchAt(ps[6], path, 5);
    MismatchAt(ps[7], path, 5);
    MismatchAt(ps[8], path, 5);
  }

  lemma CollectionNotPermitted(path: string)
    requires |path| >= 15 && path[..15] == "/api/collection"
    ensures forall i :: 0 <= i < |PermittedPatterns| ==> !PatternMatches(PermittedPatterns[i], path)
  {
    assert path[5] == path[..15][5] == 'c' && path[6] == path[..15][6] == 'o';
    CollectionNotFirstFive(path);
    CollectionNotLastFour(path);
  }

  lemma CollectionNotFirstFive(path: string)
    requires |path| >= 7 && path[5] == 'c'
    ensures forall i :: 0 <= i < 5 ==> !PatternMatches(PermittedPatterns[i], path)
  {
    var ps := PermittedPatterns;
    MismatchAt(ps[0], path, 5);
    MismatchAt(ps[1], path, 5);
    MismatchAt(ps[2], path, 5);
    MismatchAt(ps[3], path, 5);
    MismatchAt(ps[4], path, 5);
  }

  lemma CollectionNotLastFour(path: string)
    requires |path| >= 7 && path[5] == 'c' && path[6] == 'o'
    ensures forall i :: 5 <= i < 9 ==> !PatternMatches(PermittedPatterns[i], path)
  {
    var ps := PermittedPatterns;
    MismatchAt(ps[5], path, 5);
    MismatchAt(ps[6], path, 5);
    MismatchAt(ps[7], path, 6);
    MismatchAt(ps[8], path, 5);
  }

  /** The sign-in routes, the catalog search and the public listings are
      open to every visitor. */
  lemma PublicPathsPermitted(path: string)
    requires StartsWith(path, "/api/u/") || StartsWith(path, "/api/auth/") || StartsWith(path, "/api/search/")
    ensures AccessFor(path) == PermitAll
  {
    if StartsWith(path, "/api/u/") {
      PermittedWins(path, 8);
    } else if StartsWith(path, "/api/auth/") {
      PermittedWins(path, 0);
    } else {
      PermittedWins(path, 1);
    }
  }

  /** sessionAuthFilter: a request is authenticated, with the username as
      principal, iff it has a session holding both attributes. */
  function Principal(session: Option<Session>): (p: Option<string>)
    ensures p.Some? <==> session.Some? && session.value.userId.Some? && session.value.username.Some?
    ensures p.Some? ==> p.value == session.value.username.value
  {
    match session
    case None => None
    case Some(s) => if s.userId.Some? && s.username.Some? then s.username else None
  }

  /** What becomes of a request: it reaches the controller, with or
      without an authentication, or the entry point answers it. */
  datatype Outcome = Forward(principal: Option<string>) | Reject(response: Response)

  const NotAuthenticated := Response(Unauthorized, ErrorBody("Not authenticated"))

  /** The filter always passes the request on; the authorisation rules then
      turn away a protected path without an authentication. */
  function Dispatch(path: string, session: Option<Session>): (o: Outcome)
    ensures o.Reject? <==> AccessFor(path) == Authenticated && Principal(session).None?
    ensures o.Reject? ==> o.response == NotAuthenticated
    ensures o.Forward? ==> o.principal == Principal(session)
  {
    if AccessFor(path) == Authenticated && Principal(session).None? then Reject(NotAuthenticated)
    else Forward(Principal(session))
  }

  /** A protected request that gets through carries a session with a user
      id, which the collection handlers read. */
  lemma ForwardedProtectedHasUser(path: string, session: Option<Session>)
    requires AccessFor(path) == Authenticated
    requires Dispatch(path, session).Forward?
    ensures session.Some? && session.value.userId.Some? && session.value.username.Some?
  {
  }

  /** The session a login or a registration leaves passes every path. */
  lemma SignedInPasses(path: string, u: User)
    ensures Dispatch(path, Some(SignedIn(u))) == Forward(Some(u.username))
  {
  }
}
