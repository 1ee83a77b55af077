/** AuthController: registration with username normalisation and its
    checks in a fixed order, login, and the current-user lookup. */
module AuthController {
  import opened Wrappers
  import opened JavaText
  import opened Accounts
  import opened Http

  /** The request bodies; `None` is a JSON member that is absent or null. */
  datatype RegisterRequest = RegisterRequest(username: Option<string>, password: Option<string>, displayName: Option<string>)
  datatype LoginRequest = LoginRequest(username: Option<string>, password: Option<string>)

  const ShortUsername := "Username must be at least 2 characters (letters, numbers, hyphens)"
  const ShortPassword := "Password must be at least 4 characters"
  const UsernameTaken := "Username already taken"
  const BadCredentials := "Invalid username or password"

  // ---------------------------------------------------------------------
  // Username normalisation
  // ---------------------------------------------------------------------

  /** The characters the pattern [a-z0-9_-] admits. */
  predicate UsernameChar(c: char) {
    ('a' <= c <= 'z') || ('0' <= c <= '9') || c == '_' || c == '-'
  }

  /** replaceAll("[^a-z0-9_-]", ""): every admitted character kept, in
      order, every other one dropped. */
  function KeepUsernameChars(s: string): (r: string)
    ensures forall i :: 0 <= i < |r| ==> UsernameChar(r[i])
    decreases |s|
  {
    if |s| == 0 then []
    else
      var init := KeepUsernameChars(s[..|s| - 1]);
      var c := s[|s| - 1];
      if UsernameChar(c) then init + [c] else init
  }

  /** The strip works piece by piece: stripping a concatenation strips
      each part and keeps them in order. */
  lemma {:induction false} KeepAppend(a: string, b: string)
    ensures KeepUsernameChars(a + b) == KeepUsernameChars(a) + KeepUsernameChars(b)
    decreases |b|
  {
    if |b| > 0 {
      KeepAppend(a, b[..|b| - 1]);
      assert (a + b)[..|a + b| - 1] == a + b[..|b| - 1];
      assert (a + b)[|a + b| - 1] == b[|b| - 1];
    } else {
      assert a + b == a;
    }
  }

  /** A single character is kept iff the pattern admits it. */
  lemma KeepOne(c: char)
    ensures KeepUsernameChars([c]) == if UsernameChar(c) then [c] else []
  {
  }

  /** The strip keeps each admitted character as often as it occurs and
      no other character. */
  lemma {:induction false} KeepCounts(s: string)
    ensures forall c :: UsernameChar(c) ==> multiset(KeepUsernameChars(s))[c] == multiset(s)[c]
    ensures forall c :: !UsernameChar(c) ==> multiset(KeepUsernameChars(s))[c] == 0
    decreases |s|
  {
    if |s| > 0 {
      var init := s[..|s| - 1];
      var c := s[|s| - 1];
      KeepCounts(init);
      assert s == init + [c];
      assert multiset(s) == multiset(init) + multiset{c};
    }
  }

  /** Nothing is dropped from a string of admitted characters. */
  lemma {:induction false} KeepAdmitted(s: string)
    requires forall i :: 0 <= i < |s| ==> UsernameChar(s[i])
    ensures KeepUsernameChars(s) == s
    decreases |s|
  {
    if |s| > 0 {
      var init := s[..|s| - 1];
      KeepAdmitted(init);
      assert UsernameChar(s[|s| - 1]);
      assert KeepUsernameChars(s) == KeepUsernameChars(init) + [s[|s| - 1]];
      assert init + [s[|s| - 1]] == s;
    }
  }

  /** The stored form of a username: trimmed, lower-cased, stripped. */
  function NormalizeUsername(raw: string): (u: string)
    ensures forall i :: 0 <= i < |u| ==> UsernameChar(u[i])
  {
    KeepUsernameChars(Lower(Trim(raw)))
  }

  /** Trimming and lower-casing leave a normalised username alone. */
  lemma NormalizedIsLoginForm(u: string)
    requires forall i :: 0 <= i < |u| ==> UsernameChar(u[i])
    ensures Lower(Trim(u)) == u
  {
    TrimKeepsUntrimmable(u);
  }

  /** Normalising twice changes nothing. */
  lemma NormalizeIdempotent(raw: string)
    ensures NormalizeUsername(NormalizeUsername(raw)) == NormalizeUsername(raw)
  {
    var u := NormalizeUsername(raw);
    NormalizedIsLoginForm(u);
    KeepAdmitted(u);
  }

  // ---------------------------------------------------------------------
  // register, login, me
  // ---------------------------------------------------------------------

  /** The display name stored at registration: the supplied one trimmed
      (even if that leaves it empty), else the username. */
  function DisplayNameFor(req: RegisterRequest, username: string): string {
    if req.displayName.Some? then Trim(req.displayName.value) else username
  }

  /** The password passes the length check: at least four UTF-16 code
      units, as String.length() counts them. */
  predicate PasswordAccepted(req: RegisterRequest) {
    req.password.Some? && JavaLength(req.password.value) >= 4
  }

  /** Two characters above U+FFFF make a password of Java length four, so
      it passes the check although it holds only two characters; a
      password of four or more characters always passes. */
  lemma PasswordLengthInUnits(req: RegisterRequest)
    ensures req.password == Some("\U{1F600}\U{1F600}") ==> PasswordAccepted(req)
    ensures req.password.Some? && |req.password.value| >= 4 ==> PasswordAccepted(req)
  {
  }

  /** POST /api/auth/register. A null username escapes as a
      NullPointerException. Otherwise the checks run in order (username
      length, password, uniqueness) and the first that fails answers
      without touching the table or the session; if all pass, the user is
      saved with the encoded password and signed in. */
  function Register(users: Users, session: Session, req: RegisterRequest, pe: PasswordEncoder, freshId: int)
    : (r: (Users, Session, Response))
    requires FreshUserId(users, freshId)
    ensures req.username.None? ==> r == (users, session, Escaped)
    ensures req.username.Some? ==>
      var u := NormalizeUsername(req.username.value);
      && (|u| < 2 ==> r.2 == Response(BadRequest, ErrorBody(ShortUsername)))
      && (|u| >= 2 && !PasswordAccepted(req) ==> r.2 == Response(BadRequest, ErrorBody(ShortPassword)))
      && (|u| >= 2 && PasswordAccepted(req) && ExistsByUsername(users, u) ==>
            r.2 == Response(Conflict, ErrorBody(UsernameTaken)))
      && (r.2.status == Created <==> |u| >= 2 && PasswordAccepted(req) && !ExistsByUsername(users, u))
      && (r.2.status == Created ==>
            var user := User(freshId, u, Some(DisplayNameFor(req, u)), pe.encode(req.password.value));
            && r.0 == users + [user]
            && r.1 == SignedIn(user)
            && r.2.body == AuthBody(u, Some(DisplayNameFor(req, u))))
    ensures r.2.status != Created ==> r.0 == users && r.1 == session
  {
    if req.username.None? then (users, session, Escaped)
    else
      var u := NormalizeUsername(req.username.value);
      if |u| < 2 then (users, session, Response(BadRequest, ErrorBody(ShortUsername)))
      else if !PasswordAccepted(req) then (users, session, Response(BadRequest, ErrorBody(ShortPassword)))
      else if ExistsByUsername(users, u) then (users, session, Response(Conflict, ErrorBody(UsernameTaken)))
      else
        var saved := SaveUser(users, u, Some(DisplayNameFor(req, u)), pe.encode(req.password.value), freshId);
        (saved.0, SignedIn(saved.1), Response(Created, AuthBody(saved.1.username, saved.1.displayName)))
  }

  /** POST /api/auth/login. The username is trimmed and lower-cased but not
      stripped. An unknown user and a wrong password get the same 401; a
      null password reaches the encoder, which rejects it, only when the
      user exists. */
  function Login(users: Users, session: Session, req: LoginRequest, pe: PasswordEncoder): (r: (Session, Response))
    ensures r.1.status in {Ok, Unauthorized, ServerError}
    ensures req.username.None? ==> r == (session, Escaped)
    ensures r.1.status == Unauthorized ==> r == (session, Response(Unauthorized, ErrorBody(BadCredentials)))
    ensures r.1.status == Ok <==>
              && req.username.Some? && req.password.Some?
              && var found := FindByUsername(users, Lower(Trim(req.username.value)));
                 found.Some? && pe.matches(req.password.value, found.value.password)
    ensures r.1.status == Ok ==>
              var user := FindByUsername(users, Lower(Trim(req.username.value))).value;
              r == (SignedIn(user), Response(Ok, AuthBody(user.username, user.displayName)))
    ensures r.1.status == ServerError ==> r.0 == session
    ensures req.username.Some? && FindByUsername(users, Lower(Trim(req.username.value))).None? ==>
              r == (session, Response(Unauthorized, ErrorBody(BadCredentials)))
    ensures req.username.Some? && req.password.Some? ==>
              var found := FindByUsername(users, Lower(Trim(req.username.value)));
              found.Some? && !pe.matches(req.password.value, found.value.password) ==>
                r == (session, Response(Unauthorized, ErrorBody(BadCredentials)))
    ensures r.1.status == ServerError ==> r == (session, Escaped)
    ensures r.1.status == ServerError <==>
              || req.username.None?
              || (FindByUsername(users, Lower(Trim(req.username.value))).Some? && req.password.None?)
  {
    if req.username.None? then (session, Escaped)
    else
      match FindByUsername(users, Lower(Trim(req.username.value)))
      case None => (session, Response(Unauthorized, ErrorBody(BadCredentials)))
      case Some(user) =>
        if req.password.None? then (session, Escaped)
        else if pe.matches(req.password.value, user.password) then
          (SignedIn(user), Response(Ok, AuthBody(user.username, user.displayName)))
        else (session, Response(Unauthorized, ErrorBody(BadCredentials)))
  }

  /** GET /api/auth/me: 401 without a signed-in id or when the id no longer
      names a user, else that user. */
  function Me(users: Users, session: Session): (resp: Response)
    ensures session.userId.None? ==> resp == Response(Unauthorized, ErrorBody("Not authenticated"))
    ensures session.userId.Some? && FindById(users, session.userId.value).None? ==>
              resp == Response(Unauthorized, ErrorBody("User not found"))
    ensures resp.status == Ok <==> session.userId.Some? && FindById(users, session.userId.value).Some?
    ensures resp.status == Ok ==>
              var user := FindById(users, session.userId.value).value;
              resp.body == AuthBody(user.username, user.displayName)
  {
    if session.userId.None? then Response(Unauthorized, ErrorBody("Not authenticated"))
    else
      match FindById(users, session.userId.value)
      case None => Response(Unauthorized, ErrorBody("User not found"))
      case Some(user) => Response(Ok, AuthBody(user.username, user.displayName))
  }

  // ---------------------------------------------------------------------
  // Round trips
  // ---------------------------------------------------------------------

  /** After a successful registration, logging in with the stored username
      and the same password succeeds and signs in the new user. */
  lemma RegisterThenLogin(users: Users, session: Session, req: RegisterRequest, pe: PasswordEncoder, freshId: int,
                          later: Session)
    requires FreshUserId(users, freshId) && Sound(pe)
    requires Register(users, session, req, pe, freshId).2.status == Created
    ensures var r := Register(users, session, req, pe, freshId);
      var u := NormalizeUsername(req.username.value);
      Login(r.0, later, LoginRequest(Some(u), req.password), pe) == (r.1, Response(Ok, r.2.body))
  {
    var u := NormalizeUsername(req.username.value);
    NormalizedIsLoginForm(u);
    SavedUserFound(users, u, Some(DisplayNameFor(req, u)), pe.encode(req.password.value), freshId);
  }

  /** The session a registration leaves names the new user. */
  lemma RegisterThenMe(users: Users, session: Session, req: RegisterRequest, pe: PasswordEncoder, freshId: int)
    requires FreshUserId(users, freshId)
    requires Register(users, session, req, pe, freshId).2.status == Created
    ensures var r := Register(users, session, req, pe, freshId);
      Me(r.0, r.1) == Response(Ok, r.2.body)
  {
    var u := NormalizeUsername(req.username.value);
    SavedUserFound(users, u, Some(DisplayNameFor(req, u)), pe.encode(req.password.value), freshId);
  }

  /** Registering the same username again is a conflict. */
  lemma RegisterTwiceConflicts(users: Users, session: Session, req: RegisterRequest, pe: PasswordEncoder,
                               freshId: int, secondId: int)
    requires FreshUserId(users, freshId)
    requires Register(users, session, req, pe, freshId).2.status == Created
    requires FreshUserId(Register(users, session, req, pe, freshId).0, secondId)
    ensures var r := Register(users, session, req, pe, freshId);
      Register(r.0, r.1, req, pe, secondId).2 == Response(Conflict, ErrorBody(UsernameTaken))
  {
    var r := Register(users, session, req, pe, freshId);
    assert r.0[|users|].username == NormalizeUsername(req.username.value);
  }

  /** A registration that strips characters stores a name that the
      original spelling does not log in with. */
  lemma StrippedNameNeedsStoredForm(raw: string)
    requires exists i :: 0 <= i < |Lower(Trim(raw))| && !UsernameChar(Lower(Trim(raw))[i])
    ensures Lower(Trim(raw)) != NormalizeUsername(raw)
  {
    var i :| 0 <= i < |Lower(Trim(raw))| && !UsernameChar(Lower(Trim(raw))[i]);
    KeepCounts(Lower(Trim(raw)));
    assert Lower(Trim(raw))[i] in multiset(Lower(Trim(raw)));
  }
}
