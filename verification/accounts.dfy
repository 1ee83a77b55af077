/** The user table, its finders, the password encoder and the HTTP
    session's two attributes. User.java and UserRepository.java are not
    part of this model: the user row holds the columns the controllers
    read and write, and the finders are the derived queries their names
    describe. */
module Accounts {
  import opened Wrappers

  /** One row of the users table; `displayName` may be null. */
  datatype User = User(id: int, username: string, displayName: Option<string>, password: string)

  /** The rows of the users table. */
  type Users = seq<User>

  /** findByUsername: the first row with this username. */
  function FindByUsername(users: Users, name: string): (r: Option<User>)
    ensures r.Some? <==> exists i :: 0 <= i < |users| && users[i].username == name
    ensures r.Some? ==> r.value in users && r.value.username == name
    decreases |users|
  {
    if |users| == 0 then None
    else if users[0].username == name then Some(users[0])
    else
      var r := FindByUsername(users[1..], name);
      assert forall i :: 1 <= i < |users| ==> users[i] == users[1..][i - 1];
      r
  }

  /** existsByUsername. */
  predicate ExistsByUsername(users: Users, name: string) {
    exists i :: 0 <= i < |users| && users[i].username == name
  }

  /** findById: the row with this id. */
  function FindById(users: Users, id: int): (r: Option<User>)
    ensures r.Some? <==> exists i :: 0 <= i < |users| && users[i].id == id
    ensures r.Some? ==> r.value in users && r.value.id == id
    decreases |users|
  {
    if |users| == 0 then None
    else if users[0].id == id then Some(users[0])
    else
      var r := FindById(users[1..], id);
      assert forall i :: 1 <= i < |users| ==> users[i] == users[1..][i - 1];
      r
  }

  /** `id` is not the id of any user: what identity generation hands out. */
  predicate FreshUserId(users: Users, id: int) {
    forall i :: 0 <= i < |users| ==> users[i].id != id
  }

  /** save of a new user: appended under the fresh id. */
  function SaveUser(users: Users, username: string, displayName: Option<string>, password: string, freshId: int)
    : (r: (Users, User))
    requires FreshUserId(users, freshId)
    ensures r.1 == User(freshId, username, displayName, password)
    ensures r.0 == users + [r.1]
  {
    var u := User(freshId, username, displayName, password);
    (users + [u], u)
  }

  /** A user appended under a fresh id and a new username is what both
      finders return for them afterwards. */
  lemma SavedUserFound(users: Users, username: string, displayName: Option<string>, password: string, freshId: int)
    requires FreshUserId(users, freshId) && !ExistsByUsername(users, username)
    ensures var r := SaveUser(users, username, displayName, password, freshId);
      FindByUsername(r.0, username) == Some(r.1) && FindById(r.0, freshId) == Some(r.1)
  {
    var r := SaveUser(users, username, displayName, password, freshId);
    FindLast(users, r.1);
  }

  lemma {:induction false} FindLast(users: Users, u: User)
    requires forall i :: 0 <= i < |users| ==> users[i].username != u.username && users[i].id != u.id
    ensures FindByUsername(users + [u], u.username) == Some(u)
    ensures FindById(users + [u], u.id) == Some(u)
    decreases |users|
  {
    if |users| > 0 {
      assert (users + [u])[1..] == users[1..] + [u];
      FindLast(users[1..], u);
    }
  }

  /** BCryptPasswordEncoder: a one-way encoding and the check of a raw
      password against a stored hash. */
  datatype PasswordEncoder = PasswordEncoder(encode: string -> string, matches: (string, string) -> bool)

  /** The one promise the model relies on: a password matches its own
      encoding. */
  ghost predicate Sound(pe: PasswordEncoder) {
    forall p :: pe.matches(p, pe.encode(p))
  }

  /** The session attributes "userId" and "username"; `None` is an absent
      attribute. */
  datatype Session = Session(userId: Option<int>, username: Option<string>)

  /** The attributes a successful register or login leaves. */
  function SignedIn(u: User): Session {
    Session(Some(u.id), Some(u.username))
  }
}
