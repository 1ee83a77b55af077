/** PublicCollectionController: anyone may read one user's collection and
    statistics, the user named in the path after lower-casing only. Both
    routes only read. */
module PublicCollection {
  import opened Wrappers
  import opened JavaText
  import opened CardModel
  import opened CardRepository
  import opened CollectionQuery
  import opened CardService
  import opened Accounts
  import opened Http
  import CardController

  /** findByUsername(username.toLowerCase()): a user is found exactly when
      some row's username is the lower-cased path name, with no trimming and
      no stripping. */
  function ResolveOwner(users: Users, username: string): (r: Option<User>)
    ensures r.Some? <==> exists i :: 0 <= i < |users| && users[i].username == Lower(username)
    ensures r.Some? ==> r.value in users && r.value.username == Lower(username)
  {
    FindByUsername(users, Lower(username))
  }

  /** The name shown for a user: the display name, else the username. */
  function ShownName(u: User): (name: string)
    ensures u.displayName.Some? ==> name == u.displayName.value
    ensures u.displayName.None? ==> name == u.username
  {
    u.displayName.GetOr(u.username)
  }

  /** GET /api/u/{username}/collection: 404 for an unknown user; else the
      listing with its size and the shown name. The route catches nothing,
      so a failing listing escapes. */
  function PublicCollectionRoute(users: Users, store: Store, username: string, f: Filters,
                                 sort: Option<string>, order: Option<string>): (resp: Response)
    ensures ResolveOwner(users, username).None? <==> resp == Response(NotFoundStatus, EmptyBody)
    ensures resp.status == Ok ==> resp.body.PublicCardsBody? && resp.body.total == |resp.body.cards|
    ensures resp.status in {Ok, NotFoundStatus, ServerError}
    ensures ResolveOwner(users, username).Some? ==>
              var u := ResolveOwner(users, username).value;
              var l := GetCollection(store, u.id, f, sort.GetOr("createdAt"), order.GetOr("desc"));
              && (l.Failure? ==> resp == Escaped)
              && (l.Success? ==> resp == Response(Ok, PublicCardsBody(l.value, |l.value|, ShownName(u))))
  {
    match ResolveOwner(users, username)
    case None => Response(NotFoundStatus, EmptyBody)
    case Some(u) =>
      match GetCollection(store, u.id, f, sort.GetOr("createdAt"), order.GetOr("desc"))
      case Success(cards) => Response(Ok, PublicCardsBody(cards, |cards|, ShownName(u)))
      case Failure(_) => Escaped
  }

  /** The public listing is the owner's own listing with the same
      parameters, plus the shown name. */
  lemma PublicMatchesPrivate(users: Users, store: Store, username: string, f: Filters,
                             sort: Option<string>, order: Option<string>)
    requires ResolveOwner(users, username).Some?
    ensures var u := ResolveOwner(users, username).value;
      var pub := PublicCollectionRoute(users, store, username, f, sort, order);
      var own := CardController.CollectionRoute(store, u.id, f, sort, order);
      && (pub.status == Ok <==> own.status == Ok)
      && (pub.status == Ok ==> pub.body.cards == own.body.cards && pub.body.total == own.body.total
                               && pub.body.ownerName == ShownName(u))
  {
  }

  /** GET /api/u/{username}/stats: 404 for an unknown user; else the
      owner's statistics with one more entry, "displayName", appended. */
  function PublicStatsRoute(users: Users, store: Store, username: string): (resp: Response)
    ensures ResolveOwner(users, username).None? <==> resp == Response(NotFoundStatus, EmptyBody)
    ensures ResolveOwner(users, username).Some? ==>
              var u := ResolveOwner(users, username).value;
              && resp.status == Ok && resp.body.StatsBody?
              && |resp.body.stats| == |GetStats(store, u.id)| + 1
              && resp.body.stats[..|GetStats(store, u.id)|] == GetStats(store, u.id)
              && resp.body.stats[|GetStats(store, u.id)|] == ("displayName", Text(ShownName(u)))
  {
    match ResolveOwner(users, username)
    case None => Response(NotFoundStatus, EmptyBody)
    case Some(u) => Response(Ok, StatsBody(GetStats(store, u.id) + [("displayName", Text(ShownName(u)))]))
  }

  /** No stored username holds a space, as no normalised one does. */
  predicate NoSpaceInNames(users: Users) {
    forall i :: 0 <= i < |users| ==> forall k :: 0 <= k < |users[i].username| ==> users[i].username[k] != ' '
  }

  /** The path is not trimmed: when no stored name holds a space, a name
      with a space in it is unknown on both routes. */
  lemma PaddedNameUnknown(users: Users, store: Store, username: string, f: Filters,
                          sort: Option<string>, order: Option<string>)
    requires NoSpaceInNames(users)
    requires ' ' in username
    ensures PublicCollectionRoute(users, store, username, f, sort, order).status == NotFoundStatus
    ensures PublicStatsRoute(users, store, username).status == NotFoundStatus
  {
    var k :| 0 <= k < |username| && username[k] == ' ';
    assert Lower(username)[k] == ' ';
    forall i | 0 <= i < |users|
      ensures users[i].username != Lower(username)
    {
      assert k >= |users[i].username| || users[i].username[k] != ' ';
    }
  }

  /** Looking a user up ignores letter case in the path. */
  lemma CaseInsensitivePath(users: Users, a: string, b: string)
    requires Lower(a) == Lower(b)
    ensures ResolveOwner(users, a) == ResolveOwner(users, b)
  {
  }
}
