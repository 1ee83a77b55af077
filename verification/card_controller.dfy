/** CardController: the catalog and collection routes, each mapping the
    service's outcome to a status and body, and the scan route with its
    data-URL prefix stripping. The signed-in owner is the session's userId,
    present on every collection route because the access rules demand a
    session for them. */
module CardController {
  import opened Wrappers
  import opened JavaText
  import opened Json
  import opened CardModel
  import opened CardRepository
  import opened CollectionQuery
  import opened CardService
  import opened CatalogClient
  import opened Http
  import Sorting

  // ---------------------------------------------------------------------
  // Catalog routes
  // ---------------------------------------------------------------------

  /** GET /api/search: page 1 and 20 per page unless the request says
      otherwise; any failure becomes 500. */
  function SearchRoute(base: string, c: Criteria, page: Option<int>, pageSize: Option<int>, encode: string -> string,
                       fetch: string -> Result<Json, string>, co: Coercions): (resp: Response)
    ensures var r := SearchCards(base, c, page.GetOr(1), pageSize.GetOr(20), encode, fetch, co);
      && (resp.status == Ok <==> r.Success?)
      && (resp.status == Ok ==> resp.body == PageBody(r.value))
      && (resp.status != Ok ==> resp == Response(ServerError, ErrorBody("Failed to search cards")))
  {
    match SearchCards(base, c, page.GetOr(1), pageSize.GetOr(20), encode, fetch, co)
    case Success(p) => Response(Ok, PageBody(p))
    case Failure(_) => Response(ServerError, ErrorBody("Failed to search cards"))
  }

  /** Without paging parameters the first page of twenty is requested and
      echoed. */
  lemma SearchRouteDefaults(base: string, c: Criteria, encode: string -> string,
                            fetch: string -> Result<Json, string>, co: Coercions)
    requires fetch(SearchUrl(base, c, 1, 20, encode)).Success?
    ensures var resp := SearchRoute(base, c, None, None, encode, fetch, co);
      resp.status == Ok && resp.body.page.page == 1 && resp.body.page.pageSize == 20
      && |resp.body.page.data| == |Listing(fetch(SearchUrl(base, c, 1, 20, encode)).value)|
  {
  }

  /** GET /api/search/{cardId}: the catalog record, or 500. */
  function CardFromApiRoute(base: string, cardId: string, fetch: string -> Result<Json, string>): (resp: Response)
    ensures resp.status == Ok <==> fetch(CardUrl(base, cardId)).Success?
    ensures resp.status == Ok ==> resp.body == JsonBody(fetch(CardUrl(base, cardId)).value)
    ensures resp.status != Ok ==> resp == Response(ServerError, ErrorBody("Failed to fetch card"))
  {
    match GetCard(base, cardId, fetch)
    case Success(j) => Response(Ok, JsonBody(j))
    case Failure(_) => Response(ServerError, ErrorBody("Failed to fetch card"))
  }

  // ---------------------------------------------------------------------
  // Collection routes
  // ---------------------------------------------------------------------

  /** Throwable.getMessage of the service's exceptions. */
  function MessageOf(e: ServiceError): string {
    match e
    case NotFound => "Card not found"
    case Upstream(m) => m
    case Rejected(m) => m
  }

  /** POST /api/collection: 201 with the new row's id, or 500 carrying the
      exception's message. A null catalog id is concatenated as "null". */
  function AddRoute(store: Store, owner: int, req: AddCardRequest, base: string,
                    fetch: string -> Result<Json, string>, freshId: int, created: Timestamp, updated: Timestamp,
                    co: Coercions, dbMessage: string): (r: (Store, Response))
    requires FreshId(store, freshId)
    ensures var added := AddCard(store, owner, req, GetCard(base, req.cardId.GetOr("null"), fetch),
                                 freshId, created, updated, co, dbMessage);
      && (r.1.status == Created <==> added.Success?)
      && (r.1.status == Created ==> r.0 == added.value.0
                                    && r.1.body == AddedBody("Card added to collection", freshId))
      && (r.1.status != Created ==> r.0 == store && r.1.status == ServerError
                                    && r.1.body == ErrorBody("Failed to add card: " + MessageOf(added.error)))
  {
    match AddCard(store, owner, req, GetCard(base, req.cardId.GetOr("null"), fetch), freshId, created, updated, co, dbMessage)
    case Success(saved) => (saved.0, Response(Created, AddedBody("Card added to collection", saved.1.id.value)))
    case Failure(e) => (store, Response(ServerError, ErrorBody("Failed to add card: " + MessageOf(e))))
  }

  /** The id a 201 reports finds the new row for its owner. */
  lemma AddedIdFindsRow(store: Store, owner: int, req: AddCardRequest, base: string,
                        fetch: string -> Result<Json, string>, freshId: int, created: Timestamp, updated: Timestamp,
                        co: Coercions, dbMessage: string)
    requires FreshId(store, freshId)
    requires AddRoute(store, owner, req, base, fetch, freshId, created, updated, co, dbMessage).1.status == Created
    ensures var r := AddRoute(store, owner, req, base, fetch, freshId, created, updated, co, dbMessage);
      var s := r.0;
      |s| == |store| + 1 && FindByIdAndUserId(s, r.1.body.id, owner) == Some(s[|store|])
  {
    var r := AddRoute(store, owner, req, base, fetch, freshId, created, updated, co, dbMessage);
    var s := r.0;
    assert s[|store|].id == Some(freshId) && s[|store|].userId == Some(owner);
    forall i | 0 <= i < |s| && i != |store| ensures s[i].id != Some(freshId) {
      assert s[i] == store[i];
    }
    UniqueIdFind(s, |store|, freshId, owner);
  }

  /** GET /api/collection: the listing with its size, newest first unless
      the request says otherwise; any failure becomes 500. */
  function CollectionRoute(store: Store, owner: int, f: Filters, sort: Option<string>, order: Option<string>)
    : (resp: Response)
    ensures var r := GetCollection(store, owner, f, sort.GetOr("createdAt"), order.GetOr("desc"));
      && (resp.status == Ok <==> r.Success?)
      && (resp.status == Ok ==> resp.body.CardsBody? && resp.body.cards == r.value
                                && resp.body.total == |resp.body.cards|)
      && (resp.status != Ok ==> resp == Response(ServerError, ErrorBody("Failed to fetch collection")))
  {
    match GetCollection(store, owner, f, sort.GetOr("createdAt"), order.GetOr("desc"))
    case Success(cards) => Response(Ok, CardsBody(cards, |cards|))
    case Failure(_) => Response(ServerError, ErrorBody("Failed to fetch collection"))
  }

  /** On a valid table the default listing answers 200 with every one of
      the owner's rows, newest first and rows without a creation time
      before all others. */
  lemma DefaultListingNewestFirst(store: Store, owner: int)
    requires ValidStore(store)
    ensures var resp := CollectionRoute(store, owner, Filters(None, None, None, None, None), None, None);
      && resp.status == Ok
      && multiset(resp.body.cards) == multiset(FindByUserId(store, owner))
      && Sorting.Sorted(Comparator(ByCreatedAt, false), resp.body.cards)
  {
    var f := Filters(None, None, None, None, None);
    ValidStoreNeverThrows(store, owner, f, "createdAt", "desc");
    assert !EqualsIgnoreCase("asc", "desc") by {
      assert Lower("asc")[0] == 'a' && Lower("desc")[0] == 'd';
    }
    assert Filtered(store, owner, f) == FindByUserId(store, owner) by {
      FilterNothing(FindByUserId(store, owner), f);
    }
  }

  lemma {:induction false} FilterNothing(s: seq<Card>, f: Filters)
    requires f == Filters(None, None, None, None, None)
    ensures Where(s, (c: Card) => Matches(f, c)) == s
    decreases |s|
  {
    if |s| > 0 {
      FilterNothing(s[..|s| - 1], f);
      assert s[..|s| - 1] + [s[|s| - 1]] == s;
    }
  }

  /** GET /api/collection/stats: always 200. unique_cards is the number of
      the caller's rows, and the bySet card counts add up to it. */
  function StatsRoute(store: Store, owner: int): (resp: Response)
    ensures resp.status == Ok && resp.body.StatsBody?
    ensures resp.body.stats == GetStats(store, owner)
    ensures resp.body.stats[0] == ("unique_cards", Count(|FindByUserId(store, owner)|))
    ensures SumSetRows(resp.body.stats[4].1.setRows) == |FindByUserId(store, owner)|
  {
    StatsCountsAgree(store, owner);
    Response(Ok, StatsBody(GetStats(store, owner)))
  }

  /** PATCH /api/collection/{id}: 200, 404 for a row the caller does not
      own, 500 for any other failure; only a 200 changes the table. */
  function UpdateRoute(store: Store, owner: int, id: int, req: UpdateCardRequest, now: Timestamp, dbMessage: string)
    : (r: (Store, Response))
    ensures r.1.status in {Ok, NotFoundStatus, ServerError}
    ensures r.1.status == NotFoundStatus <==> FindByIdAndUserId(store, id, owner).None?
    ensures r.1.status == NotFoundStatus ==> r.1.body == ErrorBody("Card not found")
    ensures r.1.status == ServerError ==> r.1.body == ErrorBody("Failed to update card")
    ensures r.1.status == Ok ==> r.1.body == MessageBody("Card updated")
                                 && UpdateCard(store, owner, id, req, now, dbMessage).Success?
                                 && r.0 == UpdateCard(store, owner, id, req, now, dbMessage).value.0
    ensures r.1.status != Ok ==> r.0 == store
  {
    match UpdateCard(store, owner, id, req, now, dbMessage)
    case Success(res) => (res.0, Response(Ok, MessageBody("Card updated")))
    case Failure(NotFound) => (store, Response(NotFoundStatus, ErrorBody("Card not found")))
    case Failure(_) => (store, Response(ServerError, ErrorBody("Failed to update card")))
  }

  /** On a valid table an owner's update answers 200 and the changed row
      reads back. */
  lemma UpdateRouteVisible(store: Store, owner: int, id: int, req: UpdateCardRequest, now: Timestamp, dbMessage: string)
    requires ValidStore(store)
    requires FindByIdAndUserId(store, id, owner).Some?
    ensures var r := UpdateRoute(store, owner, id, req, now, dbMessage);
      r.1.status == Ok
      && FindByIdAndUserId(r.0, id, owner) == Some(ApplyUpdate(FindByIdAndUserId(store, id, owner).value, req, now))
  {
    UpdateIsVisible(store, owner, id, req, now, dbMessage);
  }

  /** DELETE /api/collection/{id}: 200 after removing the row, 404 for a
      row the caller does not own. */
  function DeleteRoute(store: Store, owner: int, id: int): (r: (Store, Response))
    ensures r.1.status in {Ok, NotFoundStatus}
    ensures r.1.status == NotFoundStatus <==> FindByIdAndUserId(store, id, owner).None?
    ensures r.1.status == NotFoundStatus ==> r == (store, Response(NotFoundStatus, ErrorBody("Card not found")))
    ensures r.1.status == Ok ==> r.1.body == MessageBody("Card removed") && |r.0| == |store| - 1
    ensures r.1.status == Ok ==> r.0 == DeleteCard(store, owner, id).value
  {
    match DeleteCard(store, owner, id)
    case Success(s) => (s, Response(Ok, MessageBody("Card removed")))
    case Failure(_) => (store, Response(NotFoundStatus, ErrorBody("Card not found")))
  }

  /** Deleting a row twice: the second request answers 404. */
  lemma DeleteTwice(store: Store, owner: int, id: int)
    requires ValidStore(store)
    requires DeleteRoute(store, owner, id).1.status == Ok
    ensures DeleteRoute(DeleteRoute(store, owner, id).0, owner, id).1.status == NotFoundStatus
  {
    DoubleDeleteNotFound(store, owner, id);
  }

  /** POST /api/collection/refresh-prices: 200 with the count of rows
      re-priced; refreshPrices itself swallows every per-row failure. */
  method RefreshRoute(store: Store, owner: int, fetches: seq<Result<Json, string>>, clock: seq<Timestamp>, co: Coercions)
    returns (result: Store, resp: Response)
    requires ValidStore(store)
    requires |fetches| == |clock| == CountByUserId(store, owner)
    ensures resp == Response(Ok, RefreshedBody("Prices refreshed", Answered(fetches)))
    ensures |result| == |store| && ValidStore(result)
    ensures forall i :: 0 <= i < |store| && !OwnedBy(store[i], owner) ==> result[i] == store[i]
    ensures forall k :: 0 <= k < |fetches| ==>
              result[Slot(store, FindByUserId(store, owner)[k])]
                == RefreshOutcome(FindByUserId(store, owner)[k], fetches[k], clock[k], co)
  {
    var updated;
    result, updated := RefreshPrices(store, owner, fetches, clock, co);
    resp := Response(Ok, RefreshedBody("Prices refreshed", updated));
  }

  // ---------------------------------------------------------------------
  // POST /api/scan
  // ---------------------------------------------------------------------

  /** The message of ArrayIndexOutOfBoundsException. */
  function OutOfBounds(index: int, length: int): string {
    "Index " + IntToString(index) + " out of bounds for length " + IntToString(length)
  }

  /** `prefix.split(":")[1].split(";")[0]`, or the exception it raises. */
  function MediaTypeOf(prefix: string): (r: Result<string, string>)
    ensures |Split(prefix, ':')| < 2 ==> r == Failure(OutOfBounds(1, |Split(prefix, ':')|))
  {
    var colon := Split(prefix, ':');
    if |colon| < 2 then Failure(OutOfBounds(1, |colon|))
    else
      var semi := Split(colon[1], ';');
      if |semi| == 0 then Failure(OutOfBounds(0, 0)) else Success(semi[0])
  }

  /** The data-URL stripping: the image and media type handed to the
      vision call, or the message of the exception that ends the request.
      `contains(",")` is the membership test on the comma. */
  function ParseScan(image: string, mediaType: Option<string>): (r: Result<(string, Option<string>), string>)
    ensures ',' !in image ==> r == Success((image, mediaType))
  {
    if ',' !in image then Success((image, mediaType))
    else
      var parts := Split(image, ',');
      if |parts| == 0 then Failure(OutOfBounds(0, 0))
      else
        var mt: Result<Option<string>, string> :=
          if Contains(parts[0], "image/") then
            match MediaTypeOf(parts[0])
            case Success(m) => Success(Some(m))
            case Failure(e) => Failure(e)
          else Success(mediaType);
        match mt
        case Failure(e) => Failure(e)
        case Success(m) =>
          if |parts| < 2 then Failure(OutOfBounds(1, |parts|)) else Success((parts[1], m))
  }

  /** With a comma, the forwarded image is the text between the first
      comma and the next one (or the end), and it fails when nothing but
      commas follows the first comma. */
  lemma ScanPayload(image: string, mediaType: Option<string>)
    requires ',' in image
    ensures var after := After(image, ',');
      && ((forall k :: 0 <= k < |after| ==> after[k] == ',') ==> ParseScan(image, mediaType).Failure?)
      && (ParseScan(image, mediaType).Success? ==> ParseScan(image, mediaType).value.0 == Before(after, ','))
  {
    ParseScanPieces(image, mediaType);
    OnlyCommasAfter(image);
    if |Split(image, ',')| >= 2 {
      SplitSecond(image, ',');
    }
  }

  /** Nothing but commas after the first one leaves a single piece. */
  lemma OnlyCommasAfter(image: string)
    requires ',' in image
    ensures (forall k :: 0 <= k < |After(image, ',')| ==> After(image, ',')[k] == ',') ==> |Split(image, ',')| < 2
  {
    var after := After(image, ',');
    SplitSecondExists(image, ',');
    SuffixChars(image, IndexOf(image, ','), after, ',');
  }

  /** The outcome of the stripping in terms of the pieces of the split:
      the second piece is forwarded, and without one the request fails. */
  lemma ParseScanPieces(image: string, mediaType: Option<string>)
    requires ',' in image
    ensures |Split(image, ',')| < 2 ==> ParseScan(image, mediaType).Failure?
    ensures ParseScan(image, mediaType).Success? ==>
              |Split(image, ',')| >= 2 && ParseScan(image, mediaType).value.0 == Split(image, ',')[1]
  {
  }

  /** A prefix naming an image type sets the media type to the text after
      its first ':' up to the next ':', cut at the first ';' (and a colon
      must be there); any other prefix leaves the requested media type. */
  lemma ScanMediaType(image: string, mediaType: Option<string>)
    requires ',' in image
    requires ParseScan(image, mediaType).Success?
    ensures var prefix := image[..IndexOf(image, ',')];
      && (Contains(prefix, "image/") ==>
            && ':' in prefix
            && var field := Before(After(prefix, ':'), ':');
               ParseScan(image, mediaType).value.1 == Some(Before(field, ';')))
      && (!Contains(prefix, "image/") ==> ParseScan(image, mediaType).value.1 == mediaType)
  {
    var prefix := image[..IndexOf(image, ',')];
    ParseScanMedia(image, mediaType);
    SplitFirst(image, ',');
    assert Split(image, ',')[0] == prefix;
    if Contains(prefix, "image/") {
      SplitShape(prefix, ':');
      assert ':' in prefix;
      SplitSecond(prefix, ':');
      var field := Before(After(prefix, ':'), ':');
      assert Split(prefix, ':')[1] == field;
      SplitFirst(field, ';');
    }
  }

  /** The media type of a successful stripping in terms of the pieces of
      the splits. */
  lemma ParseScanMedia(image: string, mediaType: Option<string>)
    requires ',' in image
    requires ParseScan(image, mediaType).Success?
    ensures |Split(image, ',')| >= 1
    ensures var prefix := Split(image, ',')[0];
      && (Contains(prefix, "image/") ==>
            && |Split(prefix, ':')| >= 2 && |Split(Split(prefix, ':')[1], ';')| >= 1
            && ParseScan(image, mediaType).value.1 == Some(Split(Split(prefix, ':')[1], ';')[0]))
      && (!Contains(prefix, "image/") ==> ParseScan(image, mediaType).value.1 == mediaType)
  {
  }

  /** The route: a missing or null image is a NullPointerException, the
      media type defaults to "image/png" only when the key is absent, and
      every exception becomes 500 with its message. The vision call
      catches its own failures and always answers. */
  function ScanRoute(request: map<string, Option<string>>, identify: (string, Option<string>) -> Json,
                     npeMessage: string): (resp: Response)
    ensures ("image" !in request || request["image"].None?) ==>
              resp == Response(ServerError, ErrorBody("Failed to scan card: " + npeMessage))
    ensures resp.status in {Ok, ServerError}
  {
    var mediaType := if "mediaType" in request then request["mediaType"] else Some("image/png");
    if "image" !in request || request["image"].None? then
      Response(ServerError, ErrorBody("Failed to scan card: " + npeMessage))
    else
      match ParseScan(request["image"].value, mediaType)
      case Success(p) => Response(Ok, JsonBody(identify(p.0, p.1)))
      case Failure(e) => Response(ServerError, ErrorBody("Failed to scan card: " + e))
  }

  /** A bare base64 string is forwarded unchanged with the requested media
      type, or "image/png" when the request names none. */
  lemma ScanBareImage(request: map<string, Option<string>>, identify: (string, Option<string>) -> Json,
                      npeMessage: string)
    requires "image" in request && request["image"].Some? && ',' !in request["image"].value
    ensures var mt := if "mediaType" in request then request["mediaType"] else Some("image/png");
      ScanRoute(request, identify, npeMessage) == Response(Ok, JsonBody(identify(request["image"].value, mt)))
  {
  }
}
