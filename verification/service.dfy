/** CardService: adding, updating, deleting and re-pricing collection rows,
    and the statistics summary. Catalog answers, the clock and the ids the
    database hands out are parameters. */
module CardService {
  import opened Wrappers
  import opened Json
  import opened CardModel
  import opened CardRepository
  import opened Normalizer
  import opened Grouping

  /** The exceptions the service lets escape. */
  datatype ServiceError =
    | NotFound                      // NoSuchElementException("Card not found")
    | Upstream(message: string)     // the catalog call threw
    | Rejected(message: string)     // the database refused the row

  // ---------------------------------------------------------------------
  // addCard
  // ---------------------------------------------------------------------

  /** The row addCard saves: the catalog mapping, then the owner and the
      three request fields. */
  function Prepared(data: Json, owner: int, req: AddCardRequest, created: Timestamp, updated: Timestamp, co: Coercions): Card {
    MapToEntity(data, created, updated, co).(userId := Some(owner), quantity := req.quantity,
                                             condition := req.condition, notes := req.notes)
  }

  /** addCard: a failed catalog call propagates; a row missing its catalog
      id, name or condition is refused; otherwise the prepared row is
      appended under the fresh id and returned. */
  function AddCard(store: Store, owner: int, req: AddCardRequest, fetched: Result<Json, string>,
                   freshId: int, created: Timestamp, updated: Timestamp, co: Coercions, dbMessage: string)
    : (r: Result<(Store, Card), ServiceError>)
    requires FreshId(store, freshId)
    ensures fetched.Failure? ==> r == Failure(Upstream(fetched.error))
    ensures fetched.Success? ==>
              (r.Failure? <==> NonNull(fetched.value, "id").None? || NonNull(fetched.value, "name").None?
                               || req.condition.None?)
    ensures r.Failure? ==> r.error != NotFound
    ensures r.Success? ==> r.value.0 == store + [r.value.1]
    ensures r.Success? ==>
              var c := r.value.1;
              && c.id == Some(freshId) && c.userId == Some(owner) && c.quantity == req.quantity
              && c.condition == req.condition && c.notes == req.notes
              && c.createdAt == Some(created) && c.updatedAt == Some(updated)
    ensures r.Success? ==>
              r.value.1 == MapToEntity(fetched.value, created, updated, co).(
                             id := Some(freshId), userId := Some(owner), quantity := req.quantity,
                             condition := req.condition, notes := req.notes)
  {
    match fetched
    case Failure(msg) => Failure(Upstream(msg))
    case Success(data) =>
      var card := Prepared(data, owner, req, created, updated, co);
      MapToEntityFields(data, created, updated, co);
      match Insert(store, card, freshId)
      case Failure(_) => Failure(Rejected(dbMessage))
      case Success(saved) => Success(saved)
  }

  lemma {:induction false} WhereAppend(s: seq<Card>, c: Card, p: Card -> bool)
    ensures Where(s + [c], p) == if p(c) then Where(s, p) + [c] else Where(s, p)
  {
    assert (s + [c])[..|s + [c]| - 1] == s;
  }

  /** A successful add raises the owner's row count by one and total_cards
      by the requested quantity, and leaves every other owner's figures
      alone. */
  lemma AddCardTotals(store: Store, owner: int, req: AddCardRequest, fetched: Result<Json, string>,
                      freshId: int, created: Timestamp, updated: Timestamp, co: Coercions, dbMessage: string,
                      other: int)
    requires FreshId(store, freshId)
    requires AddCard(store, owner, req, fetched, freshId, created, updated, co, dbMessage).Success?
    requires other != owner
    ensures var s := AddCard(store, owner, req, fetched, freshId, created, updated, co, dbMessage).value.0;
      && CountByUserId(s, owner) == CountByUserId(store, owner) + 1
      && TotalCards(s, owner) == TotalCards(store, owner) + req.quantity
      && FindByUserId(s, other) == FindByUserId(store, other)
  {
    var r := AddCard(store, owner, req, fetched, freshId, created, updated, co, dbMessage).value;
    WhereAppend(store, r.1, (c: Card) => OwnedBy(c, owner));
    WhereAppend(store, r.1, (c: Card) => OwnedBy(c, other));
    var owned := FindByUserId(store, owner);
    assert (owned + [r.1])[..|owned + [r.1]| - 1] == owned;
  }

  // ---------------------------------------------------------------------
  // updateCard and deleteCard
  // ---------------------------------------------------------------------

  /** The request applied to a row: only the fields the request carries
      are overwritten, and updatedAt becomes `now`. */
  function ApplyUpdate(card: Card, req: UpdateCardRequest, now: Timestamp): (c: Card)
    ensures c.quantity == req.quantity.GetOr(card.quantity)
    ensures c.condition == (if req.condition.Some? then req.condition else card.condition)
    ensures c.notes == (if req.notes.Some? then req.notes else card.notes)
    ensures c.updatedAt == Some(now)
    ensures c.(quantity := card.quantity, condition := card.condition, notes := card.notes,
               updatedAt := card.updatedAt) == card
  {
    var q := if req.quantity.Some? then card.(quantity := req.quantity.value) else card;
    var cd := if req.condition.Some? then q.(condition := req.condition) else q;
    var n := if req.notes.Some? then cd.(notes := req.notes) else cd;
    n.(updatedAt := Some(now))
  }

  lemma IdLocated(store: Store, i: int, id: int)
    requires 0 <= i < |store| && store[i].id == Some(id)
    ensures IndexOfId(store, id) < |store|
  {
  }

  /** updateCard: NotFound unless `owner` owns the row with this id; else the
      row, updated, is saved in place. */
  function UpdateCard(store: Store, owner: int, id: int, req: UpdateCardRequest, now: Timestamp, dbMessage: string)
    : (r: Result<(Store, Card), ServiceError>)
    ensures FindByIdAndUserId(store, id, owner).None? <==> r == Failure(NotFound)
    ensures r.Success? ==> |r.value.0| == |store|
    ensures r.Success? ==> r.value.1 == ApplyUpdate(FindByIdAndUserId(store, id, owner).value, req, now)
    ensures r.Success? ==> r.value.0[IndexOfId(store, id)] == r.value.1
    ensures r.Success? ==> forall i :: 0 <= i < |store| && store[i].id != Some(id) ==> r.value.0[i] == store[i]
  {
    match FindByIdAndUserId(store, id, owner)
    case None => Failure(NotFound)
    case Some(card) =>
      var changed := ApplyUpdate(card, req, now);
      var i :| 0 <= i < |store| && store[i] == card;
      IdLocated(store, i, id);
      match Update(store, changed)
      case Failure(_) => Failure(Rejected(dbMessage))
      case Success(s) => Success((s, changed))
  }

  /** On a valid table an update by the owner always succeeds, and reading
      the row back gives the updated row. */
  lemma UpdateIsVisible(store: Store, owner: int, id: int, req: UpdateCardRequest, now: Timestamp, dbMessage: string)
    requires ValidStore(store)
    requires FindByIdAndUserId(store, id, owner).Some?
    ensures UpdateCard(store, owner, id, req, now, dbMessage).Success?
    ensures var r := UpdateCard(store, owner, id, req, now, dbMessage).value;
      FindByIdAndUserId(r.0, id, owner) == Some(r.1)
  {
    var card := FindByIdAndUserId(store, id, owner).value;
    var k :| 0 <= k < |store| && store[k] == card;
    assert Persistable(card);
    var changed := ApplyUpdate(card, req, now);
    assert Persistable(changed);
    var r := UpdateCard(store, owner, id, req, now, dbMessage).value;
    assert IndexOfId(store, id) == k;
    assert r.0[k] == changed;
    assert IsOwnedRow(r.0[k], id, owner);
    UniqueIdFind(r.0, k, id, owner);
  }

  /** When the row at `k` is the only one with id `id`, the finder returns it. */
  lemma UniqueIdFind(store: Store, k: int, id: int, owner: int)
    requires 0 <= k < |store| && IsOwnedRow(store[k], id, owner)
    requires forall i :: 0 <= i < |store| && i != k ==> store[i].id != Some(id)
    ensures FindByIdAndUserId(store, id, owner) == Some(store[k])
    decreases |store|
  {
    if k > 0 {
      UniqueIdFind(store[1..], k - 1, id, owner);
    }
  }

  /** deleteCard: NotFound unless `owner` owns the row with this id; else
      that row is removed. */
  function DeleteCard(store: Store, owner: int, id: int): (r: Result<Store, ServiceError>)
    ensures FindByIdAndUserId(store, id, owner).None? <==> r == Failure(NotFound)
    ensures r.Failure? ==> r == Failure(NotFound)
    ensures r.Success? ==> |r.value| == |store| - 1
    ensures r.Success? ==> forall c :: c in store && c.id != Some(id) ==> c in r.value
    ensures r.Success? ==> forall c :: c in r.value ==> c in store
    ensures r.Success? ==> r.value == Delete(store, id)
  {
    match FindByIdAndUserId(store, id, owner)
    case None => Failure(NotFound)
    case Some(card) =>
      var i :| 0 <= i < |store| && store[i] == card;
      IdLocated(store, i, id);
      Success(Delete(store, id))
  }

  /** Deleting the same row twice: the second attempt is NotFound. */
  lemma DoubleDeleteNotFound(store: Store, owner: int, id: int)
    requires ValidStore(store)
    requires DeleteCard(store, owner, id).Success?
    ensures DeleteCard(DeleteCard(store, owner, id).value, owner, id) == Failure(NotFound)
  {
    DeleteRemovesRow(store, id);
  }

  // ---------------------------------------------------------------------
  // refreshPrices
  // ---------------------------------------------------------------------

  /** How many of the first `k` catalog calls answered. */
  function AnsweredBefore(fetches: seq<Result<Json, string>>, k: nat): (n: nat)
    requires k <= |fetches|
    ensures n <= k
    decreases k
  {
    if k == 0 then 0
    else AnsweredBefore(fetches, k - 1) + (if fetches[k - 1].Success? then 1 else 0)
  }

  /** How many of the catalog calls answered. */
  function Answered(fetches: seq<Result<Json, string>>): (n: nat)
    ensures n <= |fetches|
  {
    AnsweredBefore(fetches, |fetches|)
  }

  /** The row as one refresh step leaves it: re-priced and stamped. */
  function Repriced(card: Card, data: Json, now: Timestamp, co: Coercions): (c: Card)
    ensures SameExceptPrices(c.(updatedAt := card.updatedAt), card)
    ensures c.updatedAt == Some(now)
  {
    MapPricing(data, card, co).(updatedAt := Some(now))
  }

  /** What refreshPrices does to the k-th of the owner's rows. */
  function RefreshOutcome(card: Card, fetched: Result<Json, string>, now: Timestamp, co: Coercions): Card {
    match fetched
    case Success(data) => Repriced(card, data, now, co)
    case Failure(_) => card
  }

  lemma {:induction false} WhereIdsDistinct(s: seq<Card>, p: Card -> bool)
    requires forall i, j :: 0 <= i < |s| && 0 <= j < |s| && s[i].id == s[j].id ==> i == j
    ensures forall i, j :: 0 <= i < |Where(s, p)| && 0 <= j < |Where(s, p)| && Where(s, p)[i].id == Where(s, p)[j].id ==> i == j
    decreases |s|
  {
    if |s| > 0 {
      var init := s[..|s| - 1];
      assert forall i :: 0 <= i < |init| ==> init[i] == s[i];
      WhereIdsDistinct(init, p);
      var w := Where(init, p);
      forall i | 0 <= i < |w| ensures w[i].id != s[|s| - 1].id {
        assert w[i] in init;
      }
    }
  }

  lemma {:induction false} SameIdsSameIndex(a: Store, b: Store, id: int)
    requires |a| == |b| && forall i :: 0 <= i < |a| ==> a[i].id == b[i].id
    ensures IndexOfId(a, id) == IndexOfId(b, id)
    decreases |a|
  {
    if |a| > 0 {
      SameIdsSameIndex(a[1..], b[1..], id);
    }
  }

  /** Where the row `c`, read from `store`, sits in it. */
  function Slot(store: Store, c: Card): nat
    requires c.id.Some?
  {
    IndexOfId(store, c.id.value)
  }

  /** The state after the first `k` of the owner's rows were handled: those
      rows carry their outcome, every other row is as it was, and the table
      is still valid with the same ids in the same places. */
  ghost predicate Refreshed(store: Store, owner: int, result: Store, k: int,
                            fetches: seq<Result<Json, string>>, clock: seq<Timestamp>, co: Coercions)
    requires ValidStore(store)
    requires |fetches| == |clock| == |FindByUserId(store, owner)|
  {
    var cards := FindByUserId(store, owner);
    && 0 <= k <= |cards|
    && |result| == |store|
    && (forall i :: 0 <= i < |store| ==> result[i].id == store[i].id)
    && ValidStore(result)
    && (forall i :: 0 <= i < |store| && !OwnedBy(store[i], owner) ==> result[i] == store[i])
    && (forall p :: 0 <= p < k ==> result[Slot(store, cards[p])] == RefreshOutcome(cards[p], fetches[p], clock[p], co))
    && (forall p :: k <= p < |cards| ==> result[Slot(store, cards[p])] == cards[p])
  }

  /** The owner's rows sit in distinct places of the table. */
  lemma OwnedSlots(store: Store, owner: int)
    requires ValidStore(store)
    ensures var cards := FindByUserId(store, owner);
      && (forall p :: 0 <= p < |cards| ==>
            cards[p].id.Some? && Slot(store, cards[p]) < |store| && store[Slot(store, cards[p])] == cards[p])
      && (forall p, q :: 0 <= p < |cards| && 0 <= q < |cards| && p != q ==>
                          Slot(store, cards[p]) != Slot(store, cards[q]))
  {
    var cards := FindByUserId(store, owner);
    WhereIdsDistinct(store, (c: Card) => OwnedBy(c, owner));
    forall p | 0 <= p < |cards|
      ensures cards[p].id.Some? && Slot(store, cards[p]) < |store| && store[Slot(store, cards[p])] == cards[p]
    {
      assert cards[p] in store;
      var m :| 0 <= m < |store| && store[m] == cards[p];
      assert Slot(store, cards[p]) == m;
    }
  }

  /** Handling the k-th row moves the state on by one. */
  lemma RefreshStep(store: Store, owner: int, result: Store, k: int,
                    fetches: seq<Result<Json, string>>, clock: seq<Timestamp>, co: Coercions, next: Store)
    requires ValidStore(store)
    requires |fetches| == |clock| == |FindByUserId(store, owner)|
    requires Refreshed(store, owner, result, k, fetches, clock, co)
    requires k < |FindByUserId(store, owner)|
    requires fetches[k].Failure? ==> next == result
    requires fetches[k].Success? ==>
               next == result[Slot(store, FindByUserId(store, owner)[k]) :=
                                Repriced(FindByUserId(store, owner)[k], fetches[k].value, clock[k], co)]
    ensures Refreshed(store, owner, next, k + 1, fetches, clock, co)
  {
    OwnedSlots(store, owner);
    if fetches[k].Success? {
      RefreshSaved(store, owner, result, k, fetches, clock, co, next);
    }
  }

  lemma RefreshSaved(store: Store, owner: int, result: Store, k: int,
                     fetches: seq<Result<Json, string>>, clock: seq<Timestamp>, co: Coercions, next: Store)
    requires ValidStore(store)
    requires |fetches| == |clock| == |FindByUserId(store, owner)|
    requires Refreshed(store, owner, result, k, fetches, clock, co)
    requires k < |FindByUserId(store, owner)|
    requires fetches[k].Success?
    requires next == result[Slot(store, FindByUserId(store, owner)[k]) :=
                              Repriced(FindByUserId(store, owner)[k], fetches[k].value, clock[k], co)]
    ensures Refreshed(store, owner, next, k + 1, fetches, clock, co)
  {
    var cards := FindByUserId(store, owner);
    OwnedSlots(store, owner);
    var at := Slot(store, cards[k]);
    var changed := Repriced(cards[k], fetches[k].value, clock[k], co);
    assert Persistable(cards[k]);
    ReplaceRow(store, result, at, changed);
    forall i | 0 <= i < |store| && !OwnedBy(store[i], owner) ensures next[i] == store[i] {
      assert i != at;
    }
    assert next[at] == RefreshOutcome(cards[k], fetches[k], clock[k], co);
    forall p | 0 <= p < |cards| && p != k ensures next[Slot(store, cards[p])] == result[Slot(store, cards[p])] {
      assert Slot(store, cards[p]) != at;
    }
  }

  /** Saving a row under the id it already has keeps the table valid and
      its ids in their places. */
  lemma ReplaceRow(store: Store, result: Store, at: nat, changed: Card)
    requires ValidStore(result) && |result| == |store| && at < |result|
    requires forall i :: 0 <= i < |store| ==> result[i].id == store[i].id
    requires changed.id == result[at].id && Persistable(changed)
    ensures ValidStore(result[at := changed])
    ensures forall i :: 0 <= i < |store| ==> result[at := changed][i].id == store[i].id
  {
  }

  /** One refresh step: the k-th of the owner's rows is re-priced and
      saved when its catalog call answered, and left alone otherwise. */
  function RefreshRow(store: Store, owner: int, result: Store, k: int,
                      fetches: seq<Result<Json, string>>, clock: seq<Timestamp>, co: Coercions): (next: Store)
    requires ValidStore(store)
    requires |fetches| == |clock| == |FindByUserId(store, owner)|
    requires Refreshed(store, owner, result, k, fetches, clock, co)
    requires k < |FindByUserId(store, owner)|
    ensures Refreshed(store, owner, next, k + 1, fetches, clock, co)
    ensures fetches[k].Failure? ==> next == result
  {
    var card := FindByUserId(store, owner)[k];
    OwnedSlots(store, owner);
    assert card.id.Some? && Persistable(card) && Slot(store, card) < |store|;
    match fetches[k]
    case Failure(_) =>
      RefreshStep(store, owner, result, k, fetches, clock, co, result);
      result
    case Success(data) =>
      var changed := Repriced(card, data, clock[k], co);
      assert Persistable(changed) && changed.id == card.id;
      SameIdsSameIndex(result, store, card.id.value);
      var next := Update(result, changed).value;
      RefreshStep(store, owner, result, k, fetches, clock, co, next);
      next
  }

  /** refreshPrices: walks the owner's rows in table order; the k-th row
      consumes the k-th catalog answer and the k-th clock read. An answered
      row is re-priced, stamped and saved; a failed one is skipped. The
      count of saved rows is returned. */
  method RefreshPrices(store: Store, owner: int, fetches: seq<Result<Json, string>>, clock: seq<Timestamp>, co: Coercions)
    returns (result: Store, updated: nat)
    requires ValidStore(store)
    requires |fetches| == |clock| == CountByUserId(store, owner)
    ensures updated == Answered(fetches)
    ensures updated <= CountByUserId(store, owner)
    ensures |result| == |store| && ValidStore(result)
    ensures forall i :: 0 <= i < |store| && !OwnedBy(store[i], owner) ==> result[i] == store[i]
    ensures forall k :: 0 <= k < |fetches| ==>
              result[Slot(store, FindByUserId(store, owner)[k])]
                == RefreshOutcome(FindByUserId(store, owner)[k], fetches[k], clock[k], co)
  {
    var n := |fetches|;
    RefreshedInitially(store, owner, fetches, clock, co);
    result := store;
    updated := 0;
    var k := 0;
    while k < n
      invariant 0 <= k <= n
      invariant Refreshed(store, owner, result, k, fetches, clock, co)
      invariant updated == AnsweredBefore(fetches, k)
    {
      result, updated := RefreshRow(store, owner, result, k, fetches, clock, co), CountRow(fetches, updated, k);
      k := k + 1;
    }
    AllRefreshed(store, owner, result, fetches, clock, co);
  }

  /** The count after the k-th call: one more when it answered. */
  function CountRow(fetches: seq<Result<Json, string>>, updated: nat, k: nat): (n: nat)
    requires k < |fetches| && updated == AnsweredBefore(fetches, k)
    ensures n == AnsweredBefore(fetches, k + 1)
  {
    if fetches[k].Success? then updated + 1 else updated
  }

  /** Before the first row nothing has been handled. */
  lemma RefreshedInitially(store: Store, owner: int,
                           fetches: seq<Result<Json, string>>, clock: seq<Timestamp>, co: Coercions)
    requires ValidStore(store)
    requires |fetches| == |clock| == |FindByUserId(store, owner)|
    ensures Refreshed(store, owner, store, 0, fetches, clock, co)
  {
    OwnedSlots(store, owner);
  }

  /** With every row handled, each of the owner's rows carries its outcome. */
  lemma AllRefreshed(store: Store, owner: int, result: Store,
                     fetches: seq<Result<Json, string>>, clock: seq<Timestamp>, co: Coercions)
    requires ValidStore(store)
    requires |fetches| == |clock| == |FindByUserId(store, owner)|
    requires Refreshed(store, owner, result, |fetches|, fetches, clock, co)
    ensures |result| == |store| && ValidStore(result)
    ensures forall i :: 0 <= i < |store| && !OwnedBy(store[i], owner) ==> result[i] == store[i]
    ensures forall k :: 0 <= k < |fetches| ==>
              result[Slot(store, FindByUserId(store, owner)[k])]
                == RefreshOutcome(FindByUserId(store, owner)[k], fetches[k], clock[k], co)
  {
  }

  // ---------------------------------------------------------------------
  // getStats
  // ---------------------------------------------------------------------

  /** One bySet entry, with the labels substituted for null columns. */
  datatype SetRow = SetRow(setName: string, setId: string, cards: nat, total: int)

  /** One byRarity entry. */
  datatype RarityRow = RarityRow(rarity: string, cards: nat, total: int)

  /** The values of the statistics map. */
  datatype StatValue =
    | Count(n: int)
    | Money(v: real)
    | SetRows(setRows: seq<SetRow>)
    | RarityRows(rarityRows: seq<RarityRow>)
    | Text(s: string)

  /** A LinkedHashMap: entries in insertion order. */
  type Stats = seq<(string, StatValue)>


  const UnknownLabel := "Unknown"

  function LabelSet(g: Group<SetKey>): (row: SetRow)
    ensures g.key.setName.None? ==> row.setName == UnknownLabel
    ensures g.key.setName.Some? ==> row.setName == g.key.setName.value
    ensures g.key.setId.None? ==> row.setId == ""
    ensures g.key.setId.Some? ==> row.setId == g.key.setId.value
    ensures row.cards == g.cards && row.total == g.total
  {
    SetRow(g.key.setName.GetOr(UnknownLabel), g.key.setId.GetOr(""), g.cards, g.total)
  }

  function LabelRarity(g: Group<string>): (row: RarityRow)
    ensures row.rarity == g.key && row.cards == g.cards && row.total == g.total
  {
    RarityRow(g.key, g.cards, g.total)
  }

  function LabelSets(groups: seq<Group<SetKey>>): (rows: seq<SetRow>)
    ensures |rows| == |groups| && forall i :: 0 <= i < |groups| ==> rows[i] == LabelSet(groups[i])
  {
    seq(|groups|, i requires 0 <= i < |groups| => LabelSet(groups[i]))
  }

  function LabelRarities(groups: seq<Group<string>>): (rows: seq<RarityRow>)
    ensures |rows| == |groups| && forall i :: 0 <= i < |groups| ==> rows[i] == LabelRarity(groups[i])
  {
    seq(|groups|, i requires 0 <= i < |groups| => LabelRarity(groups[i]))
  }

  /** getStats: the six entries in a fixed order, each from the matching
      repository query. */
  function GetStats(store: Store, owner: int): (stats: Stats)
    ensures |stats| == 6
    ensures stats[0].0 == "unique_cards" && stats[1].0 == "total_cards" && stats[2].0 == "total_sets"
    ensures stats[3].0 == "total_value" && stats[4].0 == "bySet" && stats[5].0 == "byRarity"
    ensures stats[0].1 == Count(CountByUserId(store, owner))
    ensures stats[1].1 == Count(TotalCards(store, owner))
    ensures stats[2].1 == Count(TotalSets(store, owner))
    ensures stats[3].1 == Money(TotalValue(store, owner))
    ensures stats[4].1 == SetRows(LabelSets(StatsBySet(store, owner)))
    ensures stats[5].1 == RarityRows(LabelRarities(StatsByRarity(store, owner)))
  {
    [("unique_cards", Count(CountByUserId(store, owner))),
     ("total_cards", Count(TotalCards(store, owner))),
     ("total_sets", Count(TotalSets(store, owner))),
     ("total_value", Money(TotalValue(store, owner))),
     ("bySet", SetRows(LabelSets(StatsBySet(store, owner)))),
     ("byRarity", RarityRows(LabelRarities(StatsByRarity(store, owner))))]
  }

  /** The bySet counts add up to unique_cards. */
  lemma StatsCountsAgree(store: Store, owner: int)
    ensures var stats := GetStats(store, owner);
      SumSetRows(stats[4].1.setRows) == stats[0].1.n
  {
    var groups := StatsBySet(store, owner);
    var rows := GetStats(store, owner)[4].1.setRows;
    SetRowSums(groups, rows);
  }

  function SumSetRows(rows: seq<SetRow>): int
    decreases |rows|
  {
    if |rows| == 0 then 0 else rows[0].cards + SumSetRows(rows[1..])
  }

  lemma {:induction false} SetRowSums(groups: seq<Group<SetKey>>, rows: seq<SetRow>)
    requires |rows| == |groups| && forall i :: 0 <= i < |groups| ==> rows[i] == LabelSet(groups[i])
    ensures SumSetRows(rows) == SumCards(groups)
    decreases |groups|
  {
    if |groups| > 0 {
      SetRowSums(groups[1..], rows[1..]);
    }
  }
}
