/** The card table and the queries CardRepository declares on it, as pure
    functions over the rows in table order. */
module CardRepository {
  import opened Wrappers
  import opened CardModel
  import opened Grouping

  /** The rows of the cards table. */
  type Store = seq<Card>

  /** The database's guarantees: every row has an id, no two rows share one,
      and every NOT NULL column holds a value. */
  ghost predicate ValidStore(store: Store) {
    && (forall i :: 0 <= i < |store| ==> store[i].id.Some? && Persistable(store[i]))
    && (forall i, j :: 0 <= i < |store| && 0 <= j < |store| && store[i].id == store[j].id ==> i == j)
  }

  /** `id` is not the id of any row: what identity generation hands out. */
  predicate FreshId(store: Store, id: int) {
    forall i :: 0 <= i < |store| ==> store[i].id != Some(id)
  }

  // ---------------------------------------------------------------------
  // Finders
  // ---------------------------------------------------------------------

  /** The rows satisfying `p`, in table order. */
  function Where(s: seq<Card>, p: Card -> bool): (r: seq<Card>)
    ensures forall c :: c in r <==> c in s && p(c)
    ensures forall i :: 0 <= i < |r| ==> p(r[i])
    ensures |r| <= |s|
    decreases |s|
  {
    if |s| == 0 then []
    else
      var init := Where(s[..|s| - 1], p);
      assert s == s[..|s| - 1] + [s[|s| - 1]];
      if p(s[|s| - 1]) then init + [s[|s| - 1]] else init
  }

  /** The rows owned by `owner`. */
  predicate OwnedBy(c: Card, owner: int) {
    c.userId == Some(owner)
  }

  /** findByUserId: exactly the rows whose owner is `owner`; rows without
      an owner never match. */
  function FindByUserId(store: Store, owner: int): (r: seq<Card>)
    ensures forall c :: c in r <==> c in store && c.userId == Some(owner)
    ensures forall c :: c in r ==> c.userId.Some?
  {
    Where(store, (c: Card) => OwnedBy(c, owner))
  }

  /** findByUserIdIsNull: exactly the rows without an owner. */
  function FindByUserIdIsNull(store: Store): (r: seq<Card>)
    ensures forall c :: c in r <==> c in store && c.userId.None?
  {
    Where(store, (c: Card) => c.userId.None?)
  }

  /** findByUserIdAndCardId: the owner's rows for one catalog card. */
  function FindByUserIdAndCardId(store: Store, owner: int, cardId: string): (r: seq<Card>)
    ensures forall c :: c in r <==> c in store && c.userId == Some(owner) && c.cardId == Some(cardId)
  {
    Where(store, (c: Card) => OwnedBy(c, owner) && c.cardId == Some(cardId))
  }

  /** The row has id `id` and belongs to `owner`. */
  predicate IsOwnedRow(c: Card, id: int, owner: int) {
    c.id == Some(id) && c.userId == Some(owner)
  }

  /** findByIdAndUserId: the row with this id, provided `owner` owns it. */
  function FindByIdAndUserId(store: Store, id: int, owner: int): (r: Option<Card>)
    ensures r.Some? <==> exists i :: 0 <= i < |store| && IsOwnedRow(store[i], id, owner)
    ensures r.Some? ==> r.value in store && IsOwnedRow(r.value, id, owner)
    decreases |store|
  {
    if |store| == 0 then None
    else if IsOwnedRow(store[0], id, owner) then Some(store[0])
    else
      var r := FindByIdAndUserId(store[1..], id, owner);
      assert forall i :: 1 <= i < |store| ==> store[i] == store[1..][i - 1];
      r
  }

  /** The position of the row with id `id`, or |store| when there is none. */
  function IndexOfId(store: Store, id: int): (i: nat)
    ensures i <= |store|
    ensures i < |store| ==> store[i].id == Some(id)
    ensures forall j :: 0 <= j < i ==> store[j].id != Some(id)
    decreases |store|
  {
    if |store| == 0 then 0
    else if store[0].id == Some(id) then 0
    else 1 + IndexOfId(store[1..], id)
  }

  // ---------------------------------------------------------------------
  // save and delete
  // ---------------------------------------------------------------------

  /** Why the database refuses a row. */
  datatype SaveError = NullColumn

  /** save of a new row: the row is appended under the fresh id, or refused
      when a NOT NULL column is null. */
  function Insert(store: Store, card: Card, freshId: int): (r: Result<(Store, Card), SaveError>)
    requires FreshId(store, freshId)
    ensures !Persistable(card) <==> r.Failure?
    ensures r.Success? ==> r.value.1 == card.(id := Some(freshId))
    ensures r.Success? ==> r.value.0 == store + [r.value.1]
  {
    if !Persistable(card) then Failure(NullColumn)
    else
      var saved := card.(id := Some(freshId));
      Success((store + [saved], saved))
  }

  lemma InsertKeepsValid(store: Store, card: Card, freshId: int)
    requires ValidStore(store) && FreshId(store, freshId)
    requires Insert(store, card, freshId).Success?
    ensures ValidStore(Insert(store, card, freshId).value.0)
  {
  }

  /** save of a row read from the table: the row with the same id is
      replaced in place, or the save is refused when a NOT NULL column is
      null. */
  function Update(store: Store, card: Card): (r: Result<Store, SaveError>)
    requires card.id.Some? && IndexOfId(store, card.id.value) < |store|
    ensures !Persistable(card) <==> r.Failure?
    ensures r.Success? ==> |r.value| == |store|
    ensures r.Success? ==> r.value[IndexOfId(store, card.id.value)] == card
    ensures r.Success? ==> forall i :: 0 <= i < |store| && store[i].id != card.id ==> r.value[i] == store[i]
  {
    if !Persistable(card) then Failure(NullColumn)
    else Success(store[IndexOfId(store, card.id.value) := card])
  }

  lemma UpdateKeepsValid(store: Store, card: Card)
    requires ValidStore(store)
    requires card.id.Some? && IndexOfId(store, card.id.value) < |store|
    requires Update(store, card).Success?
    ensures ValidStore(Update(store, card).value)
  {
  }

  /** delete: removes the row with the id of `card`. */
  function Delete(store: Store, id: int): (r: Store)
    ensures IndexOfId(store, id) < |store| ==> |r| == |store| - 1
    ensures IndexOfId(store, id) == |store| ==> r == store
    ensures forall c :: c in store && c.id != Some(id) ==> c in r
    ensures forall c :: c in r ==> c in store
    ensures IndexOfId(store, id) < |store| ==>
              && (forall k :: 0 <= k < IndexOfId(store, id) ==> r[k] == store[k])
              && (forall k :: IndexOfId(store, id) <= k < |r| ==> r[k] == store[k + 1])
  {
    var i := IndexOfId(store, id);
    if i == |store| then store
    else
      assert store == store[..i] + [store[i]] + store[i + 1..];
      DeleteShifts(store, i, store[..i] + store[i + 1..]);
      store[..i] + store[i + 1..]
  }

  lemma DeleteRemovesRow(store: Store, id: int)
    requires ValidStore(store)
    ensures forall i :: 0 <= i < |Delete(store, id)| ==> Delete(store, id)[i].id != Some(id)
    ensures ValidStore(Delete(store, id))
  {
    var i := IndexOfId(store, id);
    if i < |store| {
      var r := Delete(store, id);
      DeleteShifts(store, i, r);
      forall k | 0 <= k < |r| ensures r[k] == store[if k < i then k else k + 1] {
      }
    }
  }

  /** Removing the row at `i` shifts every later row down by one. */
  lemma DeleteShifts(store: Store, i: nat, r: Store)
    requires i < |store| && r == store[..i] + store[i + 1..]
    ensures |r| == |store| - 1
    ensures forall k :: 0 <= k < i ==> r[k] == store[k]
    ensures forall k :: i <= k < |r| ==> r[k] == store[k + 1]
  {
  }

  // ---------------------------------------------------------------------
  // Aggregates
  // ---------------------------------------------------------------------

  /** COUNT(c) over the rows satisfying `p`. */
  function CountWhere(s: seq<Card>, p: Card -> bool): nat
    decreases |s|
  {
    if |s| == 0 then 0
    else CountWhere(s[..|s| - 1], p) + (if p(s[|s| - 1]) then 1 else 0)
  }

  lemma {:induction false} CountWhereIsLength(s: seq<Card>, p: Card -> bool)
    ensures CountWhere(s, p) == |Where(s, p)|
    decreases |s|
  {
    if |s| > 0 {
      CountWhereIsLength(s[..|s| - 1], p);
    }
  }

  /** countByUserId. */
  function CountByUserId(store: Store, owner: int): (n: nat)
    ensures n <= |store|
    ensures n == |FindByUserId(store, owner)|
  {
    CountWhereIsLength(store, (c: Card) => OwnedBy(c, owner));
    CountWhere(store, (c: Card) => OwnedBy(c, owner))
  }

  /** SUM(c.quantity), with the COALESCE to 0 for no rows. */
  function SumQuantity(cs: seq<Card>): int
    decreases |cs|
  {
    if |cs| == 0 then 0 else SumQuantity(cs[..|cs| - 1]) + cs[|cs| - 1].quantity
  }

  lemma {:induction false} SumQuantityAppend(a: seq<Card>, b: seq<Card>)
    ensures SumQuantity(a + b) == SumQuantity(a) + SumQuantity(b)
    decreases |b|
  {
    if |b| > 0 {
      SumQuantityAppend(a, b[..|b| - 1]);
      assert (a + b)[..|a + b| - 1] == a + b[..|b| - 1];
      assert (a + b)[|a + b| - 1] == b[|b| - 1];
    } else {
      assert a + b == a;
    }
  }

  /** getTotalCards: the owner's quantities summed, 0 for no rows. */
  function TotalCards(store: Store, owner: int): (n: int)
    ensures FindByUserId(store, owner) == [] ==> n == 0
    ensures (forall c :: c in FindByUserId(store, owner) ==> c.quantity >= 1) ==>
              n >= CountByUserId(store, owner)
  {
    QuantityAtLeastCount(FindByUserId(store, owner));
    SumQuantity(FindByUserId(store, owner))
  }

  lemma {:induction false} QuantityAtLeastCount(cs: seq<Card>)
    ensures (forall c :: c in cs ==> c.quantity >= 1) ==> SumQuantity(cs) >= |cs|
    decreases |cs|
  {
    if |cs| > 0 {
      QuantityAtLeastCount(cs[..|cs| - 1]);
      assert cs[|cs| - 1] in cs;
      assert forall c :: c in cs[..|cs| - 1] ==> c in cs;
    }
  }

  /** A finder distributes over a split of the table. */
  lemma {:induction false} WhereSplit(a: seq<Card>, b: seq<Card>, p: Card -> bool)
    ensures Where(a + b, p) == Where(a, p) + Where(b, p)
    decreases |b|
  {
    if |b| > 0 {
      WhereSplit(a, b[..|b| - 1], p);
      assert (a + b)[..|a + b| - 1] == a + b[..|b| - 1];
      assert (a + b)[|a + b| - 1] == b[|b| - 1];
    } else {
      assert a + b == a;
    }
  }

  /** total_cards of two tables side by side is the sum of their totals. */
  lemma TotalCardsSplit(a: Store, b: Store, owner: int)
    ensures TotalCards(a + b, owner) == TotalCards(a, owner) + TotalCards(b, owner)
  {
    WhereSplit(a, b, (c: Card) => OwnedBy(c, owner));
    SumQuantityAppend(FindByUserId(a, owner), FindByUserId(b, owner));
  }

  /** One row adds its quantity to its owner's total_cards and nothing to
      anyone else's; with TotalCardsSplit this makes total_cards the sum of
      the owner's quantities. */
  lemma TotalCardsRow(c: Card, owner: int)
    ensures TotalCards([c], owner) == if c.userId == Some(owner) then c.quantity else 0
  {
    var owned := FindByUserId([c], owner);
    assert [c][..0] == [];
    assert owned == if OwnedBy(c, owner) then [c] else [];
    if OwnedBy(c, owner) {
      assert owned[..0] == [];
      assert SumQuantity(owned) == SumQuantity([]) + c.quantity;
    }
  }

  /** The distinct non-null set ids of `cs`. */
  function SetIds(cs: seq<Card>): (r: set<string>)
    ensures forall id :: id in r <==> exists c :: c in cs && c.setId == Some(id)
    decreases |cs|
  {
    if |cs| == 0 then {}
    else
      var last := cs[|cs| - 1];
      assert cs == cs[..|cs| - 1] + [last];
      SetIds(cs[..|cs| - 1]) + (if last.setId.Some? then {last.setId.value} else {})
  }

  lemma {:induction false} SetIdsBound(cs: seq<Card>)
    ensures |SetIds(cs)| <= |Where(cs, (c: Card) => c.setId.Some?)|
    decreases |cs|
  {
    if |cs| > 0 {
      SetIdsBound(cs[..|cs| - 1]);
    }
  }

  /** getTotalSets: COUNT(DISTINCT setId) ignores null set ids, so it never
      exceeds the number of the owner's rows that have one. */
  function TotalSets(store: Store, owner: int): (n: nat)
    ensures n == |SetIds(FindByUserId(store, owner))|
    ensures n <= |Where(FindByUserId(store, owner), (c: Card) => c.setId.Some?)|
    ensures n <= CountByUserId(store, owner)
  {
    SetIdsBound(FindByUserId(store, owner));
    |SetIds(FindByUserId(store, owner))|
  }

  /** SUM(c.priceMid * c.quantity) over the rows with a mid price. */
  function ValueSum(cs: seq<Card>): real
    decreases |cs|
  {
    if |cs| == 0 then 0.0
    else
      var last := cs[|cs| - 1];
      ValueSum(cs[..|cs| - 1]) + (if last.priceMid.Some? then last.priceMid.value * last.quantity as real else 0.0)
  }

  lemma {:induction false} ValueSumAppend(a: seq<Card>, b: seq<Card>)
    ensures ValueSum(a + b) == ValueSum(a) + ValueSum(b)
    decreases |b|
  {
    if |b| > 0 {
      ValueSumAppend(a, b[..|b| - 1]);
      assert (a + b)[..|a + b| - 1] == a + b[..|b| - 1];
      assert (a + b)[|a + b| - 1] == b[|b| - 1];
    } else {
      assert a + b == a;
    }
  }

  lemma {:induction false} ValueSumUnpriced(cs: seq<Card>)
    ensures (forall c :: c in cs ==> c.priceMid.None?) ==> ValueSum(cs) == 0.0
    decreases |cs|
  {
    if |cs| > 0 && forall c :: c in cs ==> c.priceMid.None? {
      assert forall c :: c in cs[..|cs| - 1] ==> c in cs;
      ValueSumUnpriced(cs[..|cs| - 1]);
      assert cs[|cs| - 1] in cs;
    }
  }

  /** getTotalValue: 0 when none of the owner's rows has a mid price. */
  function TotalValue(store: Store, owner: int): (v: real)
    ensures (forall c :: c in FindByUserId(store, owner) ==> c.priceMid.None?) ==> v == 0.0
  {
    ValueSumUnpriced(FindByUserId(store, owner));
    ValueSum(FindByUserId(store, owner))
  }

  /** total_value of two tables side by side is the sum of their values. */
  lemma TotalValueSplit(a: Store, b: Store, owner: int)
    ensures TotalValue(a + b, owner) == TotalValue(a, owner) + TotalValue(b, owner)
  {
    WhereSplit(a, b, (c: Card) => OwnedBy(c, owner));
    ValueSumAppend(FindByUserId(a, owner), FindByUserId(b, owner));
  }

  /** One row adds mid price times quantity to its owner's total_value when
      it has a mid price, and nothing otherwise. */
  lemma TotalValueRow(c: Card, owner: int)
    ensures TotalValue([c], owner) ==
              if c.userId == Some(owner) && c.priceMid.Some? then c.priceMid.value * c.quantity as real else 0.0
  {
    var owned := FindByUserId([c], owner);
    assert [c][..0] == [];
    assert owned == if OwnedBy(c, owner) then [c] else [];
    if OwnedBy(c, owner) {
      assert owned[..0] == [];
      assert ValueSum(owned) == ValueSum([]) + (if c.priceMid.Some? then c.priceMid.value * c.quantity as real else 0.0);
    }
  }


  // ---------------------------------------------------------------------
  // Breakdowns
  // ---------------------------------------------------------------------

  /** The GROUP BY key of getStatsBySet: the (setName, setId) pair, either
      half possibly null. */
  datatype SetKey = SetKey(setName: Option<string>, setId: Option<string>)

  function SetOf(c: Card): Option<SetKey> {
    Some(SetKey(c.setName, c.setId))
  }

  function RarityOf(c: Card): Option<string> {
    c.rarity
  }

  lemma {:induction false} EverySetKeyed(cs: seq<Card>)
    ensures CountKeyed(cs, SetOf) == |cs|
    decreases |cs|
  {
    if |cs| > 0 {
      EverySetKeyed(cs[..|cs| - 1]);
    }
  }

  /** getStatsBySet: one row per (setName, setId) pair among the owner's
      rows, largest quantity sums first; the counts add up to
      countByUserId. */
  function StatsBySet(store: Store, owner: int): (rows: seq<Group<SetKey>>)
    ensures GroupsOf(rows, FindByUserId(store, owner), SetOf)
    ensures forall i, j :: 0 <= i < j < |rows| ==> rows[i].total >= rows[j].total
    ensures SumCards(rows) == CountByUserId(store, owner)
  {
    EverySetKeyed(FindByUserId(store, owner));
    GroupBy(FindByUserId(store, owner), SetOf)
  }

  /** getStatsByRarity: one row per non-null rarity among the owner's rows,
      largest quantity sums first. Null rarities are in no row. */
  function StatsByRarity(store: Store, owner: int): (rows: seq<Group<string>>)
    ensures GroupsOf(rows, FindByUserId(store, owner), RarityOf)
    ensures forall i, j :: 0 <= i < j < |rows| ==> rows[i].total >= rows[j].total
    ensures SumCards(rows) == CountKeyed(FindByUserId(store, owner), RarityOf)
  {
    GroupBy(FindByUserId(store, owner), RarityOf)
  }

  /** Grouping by the pair, not by the set id alone: two of the owner's rows
      with the same set id but different set names give two result rows
      carrying that set id. */
  lemma SameSetIdTwoNames(store: Store, owner: int, a: Card, b: Card)
    requires a in FindByUserId(store, owner) && b in FindByUserId(store, owner)
    requires a.setId == b.setId && a.setName != b.setName
    ensures exists i, j :: 0 <= i < j < |StatsBySet(store, owner)|
              && StatsBySet(store, owner)[i].key.setId == a.setId
              && StatsBySet(store, owner)[j].key.setId == a.setId
  {
    var cs := FindByUserId(store, owner);
    var rows := StatsBySet(store, owner);
    CountKeyPositive(cs, SetOf, SetOf(a).value);
    CountKeyPositive(cs, SetOf, SetOf(b).value);
    var ia :| 0 <= ia < |cs| && cs[ia] == a;
    var ib :| 0 <= ib < |cs| && cs[ib] == b;
    assert SetOf(cs[ia]) == Some(SetOf(a).value);
    assert SetOf(cs[ib]) == Some(SetOf(b).value);
    var ra := RowFor(cs, SetOf, SetOf(a).value);
    var rb := RowFor(cs, SetOf, SetOf(b).value);
    assert ra in rows && rb in rows;
    var i :| 0 <= i < |rows| && rows[i] == ra;
    var j :| 0 <= j < |rows| && rows[j] == rb;
    assert i != j;
    if i < j {
      assert 0 <= i < j < |rows| && rows[i].key.setId == a.setId && rows[j].key.setId == a.setId;
    } else {
      assert 0 <= j < i < |rows| && rows[j].key.setId == a.setId && rows[i].key.setId == a.setId;
    }
  }
}
