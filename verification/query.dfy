/** CardService.getCollection and getComparator: the owner's rows, narrowed
    by the optional filters, in the requested stable order. */
module CollectionQuery {
  import opened Wrappers
  import opened JavaText
  import opened CardModel
  import opened CardRepository
  import Sorting

  /** The optional query parameters; `None` is an absent parameter. */
  datatype Filters = Filters(
    setId: Option<string>,
    rarity: Option<string>,
    category: Option<string>,
    cardType: Option<string>,
    q: Option<string>)

  /** The set, rarity, category and type filters. `x.equals(null)` is
      false, so a row with a null column fails an exact filter on it; the
      type filter is a case-sensitive substring test on the serialised
      types. */
  predicate PassesExact(f: Filters, c: Card) {
    && (f.setId.None? || c.setId == f.setId)
    && (f.rarity.None? || c.rarity == f.rarity)
    && (f.category.None? || c.category == f.category)
    && (f.cardType.None? || (c.types.Some? && Contains(c.types.value, f.cardType.value)))
  }

  /** Every filter passes; `q` is a case-insensitive substring of the name. */
  predicate Matches(f: Filters, c: Card) {
    && PassesExact(f, c)
    && (f.q.None? || (c.name.Some? && Contains(Lower(c.name.value), Lower(f.q.value))))
  }

  /** The name filter runs on a row with a null name and throws. */
  predicate NameFilterThrows(f: Filters, c: Card) {
    f.q.Some? && PassesExact(f, c) && c.name.None?
  }

  // ---------------------------------------------------------------------
  // The comparator
  // ---------------------------------------------------------------------

  /** The column a listing is ordered by. */
  datatype SortKey = ByName | BySetName | ByRarity | ByQuantity | ByPrice | ByCreatedAt

  /** The `sort` parameter read as a column; anything unrecognised orders
      by creation time. */
  function SortKeyOf(sort: string): (k: SortKey)
    ensures sort !in {"name", "set_name", "rarity", "quantity", "price"} ==> k == ByCreatedAt
    ensures sort == "price" ==> k == ByPrice
  {
    if sort == "name" then ByName
    else if sort == "set_name" then BySetName
    else if sort == "rarity" then ByRarity
    else if sort == "quantity" then ByQuantity
    else if sort == "price" then ByPrice
    else ByCreatedAt
  }

  /** The order is ascending only for "asc" in any letter case. */
  predicate Ascending(order: string) {
    EqualsIgnoreCase("asc", order)
  }

  /** Comparator.nullsLast: null after every value, two nulls equal. */
  predicate NullsLast<T>(a: Option<T>, b: Option<T>, le: (T, T) -> bool) {
    match (a, b)
    case (None, None) => true
    case (None, Some(_)) => false
    case (Some(_), None) => true
    case (Some(x), Some(y)) => le(x, y)
  }

  predicate RealLe(x: real, y: real) { x <= y }
  predicate IntLe(x: int, y: int) { x <= y }

  /** The ascending comparator of `key`: compare(a, b) <= 0. */
  predicate KeyLe(key: SortKey, a: Card, b: Card) {
    match key
    case ByName => NullsLast(a.name, b.name, IgnoreCaseLe)
    case BySetName => NullsLast(a.setName, b.setName, IgnoreCaseLe)
    case ByRarity => NullsLast(a.rarity, b.rarity, IgnoreCaseLe)
    case ByQuantity => a.quantity <= b.quantity
    case ByPrice => NullsLast(a.priceMid, b.priceMid, RealLe)
    case ByCreatedAt => NullsLast(a.createdAt, b.createdAt, IntLe)
  }

  /** The comparator getComparator returns: `reversed()` swaps the
      arguments of the whole comparator, null handling included. */
  predicate Precedes(key: SortKey, asc: bool, a: Card, b: Card) {
    if asc then KeyLe(key, a, b) else KeyLe(key, b, a)
  }

  function Comparator(key: SortKey, asc: bool): (Card, Card) -> bool {
    (a: Card, b: Card) => Precedes(key, asc, a, b)
  }

  /** The value `key` orders by is null. */
  predicate KeyIsNull(key: SortKey, c: Card) {
    match key
    case ByName => c.name.None?
    case BySetName => c.setName.None?
    case ByRarity => c.rarity.None?
    case ByQuantity => false
    case ByPrice => c.priceMid.None?
    case ByCreatedAt => c.createdAt.None?
  }

  /** Ascending puts rows with a null key after the others; descending,
      being the reversed comparator, puts them before. */
  lemma NullKeyPlacement(key: SortKey, asc: bool, a: Card, b: Card)
    requires KeyIsNull(key, a) && !KeyIsNull(key, b)
    ensures asc ==> Precedes(key, asc, b, a) && !Precedes(key, asc, a, b)
    ensures !asc ==> Precedes(key, asc, a, b) && !Precedes(key, asc, b, a)
  {
  }

  lemma KeyLeTotal(key: SortKey, a: Card, b: Card)
    ensures KeyLe(key, a, b) || KeyLe(key, b, a)
  {
    match key
    case ByName => if a.name.Some? && b.name.Some? { IgnoreCaseLeTotal(a.name.value, b.name.value); }
    case BySetName => if a.setName.Some? && b.setName.Some? { IgnoreCaseLeTotal(a.setName.value, b.setName.value); }
    case ByRarity => if a.rarity.Some? && b.rarity.Some? { IgnoreCaseLeTotal(a.rarity.value, b.rarity.value); }
    case ByQuantity =>
    case ByPrice =>
    case ByCreatedAt =>
  }

  lemma KeyLeTransitive(key: SortKey, a: Card, b: Card, c: Card)
    requires KeyLe(key, a, b) && KeyLe(key, b, c)
    ensures KeyLe(key, a, c)
  {
    match key
    case ByName =>
      if a.name.Some? && b.name.Some? && c.name.Some? {
        IgnoreCaseLeTransitive(a.name.value, b.name.value, c.name.value);
      }
    case BySetName =>
      if a.setName.Some? && b.setName.Some? && c.setName.Some? {
        IgnoreCaseLeTransitive(a.setName.value, b.setName.value, c.setName.value);
      }
    case ByRarity =>
      if a.rarity.Some? && b.rarity.Some? && c.rarity.Some? {
        IgnoreCaseLeTransitive(a.rarity.value, b.rarity.value, c.rarity.value);
      }
    case ByQuantity =>
    case ByPrice =>
    case ByCreatedAt =>
  }

  /** Every comparator getComparator can return is a total preorder. */
  lemma ComparatorIsOrder(key: SortKey, asc: bool)
    ensures Sorting.Total(Comparator(key, asc)) && Sorting.Transitive(Comparator(key, asc))
  {
    var le := Comparator(key, asc);
    forall a, b ensures le(a, b) || le(b, a) {
      KeyLeTotal(key, a, b);
    }
    forall a, b, c | le(a, b) && le(b, c) ensures le(a, c) {
      if asc {
        KeyLeTransitive(key, a, b, c);
      } else {
        KeyLeTransitive(key, c, b, a);
      }
    }
  }

  // ---------------------------------------------------------------------
  // getCollection
  // ---------------------------------------------------------------------

  /** The exception getCollection can raise. */
  datatype QueryError = NullPointer

  /** The owner's rows that pass every filter, in table order. */
  function Filtered(store: Store, owner: int, f: Filters): (r: seq<Card>)
    ensures forall c :: c in r <==> c in store && c.userId == Some(owner) && Matches(f, c)
  {
    Where(FindByUserId(store, owner), (c: Card) => Matches(f, c))
  }

  /** getCollection: fails only when the name filter meets a row with a
      null name; otherwise the owner's matching rows, each once, sorted by
      the requested comparator, rows that compare equal kept in table
      order. */
  function GetCollection(store: Store, owner: int, f: Filters, sort: string, order: string)
    : (r: Result<seq<Card>, QueryError>)
    ensures r.Failure? <==> exists c :: c in FindByUserId(store, owner) && NameFilterThrows(f, c)
    ensures r.Success? ==> multiset(r.value) == multiset(Filtered(store, owner, f))
    ensures r.Success? ==> forall c :: c in r.value <==> c in store && c.userId == Some(owner) && Matches(f, c)
    ensures r.Success? ==> Sorting.Sorted(Comparator(SortKeyOf(sort), Ascending(order)), r.value)
    ensures r.Success? ==> forall x :: Sorting.TiedWith(Comparator(SortKeyOf(sort), Ascending(order)), r.value, x)
                                      == Sorting.TiedWith(Comparator(SortKeyOf(sort), Ascending(order)), Filtered(store, owner, f), x)
  {
    if exists c :: c in FindByUserId(store, owner) && NameFilterThrows(f, c) then Failure(NullPointer)
    else
      var le := Comparator(SortKeyOf(sort), Ascending(order));
      var r := Sorting.Sort(le, Filtered(store, owner, f));
      ComparatorIsOrder(SortKeyOf(sort), Ascending(order));
      Sorting.SortSorted(le, Filtered(store, owner, f));
      StableFor(le, Filtered(store, owner, f));
      assert forall c :: c in r <==> c in multiset(r);
      assert forall c :: c in Filtered(store, owner, f) <==> c in multiset(Filtered(store, owner, f));
      Success(r)
  }

  lemma StableFor(le: (Card, Card) -> bool, s: seq<Card>)
    requires Sorting.Transitive(le)
    ensures forall x :: Sorting.TiedWith(le, Sorting.Sort(le, s), x) == Sorting.TiedWith(le, s, x)
  {
    forall x ensures Sorting.TiedWith(le, Sorting.Sort(le, s), x) == Sorting.TiedWith(le, s, x) {
      Sorting.SortStable(le, s, x);
    }
  }

  /** On a table that satisfies its NOT NULL constraints the listing never
      fails. */
  lemma ValidStoreNeverThrows(store: Store, owner: int, f: Filters, sort: string, order: string)
    requires ValidStore(store)
    ensures GetCollection(store, owner, f, sort, order).Success?
  {
    forall c | c in FindByUserId(store, owner) ensures c.name.Some? {
      var i :| 0 <= i < |store| && store[i] == c;
    }
  }
}
