/** `GROUP BY key` with `COUNT(c)` and `SUM(c.quantity)`, ordered by the
    sum descending: the shape of the two breakdown queries of
    CardRepository. Rows whose key is null take part in no group. */
module Grouping {
  import opened Wrappers
  import opened CardModel
  import Sorting

  /** One result row: the group key, COUNT(c) and SUM(c.quantity). */
  datatype Group<K> = Group(key: K, cards: nat, total: int)

  /** How many rows of `cs` have key `k`. */
  function CountKey<K(==)>(cs: seq<Card>, key: Card -> Option<K>, k: K): nat
    decreases |cs|
  {
    if |cs| == 0 then 0
    else CountKey(cs[..|cs| - 1], key, k) + (if key(cs[|cs| - 1]) == Some(k) then 1 else 0)
  }

  /** The summed quantity of the rows of `cs` with key `k`. */
  function TotalKey<K(==)>(cs: seq<Card>, key: Card -> Option<K>, k: K): int
    decreases |cs|
  {
    if |cs| == 0 then 0
    else TotalKey(cs[..|cs| - 1], key, k) + (if key(cs[|cs| - 1]) == Some(k) then cs[|cs| - 1].quantity else 0)
  }

  /** How many rows of `cs` have a non-null key. */
  function CountKeyed<K>(cs: seq<Card>, key: Card -> Option<K>): nat
    decreases |cs|
  {
    if |cs| == 0 then 0
    else CountKeyed(cs[..|cs| - 1], key) + (if key(cs[|cs| - 1]).Some? then 1 else 0)
  }

  /** The row the query reports for key `k`. */
  function RowFor<K(==)>(cs: seq<Card>, key: Card -> Option<K>, k: K): Group<K> {
    Group(k, CountKey(cs, key, k), TotalKey(cs, key, k))
  }

  predicate KeysDistinct<K(==)>(rows: seq<Group<K>>) {
    forall i, j :: 0 <= i < j < |rows| ==> rows[i].key != rows[j].key
  }

  /** `rows` is a GROUP BY of `cs`: one row per key that occurs, none for
      keys that do not, each with that key's count and quantity sum. */
  ghost predicate GroupsOf<K(!new)>(rows: seq<Group<K>>, cs: seq<Card>, key: Card -> Option<K>) {
    && KeysDistinct(rows)
    && (forall g :: g in rows ==> g.cards > 0 && g == RowFor(cs, key, g.key))
    && (forall k :: CountKey(cs, key, k) > 0 ==> RowFor(cs, key, k) in rows)
  }

  /** The sum of the COUNT column. */
  function SumCards<K>(rows: seq<Group<K>>): int
    decreases |rows|
  {
    if |rows| == 0 then 0 else rows[0].cards + SumCards(rows[1..])
  }

  lemma {:induction false} CountKeyPositive<K>(cs: seq<Card>, key: Card -> Option<K>, k: K)
    ensures CountKey(cs, key, k) > 0 <==> exists i :: 0 <= i < |cs| && key(cs[i]) == Some(k)
    decreases |cs|
  {
    if |cs| > 0 {
      var init := cs[..|cs| - 1];
      CountKeyPositive(init, key, k);
      assert forall i :: 0 <= i < |init| ==> init[i] == cs[i];
    }
  }

  lemma {:induction false} NoCountNoTotal<K>(cs: seq<Card>, key: Card -> Option<K>, k: K)
    ensures CountKey(cs, key, k) == 0 ==> TotalKey(cs, key, k) == 0
    decreases |cs|
  {
    if |cs| > 0 {
      NoCountNoTotal(cs[..|cs| - 1], key, k);
    }
  }

  // ---------------------------------------------------------------------
  // Building the groups in order of first appearance
  // ---------------------------------------------------------------------

  /** The position of the row for `k`, or |rows| when there is none. */
  function IndexOfKey<K(==)>(rows: seq<Group<K>>, k: K): (i: nat)
    ensures i <= |rows|
    ensures i < |rows| ==> rows[i].key == k
    ensures forall j :: 0 <= j < i ==> rows[j].key != k
    decreases |rows|
  {
    if |rows| == 0 then 0
    else if rows[0].key == k then 0
    else 1 + IndexOfKey(rows[1..], k)
  }

  /** Accounts one more row with key `k` and quantity `q`. */
  function AddTo<K(==)>(rows: seq<Group<K>>, k: K, q: int): seq<Group<K>> {
    var i := IndexOfKey(rows, k);
    if i < |rows| then rows[i := Group(k, rows[i].cards + 1, rows[i].total + q)]
    else rows + [Group(k, 1, q)]
  }

  lemma AddToGroups<K(!new)>(rows: seq<Group<K>>, cs: seq<Card>, key: Card -> Option<K>, c: Card)
    requires GroupsOf(rows, cs, key)
    requires key(c).Some?
    ensures GroupsOf(AddTo(rows, key(c).value, c.quantity), cs + [c], key)
  {
    var k := key(c).value;
    RowForStep(cs, key, c);
    if IndexOfKey(rows, k) == |rows| {
      assert RowFor(cs, key, k) !in rows;
      NoCountNoTotal(cs, key, k);
    }
    AddToKeysDistinct(rows, k, c.quantity);
    AddToRowsExact(rows, cs, key, c);
    AddToCovers(rows, cs, key, c);
  }

  /** One more row changes the report for its own key only. */
  lemma RowForStep<K(!new)>(cs: seq<Card>, key: Card -> Option<K>, c: Card)
    requires key(c).Some?
    ensures RowFor(cs + [c], key, key(c).value)
              == Group(key(c).value, CountKey(cs, key, key(c).value) + 1, TotalKey(cs, key, key(c).value) + c.quantity)
    ensures forall j :: j != key(c).value ==> RowFor(cs + [c], key, j) == RowFor(cs, key, j)
  {
    assert (cs + [c])[..|cs + [c]| - 1] == cs;
  }

  lemma AddToKeysDistinct<K(!new)>(rows: seq<Group<K>>, k: K, q: int)
    requires KeysDistinct(rows)
    ensures KeysDistinct(AddTo(rows, k, q))
  {
  }

  lemma AddToRowsExact<K(!new)>(rows: seq<Group<K>>, cs: seq<Card>, key: Card -> Option<K>, c: Card)
    requires GroupsOf(rows, cs, key)
    requires key(c).Some?
    requires IndexOfKey(rows, key(c).value) == |rows| ==>
               CountKey(cs, key, key(c).value) == 0 && TotalKey(cs, key, key(c).value) == 0
    requires RowFor(cs + [c], key, key(c).value)
               == Group(key(c).value, CountKey(cs, key, key(c).value) + 1, TotalKey(cs, key, key(c).value) + c.quantity)
    requires forall j :: j != key(c).value ==> RowFor(cs + [c], key, j) == RowFor(cs, key, j)
    ensures forall g :: g in AddTo(rows, key(c).value, c.quantity) ==> g.cards > 0 && g == RowFor(cs + [c], key, g.key)
  {
  }

  lemma AddToCovers<K(!new)>(rows: seq<Group<K>>, cs: seq<Card>, key: Card -> Option<K>, c: Card)
    requires GroupsOf(rows, cs, key)
    requires key(c).Some?
    requires RowFor(cs + [c], key, key(c).value)
               == Group(key(c).value, CountKey(cs, key, key(c).value) + 1, TotalKey(cs, key, key(c).value) + c.quantity)
    requires forall j :: j != key(c).value ==> RowFor(cs + [c], key, j) == RowFor(cs, key, j)
    requires IndexOfKey(rows, key(c).value) == |rows| ==>
               CountKey(cs, key, key(c).value) == 0 && TotalKey(cs, key, key(c).value) == 0
    ensures forall j :: CountKey(cs + [c], key, j) > 0 ==> RowFor(cs + [c], key, j) in AddTo(rows, key(c).value, c.quantity)
  {
    var k := key(c).value;
    var cs' := cs + [c];
    var i := IndexOfKey(rows, k);
    var r := AddTo(rows, k, c.quantity);
    forall j | CountKey(cs', key, j) > 0
      ensures RowFor(cs', key, j) in r
    {
      if j == k {
        if i < |rows| {
          assert r[i] == RowFor(cs', key, k);
        } else {
          assert r[|rows|] == RowFor(cs', key, k);
        }
      } else {
        assert RowFor(cs, key, j) in rows;
        var m :| 0 <= m < |rows| && rows[m] == RowFor(cs, key, j);
        assert r[m] == rows[m];
      }
    }
  }

  lemma {:induction false} SumCardsUpdate<K>(rows: seq<Group<K>>, i: nat, g: Group<K>)
    requires i < |rows|
    ensures SumCards(rows[i := g]) == SumCards(rows) - rows[i].cards + g.cards
    decreases |rows|
  {
    if i > 0 {
      SumCardsUpdate(rows[1..], i - 1, g);
      assert rows[i := g][1..] == rows[1..][i - 1 := g];
    }
  }

  lemma {:induction false} SumCardsAppend<K>(rows: seq<Group<K>>, g: Group<K>)
    ensures SumCards(rows + [g]) == SumCards(rows) + g.cards
    decreases |rows|
  {
    if |rows| > 0 {
      SumCardsAppend(rows[1..], g);
      assert (rows + [g])[1..] == rows[1..] + [g];
    }
  }

  /** The groups of `cs`, in the order their keys first appear. */
  function GroupRows<K(==,!new)>(cs: seq<Card>, key: Card -> Option<K>): (rows: seq<Group<K>>)
    ensures GroupsOf(rows, cs, key)
    ensures SumCards(rows) == CountKeyed(cs, key)
    decreases |cs|
  {
    if |cs| == 0 then []
    else
      var init := GroupRows(cs[..|cs| - 1], key);
      var c := cs[|cs| - 1];
      assert cs == cs[..|cs| - 1] + [c];
      match key(c)
      case None =>
        assert forall j :: RowFor(cs, key, j) == RowFor(cs[..|cs| - 1], key, j);
        init
      case Some(k) =>
        AddToGroups(init, cs[..|cs| - 1], key, c);
        var i := IndexOfKey(init, k);
        if i < |init| then
          SumCardsUpdate(init, i, Group(k, init[i].cards + 1, init[i].total + c.quantity));
          AddTo(init, k, c.quantity)
        else
          SumCardsAppend(init, Group(k, 1, c.quantity));
          AddTo(init, k, c.quantity)
  }

  // ---------------------------------------------------------------------
  // ORDER BY SUM(c.quantity) DESC
  // ---------------------------------------------------------------------

  /** A row goes before or with another whose sum is not larger. */
  predicate ByTotalDesc<K>(a: Group<K>, b: Group<K>) {
    a.total >= b.total
  }

  lemma ByTotalDescIsOrder<K(!new)>()
    ensures Sorting.Total(ByTotalDesc<K>) && Sorting.Transitive(ByTotalDesc<K>)
  {
  }

  lemma {:induction false} SumCardsInsert<K>(x: Group<K>, rows: seq<Group<K>>)
    ensures SumCards(Sorting.Insert(ByTotalDesc<K>, x, rows)) == x.cards + SumCards(rows)
    decreases |rows|
  {
    if |rows| > 0 && !ByTotalDesc(x, rows[0]) {
      SumCardsInsert(x, rows[1..]);
    }
  }

  lemma {:induction false} SumCardsSort<K>(rows: seq<Group<K>>)
    ensures SumCards(Sorting.Sort(ByTotalDesc<K>, rows)) == SumCards(rows)
    decreases |rows|
  {
    if |rows| > 0 {
      SumCardsSort(rows[1..]);
      SumCardsInsert(rows[0], Sorting.Sort(ByTotalDesc<K>, rows[1..]));
    }
  }

  /** Reordering the rows keeps them a GROUP BY of `cs`. */
  lemma SortKeepsGroups<K(!new)>(rows: seq<Group<K>>, cs: seq<Card>, key: Card -> Option<K>)
    requires GroupsOf(rows, cs, key)
    ensures GroupsOf(Sorting.Sort(ByTotalDesc<K>, rows), cs, key)
  {
    var r := Sorting.Sort(ByTotalDesc<K>, rows);
    assert forall g :: g in r <==> g in rows by {
      forall g ensures g in r <==> g in rows {
        assert g in r <==> g in multiset(r);
        assert g in rows <==> g in multiset(rows);
      }
    }
    Sorting.SortDistinct(ByTotalDesc<K>, rows);
    forall i, j | 0 <= i < j < |r| ensures r[i].key != r[j].key {
      assert r[i] in rows && r[j] in rows;
      assert r[i] != r[j];
    }
  }

  /** getStatsBySet / getStatsByRarity: the groups, the largest quantity
      sums first. The order among equal sums is left open. */
  function GroupBy<K(==,!new)>(cs: seq<Card>, key: Card -> Option<K>): (rows: seq<Group<K>>)
    ensures GroupsOf(rows, cs, key)
    ensures forall i, j :: 0 <= i < j < |rows| ==> rows[i].total >= rows[j].total
    ensures SumCards(rows) == CountKeyed(cs, key)
  {
    var unsorted := GroupRows(cs, key);
    ByTotalDescIsOrder<K>();
    Sorting.SortSorted(ByTotalDesc<K>, unsorted);
    SortKeepsGroups(unsorted, cs, key);
    SumCardsSort(unsorted);
    Sorting.Sort(ByTotalDesc<K>, unsorted)
  }
}
