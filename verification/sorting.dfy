/** A stable sort by a "sorts before or with" relation, as List.sort and
    Stream.sorted perform with a Comparator: `le(a, b)` stands for
    `compare(a, b) <= 0`. */
module Sorting {

  /** Every two values are comparable. */
  ghost predicate Total<T(!new)>(le: (T, T) -> bool) {
    forall a, b :: le(a, b) || le(b, a)
  }

  ghost predicate Transitive<T(!new)>(le: (T, T) -> bool) {
    forall a, b, c :: le(a, b) && le(b, c) ==> le(a, c)
  }

  /** Every element sorts before or with every later one. */
  ghost predicate Sorted<T>(le: (T, T) -> bool, s: seq<T>) {
    forall i, j :: 0 <= i < j < |s| ==> le(s[i], s[j])
  }

  /** `a` and `b` compare as equal. */
  predicate Tied<T>(le: (T, T) -> bool, a: T, b: T) {
    le(a, b) && le(b, a)
  }

  /** The elements of `s` that tie with `x`, in their order in `s`. */
  function TiedWith<T>(le: (T, T) -> bool, s: seq<T>, x: T): seq<T>
    decreases |s|
  {
    if |s| == 0 then []
    else if Tied(le, s[0], x) then [s[0]] + TiedWith(le, s[1..], x)
    else TiedWith(le, s[1..], x)
  }

  /** Places `x` in front of the first element it sorts before or with. */
  function Insert<T>(le: (T, T) -> bool, x: T, s: seq<T>): (r: seq<T>)
    ensures multiset(r) == multiset(s) + multiset{x}
    ensures |r| == |s| + 1
    decreases |s|
  {
    if |s| == 0 then [x]
    else if le(x, s[0]) then [x] + s
    else
      assert s == [s[0]] + s[1..];
      [s[0]] + Insert(le, x, s[1..])
  }

  /** Insertion sort: the head inserted into the sorted tail. Stable,
      because the head goes in front of everything it ties with. */
  function Sort<T>(le: (T, T) -> bool, s: seq<T>): (r: seq<T>)
    ensures multiset(r) == multiset(s)
    ensures |r| == |s|
    decreases |s|
  {
    if |s| == 0 then []
    else
      assert s == [s[0]] + s[1..];
      Insert(le, s[0], Sort(le, s[1..]))
  }

  lemma {:induction false} InsertSorted<T(!new)>(le: (T, T) -> bool, x: T, s: seq<T>)
    requires Total(le) && Transitive(le)
    requires Sorted(le, s)
    ensures Sorted(le, Insert(le, x, s))
    decreases |s|
  {
    if |s| > 0 && !le(x, s[0]) {
      var t := Insert(le, x, s[1..]);
      InsertSorted(le, x, s[1..]);
      assert le(s[0], x);
      forall j | 0 <= j < |t|
        ensures le(s[0], t[j])
      {
        assert t[j] in multiset(t);
        if t[j] != x {
          assert t[j] in multiset(s[1..]);
          var k :| 0 <= k < |s[1..]| && s[1..][k] == t[j];
          assert s[k + 1] == t[j];
        }
      }
      assert Insert(le, x, s) == [s[0]] + t;
    }
  }

  /** With a total and transitive relation the result is in order. */
  lemma {:induction false} SortSorted<T(!new)>(le: (T, T) -> bool, s: seq<T>)
    requires Total(le) && Transitive(le)
    ensures Sorted(le, Sort(le, s))
    decreases |s|
  {
    if |s| > 0 {
      SortSorted(le, s[1..]);
      InsertSorted(le, s[0], Sort(le, s[1..]));
    }
  }

  /** Inserting `y` keeps every tie class in order, with `y` first in its own. */
  lemma {:induction false} InsertTiedWith<T(!new)>(le: (T, T) -> bool, y: T, s: seq<T>, x: T)
    requires Transitive(le)
    ensures TiedWith(le, Insert(le, y, s), x) == TiedWith(le, [y] + s, x)
    decreases |s|
  {
    if |s| > 0 && !le(y, s[0]) {
      InsertTiedWith(le, y, s[1..], x);
      assert ([s[0]] + Insert(le, y, s[1..]))[1..] == Insert(le, y, s[1..]);
      assert ([y] + s)[1..] == s;
      assert ([y] + s[1..])[1..] == s[1..];
      if Tied(le, y, x) {
        assert !Tied(le, s[0], x);
      }
    } else if |s| > 0 {
      assert ([y] + s)[1..] == s;
    }
  }

  /** Stability: elements that compare as equal keep their relative order. */
  lemma {:induction false} SortStable<T(!new)>(le: (T, T) -> bool, s: seq<T>, x: T)
    requires Transitive(le)
    ensures TiedWith(le, Sort(le, s), x) == TiedWith(le, s, x)
    decreases |s|
  {
    if |s| > 0 {
      SortStable(le, s[1..], x);
      InsertTiedWith(le, s[0], Sort(le, s[1..]), x);
      assert ([s[0]] + Sort(le, s[1..]))[1..] == Sort(le, s[1..]);
    }
  }

  /** No value occurs twice. */
  predicate Distinct<T(==)>(s: seq<T>) {
    forall i, j :: 0 <= i < j < |s| ==> s[i] != s[j]
  }

  lemma {:induction false} InsertDistinct<T>(le: (T, T) -> bool, x: T, s: seq<T>)
    requires Distinct(s) && x !in s
    ensures Distinct(Insert(le, x, s))
    decreases |s|
  {
    if |s| > 0 && !le(x, s[0]) {
      var t := Insert(le, x, s[1..]);
      assert forall i :: 0 <= i < |s[1..]| ==> s[1..][i] == s[i + 1];
      InsertDistinct(le, x, s[1..]);
      assert s[0] !in multiset(s[1..]);
      assert s[0] !in multiset(t);
      assert Insert(le, x, s) == [s[0]] + t;
    }
  }

  /** Sorting a sequence without repeats gives one without repeats. */
  lemma {:induction false} SortDistinct<T>(le: (T, T) -> bool, s: seq<T>)
    requires Distinct(s)
    ensures Distinct(Sort(le, s))
    decreases |s|
  {
    if |s| > 0 {
      assert forall i :: 0 <= i < |s[1..]| ==> s[1..][i] == s[i + 1];
      SortDistinct(le, s[1..]);
      assert s[0] !in multiset(s[1..]);
      assert s[0] !in multiset(Sort(le, s[1..]));
      InsertDistinct(le, s[0], Sort(le, s[1..]));
    }
  }
}
