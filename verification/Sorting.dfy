/** Insertion sort by an order given as a function: equal elements keep their order. */
module Sorting {
  ghost predicate TotalOrder<T(!new)>(leq: (T, T) -> bool) {
    && (forall a, b :: leq(a, b) || leq(b, a))
    && (forall a, b, c :: leq(a, b) && leq(b, c) ==> leq(a, c))
  }

  ghost predicate Ordered<T>(leq: (T, T) -> bool, s: seq<T>) {
    forall i, j :: 0 <= i < j < |s| ==> leq(s[i], s[j])
  }

  /** Before the first element that is not smaller. */
  function Insert<T(==)>(leq: (T, T) -> bool, x: T, s: seq<T>): (r: seq<T>)
    ensures multiset(r) == multiset(s) + multiset{x}
  {
    if s == [] || leq(x, s[0]) then [x] + s
    else
      assert s == [s[0]] + s[1..];
      [s[0]] + Insert(leq, x, s[1..])
  }

  function Sort<T(==)>(leq: (T, T) -> bool, s: seq<T>): (r: seq<T>)
    ensures multiset(r) == multiset(s)
  {
    if s == [] then []
    else
      assert s == [s[0]] + s[1..];
      Insert(leq, s[0], Sort(leq, s[1..]))
  }

  lemma {:induction false} InsertKeepsOrder<T(!new)>(leq: (T, T) -> bool, x: T, s: seq<T>)
    requires TotalOrder(leq) && Ordered(leq, s)
    ensures Ordered(leq, Insert(leq, x, s))
  {
    if s != [] && !leq(x, s[0]) {
      InsertKeepsOrder(leq, x, s[1..]);
      var rest := Insert(leq, x, s[1..]);
      forall i | 0 <= i < |rest| ensures leq(s[0], rest[i]) {
        assert rest[i] in multiset(rest);
      }
    }
  }

  lemma {:induction false} SortIsOrdered<T(!new)>(leq: (T, T) -> bool, s: seq<T>)
    requires TotalOrder(leq)
    ensures Ordered(leq, Sort(leq, s))
  {
    if s != [] {
      SortIsOrdered(leq, s[1..]);
      InsertKeepsOrder(leq, s[0], Sort(leq, s[1..]));
    }
  }

  function Filter<T>(keep: T -> bool, s: seq<T>): (r: seq<T>)
    ensures |r| <= |s|
  {
    if s == [] then [] else (if keep(s[0]) then [s[0]] else []) + Filter(keep, s[1..])
  }

  lemma FilterCons<T>(keep: T -> bool, x: T, s: seq<T>)
    ensures Filter(keep, [x] + s) == (if keep(x) then [x] else []) + Filter(keep, s)
  {
    assert ([x] + s)[1..] == s;
  }

  lemma {:induction false} InsertIsStable<T(!new)>(leq: (T, T) -> bool, keep: T -> bool, x: T, s: seq<T>)
    requires forall a, b :: keep(a) && keep(b) ==> leq(a, b)
    ensures Filter(keep, Insert(leq, x, s)) == (if keep(x) then [x] else []) + Filter(keep, s)
  {
    FilterCons(keep, x, s);
    if s != [] && !leq(x, s[0]) {
      InsertIsStable(leq, keep, x, s[1..]);
      FilterCons(keep, s[0], Insert(leq, x, s[1..]));
    }
  }

  /** Elements that the order does not tell apart keep their order. */
  lemma {:induction false} SortIsStable<T(!new)>(leq: (T, T) -> bool, keep: T -> bool, s: seq<T>)
    requires forall a, b :: keep(a) && keep(b) ==> leq(a, b)
    ensures Filter(keep, Sort(leq, s)) == Filter(keep, s)
  {
    if s != [] {
      SortIsStable(leq, keep, s[1..]);
      InsertIsStable(leq, keep, s[0], Sort(leq, s[1..]));
    }
  }
}
