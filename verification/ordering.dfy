/** Ordering helpers: a stable sort by an integer key (the shape of Python's
    `sorted(xs, key=...)` and of an ORM `order_by`), first-occurrence
    de-duplication and order-preserving filtering. */
module Ordering {

  predicate SortedBy<T>(s: seq<T>, key: T -> int) {
    forall i, j | 0 <= i < j < |s| :: key(s[i]) <= key(s[j])
  }

  predicate NoDup<T(==)>(s: seq<T>) {
    forall i, j | 0 <= i < j < |s| :: s[i] != s[j]
  }

  /** Inserts `x` before the first element whose key is not smaller, so an
      element inserted earlier in `SortBy` stays ahead of equal keys. */
  function Insert<T>(x: T, s: seq<T>, key: T -> int): seq<T> {
    if |s| == 0 then [x]
    else if key(x) <= key(s[0]) then [x] + s
    else [s[0]] + Insert(x, s[1..], key)
  }

  lemma {:induction false} InsertSorted<T>(x: T, s: seq<T>, key: T -> int)
    requires SortedBy(s, key)
    ensures forall z | z in Insert(x, s, key) :: z in s || z == x
    ensures SortedBy(Insert(x, s, key), key)
    ensures multiset(Insert(x, s, key)) == multiset(s) + multiset{x}
  {
    InsertMultiset(x, s, key);
    var r := Insert(x, s, key);
    forall z | z in r ensures z in s || z == x {
      assert z in multiset(r);
    }
    if |s| > 0 {
      if key(x) <= key(s[0]) {
        PrependSorted(x, s, key);
      } else {
        InsertSorted(x, s[1..], key);
        InsertMultiset(x, s[1..], key);
        var tail := Insert(x, s[1..], key);
        forall z | z in tail ensures key(s[0]) <= key(z) {
          assert z in multiset(tail);
          if z != x {
            assert z in s[1..];
          }
        }
        PrependSorted(s[0], tail, key);
      }
    }
  }

  lemma {:induction false} InsertMultiset<T>(x: T, s: seq<T>, key: T -> int)
    ensures multiset(Insert(x, s, key)) == multiset(s) + multiset{x}
  {
    if |s| > 0 && key(x) > key(s[0]) {
      InsertMultiset(x, s[1..], key);
      assert s == [s[0]] + s[1..];
    }
  }

  /** Putting an element no larger than every other in front keeps the order. */
  lemma PrependSorted<T>(x: T, s: seq<T>, key: T -> int)
    requires SortedBy(s, key)
    requires forall z | z in s :: key(x) <= key(z)
    ensures SortedBy([x] + s, key)
  {
    var r := [x] + s;
    forall i, j | 0 <= i < j < |r| ensures key(r[i]) <= key(r[j]) {
      assert r[j] == s[j - 1];
      if i > 0 {
        assert r[i] == s[i - 1];
      }
    }
  }

  /** A stable sort: ascending by `key`, ties in input order. */
  function SortBy<T>(s: seq<T>, key: T -> int): (r: seq<T>)
    ensures SortedBy(r, key)
    ensures multiset(r) == multiset(s)
  {
    if |s| == 0 then []
    else
      assert s == [s[0]] + s[1..];
      var rest := SortBy(s[1..], key);
      InsertSorted(s[0], rest, key);
      Insert(s[0], rest, key)
  }

  lemma {:induction false} InsertNoDup<T>(x: T, s: seq<T>, key: T -> int)
    requires SortedBy(s, key) && NoDup(s) && x !in s
    ensures NoDup(Insert(x, s, key))
  {
    if |s| > 0 && key(x) > key(s[0]) {
      InsertNoDup(x, s[1..], key);
      InsertSorted(x, s[1..], key);
      var tail := Insert(x, s[1..], key);
      assert s[0] !in multiset(s[1..]) + multiset{x};
      assert s[0] !in tail;
    }
  }

  lemma {:induction false} SortByNoDup<T>(s: seq<T>, key: T -> int)
    requires NoDup(s)
    ensures NoDup(SortBy(s, key))
  {
    if |s| > 0 {
      SortByNoDup(s[1..], key);
      var rest := SortBy(s[1..], key);
      assert s[0] !in multiset(s[1..]);
      assert s[0] !in rest;
      InsertNoDup(s[0], rest, key);
    }
  }

  lemma {:induction false} InsertBeforeLargest<T>(x: T, s: seq<T>, y: T, key: T -> int)
    requires key(x) <= key(y)
    ensures Insert(x, s + [y], key) == Insert(x, s, key) + [y]
  {
    var sy := s + [y];
    if |s| == 0 {
      assert sy == [y];
    } else {
      assert sy[0] == s[0];
      if key(x) > key(s[0]) {
        assert sy[1..] == s[1..] + [y];
        InsertBeforeLargest(x, s[1..], y, key);
      }
    }
  }

  /** Sorting a sequence extended by an element whose key is at least every
      other key sorts the prefix and keeps the new element last. */
  lemma {:induction false} SortByAppendLargest<T>(s: seq<T>, y: T, key: T -> int)
    requires forall x | x in s :: key(x) <= key(y)
    ensures SortBy(s + [y], key) == SortBy(s, key) + [y]
  {
    if |s| == 0 {
      assert SortBy([y], key) == Insert(y, [], key);
    } else {
      assert (s + [y])[0] == s[0];
      assert (s + [y])[1..] == s[1..] + [y];
      SortByAppendLargest(s[1..], y, key);
      var rest := SortBy(s[1..], key);
      forall z | z in rest ensures key(z) <= key(y) {
        assert z in multiset(s[1..]);
      }
      InsertBeforeLargest(s[0], rest, y, key);
    }
  }

  /** First-occurrence de-duplication. */
  function Dedup<T(==)>(s: seq<T>): (r: seq<T>)
    ensures NoDup(r)
    ensures forall x | x in r :: x in s
    ensures forall x | x in s :: x in r
  {
    DedupFrom(s, [])
  }

  function DedupFrom<T(==)>(s: seq<T>, seen: seq<T>): (r: seq<T>)
    requires NoDup(seen)
    ensures NoDup(r)
    ensures forall x | x in r :: x in s || x in seen
    ensures forall x | x in s :: x in r
    ensures forall x | x in seen :: x in r
    ensures |seen| <= |r| && r[..|seen|] == seen
  {
    if |s| == 0 then seen
    else if s[0] in seen then DedupFrom(s[1..], seen)
    else DedupFrom(s[1..], seen + [s[0]])
  }

  /** Extending the input by one element appends it to the de-duplicated
      sequence exactly when it is new. */
  lemma DedupSnoc<T>(s: seq<T>, x: T)
    ensures Dedup(s + [x]) == if x in s then Dedup(s) else Dedup(s) + [x]
  {
    DedupFromSnoc(s, [], x);
  }

  lemma {:induction false} DedupFromSnoc<T>(s: seq<T>, seen: seq<T>, x: T)
    requires NoDup(seen)
    ensures DedupFrom(s + [x], seen) ==
      if x in s || x in seen then DedupFrom(s, seen) else DedupFrom(s, seen) + [x]
  {
    if |s| == 0 {
      assert s + [x] == [x];
    } else {
      assert (s + [x])[0] == s[0];
      assert (s + [x])[1..] == s[1..] + [x];
      if s[0] in seen {
        DedupFromSnoc(s[1..], seen, x);
      } else {
        DedupFromSnoc(s[1..], seen + [s[0]], x);
      }
    }
  }

  /** The elements satisfying `p`, in their original order (a list
      comprehension with a condition, or an ORM `filter`). */
  function Filter<T>(s: seq<T>, p: T -> bool): (r: seq<T>)
    ensures |r| <= |s|
    ensures forall x | x in r :: x in s && p(x)
    ensures forall x | x in s && p(x) :: x in r
  {
    if |s| == 0 then []
    else
      var last := s[|s| - 1];
      assert forall x | x in s[..|s| - 1] :: x in s;
      assert s == s[..|s| - 1] + [last];
      Filter(s[..|s| - 1], p) + (if p(last) then [last] else [])
  }

  lemma {:induction false} FilterAppend<T>(a: seq<T>, b: seq<T>, p: T -> bool)
    ensures Filter(a + b, p) == Filter(a, p) + Filter(b, p)
  {
    if |b| == 0 {
      assert a + b == a;
    } else {
      var b' := b[..|b| - 1];
      assert (a + b)[..|a + b| - 1] == a + b';
      FilterAppend(a, b', p);
    }
  }

  /** Filtering by a condition that implies `p` after filtering by `p` is
      filtering by that condition alone. */
  lemma {:induction false} FilterNarrow<T>(s: seq<T>, p: T -> bool, q: T -> bool)
    requires forall x :: q(x) ==> p(x)
    ensures Filter(Filter(s, p), q) == Filter(s, q)
  {
    if |s| > 0 {
      var s' := s[..|s| - 1];
      var last := s[|s| - 1];
      FilterNarrow(s', p, q);
      FilterAppend(Filter(s', p), if p(last) then [last] else [], q);
      if p(last) {
        assert Filter([last], q) == Filter([], q) + (if q(last) then [last] else []);
      } else {
        assert Filter([], q) == [];
      }
    }
  }

  /** A condition and its negation split a sequence's length. */
  lemma {:induction false} FilterCount<T>(s: seq<T>, p: T -> bool, q: T -> bool)
    requires forall x :: q(x) == !p(x)
    ensures |Filter(s, p)| + |Filter(s, q)| == |s|
  {
    if |s| > 0 {
      FilterCount(s[..|s| - 1], p, q);
    }
  }

  /** Filtering keeps everything exactly when every element passes. */
  lemma {:induction false} FilterAll<T>(s: seq<T>, p: T -> bool)
    requires forall x | x in s :: p(x)
    ensures Filter(s, p) == s
  {
    if |s| > 0 {
      var s' := s[..|s| - 1];
      assert forall x | x in s' :: x in s;
      FilterAll(s', p);
      assert p(s[|s| - 1]);
      assert s == s' + [s[|s| - 1]];
    }
  }

  /** Filtering keeps nothing when no element passes. */
  lemma {:induction false} FilterNone<T>(s: seq<T>, p: T -> bool)
    requires forall x | x in s :: !p(x)
    ensures Filter(s, p) == []
  {
    if |s| > 0 {
      var s' := s[..|s| - 1];
      assert forall x | x in s' :: x in s;
      FilterNone(s', p);
      assert !p(s[|s| - 1]);
    }
  }

  /** Filtering a duplicate-free sequence keeps it duplicate-free. */
  lemma {:induction false} FilterNoDup<T>(s: seq<T>, p: T -> bool)
    requires NoDup(s)
    ensures NoDup(Filter(s, p))
  {
    if |s| > 0 {
      var s' := s[..|s| - 1];
      var last := s[|s| - 1];
      FilterNoDup(s', p);
      assert last !in s';
      assert last !in Filter(s', p);
    }
  }
}
