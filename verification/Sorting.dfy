/** ORDER BY and Array.sort: a stable insertion sort and what is known of any sorted sequence. */
module Sorting {

  /** less is a strict weak order: the elements that are not less than each other rank equally. */
  ghost predicate StrictWeak<T(!new)>(less: (T, T) -> bool) {
    && (forall a, b :: less(a, b) ==> !less(b, a))
    && (forall a, b, c :: less(a, b) ==> less(a, c) || less(c, b))
  }

  /** No two different elements rank equally. */
  ghost predicate StrictTotal<T(!new)>(less: (T, T) -> bool) {
    && StrictWeak(less)
    && (forall a, b :: a == b || less(a, b) || less(b, a))
  }

  function Insert<T>(x: T, xs: seq<T>, less: (T, T) -> bool): seq<T> {
    if xs == [] || !less(xs[0], x) then [x] + xs else [xs[0]] + Insert(x, xs[1..], less)
  }

  function Sort<T>(xs: seq<T>, less: (T, T) -> bool): seq<T> {
    if xs == [] then [] else Insert(xs[0], Sort(xs[1..], less), less)
  }

  ghost predicate Sorted<T>(xs: seq<T>, less: (T, T) -> bool) {
    forall i, j :: 0 <= i < j < |xs| ==> !less(xs[j], xs[i])
  }

  lemma {:induction false} InsertKeepsElements<T>(x: T, xs: seq<T>, less: (T, T) -> bool)
    ensures multiset(Insert(x, xs, less)) == multiset{x} + multiset(xs)
  {
    if xs == [] || !less(xs[0], x) {
    } else {
      InsertKeepsElements(x, xs[1..], less);
      assert xs == [xs[0]] + xs[1..];
    }
  }

  lemma {:induction false} SortKeepsElements<T>(xs: seq<T>, less: (T, T) -> bool)
    ensures multiset(Sort(xs, less)) == multiset(xs)
    ensures |Sort(xs, less)| == |xs|
  {
    if xs != [] {
      SortKeepsElements(xs[1..], less);
      InsertKeepsElements(xs[0], Sort(xs[1..], less), less);
      assert xs == [xs[0]] + xs[1..];
    }
    assert |multiset(Sort(xs, less))| == |Sort(xs, less)|;
    assert |multiset(xs)| == |xs|;
  }

  lemma {:induction false} InsertSorts<T(!new)>(x: T, xs: seq<T>, less: (T, T) -> bool)
    requires StrictWeak(less) && Sorted(xs, less)
    ensures Sorted(Insert(x, xs, less), less)
  {
    if xs == [] || !less(xs[0], x) {
      var r := [x] + xs;
      forall i, j | 0 <= i < j < |r| ensures !less(r[j], r[i]) {
        if i == 0 {
          assert r[j] == xs[j - 1];
          assert j > 1 ==> !less(xs[j - 1], xs[0]);
        } else {
          assert r[i] == xs[i - 1] && r[j] == xs[j - 1];
        }
      }
    } else {
      var rest := xs[1..];
      assert forall i, j :: 0 <= i < j < |rest| ==> rest[i] == xs[i + 1] && rest[j] == xs[j + 1];
      InsertSorts(x, rest, less);
      InsertKeepsElements(x, rest, less);
      var tail := Insert(x, rest, less);
      var r := [xs[0]] + tail;
      forall i, j | 0 <= i < j < |r| ensures !less(r[j], r[i]) {
        if i == 0 {
          assert r[j] == tail[j - 1];
          assert tail[j - 1] in multiset(tail);
          if tail[j - 1] != x {
            assert tail[j - 1] in rest;
            var k :| 0 <= k < |rest| && rest[k] == tail[j - 1];
            assert !less(xs[k + 1], xs[0]);
          }
        } else {
          assert r[i] == tail[i - 1] && r[j] == tail[j - 1];
        }
      }
    }
  }

  lemma {:induction false} SortSorts<T(!new)>(xs: seq<T>, less: (T, T) -> bool)
    requires StrictWeak(less)
    ensures Sorted(Sort(xs, less), less)
  {
    if xs != [] {
      SortSorts(xs[1..], less);
      InsertSorts(xs[0], Sort(xs[1..], less), less);
    }
  }

  lemma SameElements<T>(a: seq<T>, b: seq<T>)
    requires multiset(a) == multiset(b)
    ensures |a| == |b|
    ensures forall x :: x in a <==> x in b
  {
    assert |multiset(a)| == |a| && |multiset(b)| == |b|;
    forall x ensures x in a <==> x in b {
      assert x in a <==> x in multiset(a);
      assert x in b <==> x in multiset(b);
    }
  }

  lemma SortedHeadsAgree<T(!new)>(a: seq<T>, b: seq<T>, less: (T, T) -> bool)
    requires StrictTotal(less) && Sorted(a, less) && Sorted(b, less)
    requires a != [] && b != [] && a[0] in b && b[0] in a
    ensures a[0] == b[0]
  {
    var i :| 0 <= i < |b| && b[i] == a[0];
    var j :| 0 <= j < |a| && a[j] == b[0];
  }

  lemma TailElements<T>(a: seq<T>)
    requires a != []
    ensures multiset(a[1..]) == multiset(a) - multiset{a[0]}
  {
    assert a == [a[0]] + a[1..];
  }

  /** Under a total order the sorted arrangement of given elements is unique. */
  lemma {:induction false} SortedIsUnique<T(!new)>(a: seq<T>, b: seq<T>, less: (T, T) -> bool)
    requires StrictTotal(less) && Sorted(a, less) && Sorted(b, less)
    requires multiset(a) == multiset(b)
    ensures a == b
  {
    SameElements(a, b);
    if a != [] {
      assert a[0] in a && b[0] in b;
      SortedHeadsAgree(a, b, less);
      TailElements(a);
      TailElements(b);
      SortedIsUnique(a[1..], b[1..], less);
      assert a == [a[0]] + a[1..] && b == [b[0]] + b[1..];
    }
  }

  function Filter<T>(xs: seq<T>, keep: T -> bool): seq<T> {
    if xs == [] then [] else (if keep(xs[0]) then [xs[0]] else []) + Filter(xs[1..], keep)
  }

  lemma {:induction false} FilterElements<T>(xs: seq<T>, keep: T -> bool)
    ensures forall x :: multiset(Filter(xs, keep))[x] == if keep(x) then multiset(xs)[x] else 0
  {
    if xs != [] {
      FilterElements(xs[1..], keep);
      assert xs == [xs[0]] + xs[1..];
    }
  }

  lemma {:induction false} FilterMember<T>(xs: seq<T>, keep: T -> bool, x: T)
    ensures x in Filter(xs, keep) <==> x in xs && keep(x)
  {
    if xs != [] {
      FilterMember(xs[1..], keep, x);
      assert xs == [xs[0]] + xs[1..];
    }
  }

  lemma {:induction false} FilterSorted<T>(xs: seq<T>, keep: T -> bool, less: (T, T) -> bool)
    requires Sorted(xs, less)
    ensures Sorted(Filter(xs, keep), less)
  {
    if xs != [] {
      var rest := xs[1..];
      FilterSorted(rest, keep, less);
      var r := Filter(xs, keep);
      if keep(xs[0]) {
        forall i, j | 0 <= i < j < |r| ensures !less(r[j], r[i]) {
          if i == 0 {
            var kept := Filter(rest, keep);
            var y := kept[j - 1];
            FilterMember(rest, keep, y);
            var k :| 0 <= k < |rest| && rest[k] == y;
            assert rest[k] == xs[k + 1];
          } else {
            assert r[i] == Filter(rest, keep)[i - 1] && r[j] == Filter(rest, keep)[j - 1];
          }
        }
      }
    }
  }

  /** Dropping elements commutes with sorting. */
  lemma FilterOfSort<T(!new)>(xs: seq<T>, keep: T -> bool, less: (T, T) -> bool)
    requires StrictTotal(less)
    ensures Filter(Sort(xs, less), keep) == Sort(Filter(xs, keep), less)
  {
    SortKeepsElements(xs, less);
    SortSorts(xs, less);
    FilterSorted(Sort(xs, less), keep, less);
    SortSorts(Filter(xs, keep), less);
    SortKeepsElements(Filter(xs, keep), less);
    FilterElements(xs, keep);
    FilterElements(Sort(xs, less), keep);
    assert multiset(Filter(Sort(xs, less), keep)) == multiset(Sort(Filter(xs, keep), less));
    SortedIsUnique(Filter(Sort(xs, less), keep), Sort(Filter(xs, keep), less), less);
  }
}
