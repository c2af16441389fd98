/** A stable sort by a strict weak order, as sort.SliceStable computes it. */
module StableSort {

  type Less<!T> = (T, T) -> bool

  function Insert<T>(less: Less<T>, x: T, xs: seq<T>): seq<T> {
    if xs == [] || !less(xs[0], x) then [x] + xs else [xs[0]] + Insert(less, x, xs[1..])
  }

  function Sort<T>(less: Less<T>, xs: seq<T>): seq<T> {
    if xs == [] then [] else Insert(less, xs[0], Sort(less, xs[1..]))
  }

  /** Not before itself; before is transitive, and so is not before. */
  ghost predicate WeakOrder<T(!new)>(less: Less<T>) {
    && (forall a :: !less(a, a))
    && (forall a, b, c :: less(a, b) && less(b, c) ==> less(a, c))
    && (forall a, b, c :: !less(a, b) && !less(b, c) ==> !less(a, c))
  }

  ghost predicate Sorted<T>(less: Less<T>, xs: seq<T>) {
    forall i, j :: 0 <= i < j < |xs| ==> !less(xs[j], xs[i])
  }

  lemma {:induction false} InsertMultiset<T>(less: Less<T>, x: T, xs: seq<T>)
    ensures multiset(Insert(less, x, xs)) == multiset{x} + multiset(xs)
  {
    if xs != [] && less(xs[0], x) {
      InsertMultiset(less, x, xs[1..]);
      assert xs == [xs[0]] + xs[1..];
    }
  }

  lemma {:induction false} SortMultiset<T>(less: Less<T>, xs: seq<T>)
    ensures multiset(Sort(less, xs)) == multiset(xs)
  {
    if xs != [] {
      SortMultiset(less, xs[1..]);
      InsertMultiset(less, xs[0], Sort(less, xs[1..]));
      assert xs == [xs[0]] + xs[1..];
    }
  }

  lemma {:induction false} InsertSorted<T(!new)>(less: Less<T>, x: T, xs: seq<T>)
    requires WeakOrder(less) && Sorted(less, xs)
    ensures Sorted(less, Insert(less, x, xs))
  {
    if xs != [] && less(xs[0], x) {
      var rest := Insert(less, x, xs[1..]);
      InsertSorted(less, x, xs[1..]);
      InsertMultiset(less, x, xs[1..]);
      forall j | 0 <= j < |rest| ensures !less(rest[j], xs[0]) {
        assert rest[j] in multiset(rest);
        assert rest[j] == x || rest[j] in xs[1..];
      }
    } else if xs != [] {
      forall j | 0 <= j < |xs| ensures !less(xs[j], x) {
      }
    }
  }

  lemma {:induction false} SortSorted<T(!new)>(less: Less<T>, xs: seq<T>)
    requires WeakOrder(less)
    ensures Sorted(less, Sort(less, xs))
  {
    if xs != [] {
      SortSorted(less, xs[1..]);
      InsertSorted(less, xs[0], Sort(less, xs[1..]));
    }
  }

  /** Sorting what is sorted moves nothing. */
  lemma {:induction false} SortOfSorted<T(!new)>(less: Less<T>, xs: seq<T>)
    requires Sorted(less, xs)
    ensures Sort(less, xs) == xs
  {
    if xs != [] {
      SortOfSorted(less, xs[1..]);
      assert |xs| > 1 ==> !less(xs[1], xs[0]);
    }
  }

  /** Any two elements are in some order. */
  ghost predicate Distinct<T>(less: Less<T>, xs: seq<T>) {
    forall i, j :: 0 <= i < j < |xs| ==> less(xs[i], xs[j]) || less(xs[j], xs[i])
  }

  lemma SameFirst<T(!new)>(less: Less<T>, a: seq<T>, b: seq<T>)
    requires Sorted(less, a) && Sorted(less, b) && multiset(a) == multiset(b) && a != [] && b != []
    requires Distinct(less, a)
    ensures a[0] == b[0]
  {
    assert a[0] in multiset(b) && b[0] in multiset(a);
    var i :| 0 <= i < |b| && b[i] == a[0];
    var j :| 0 <= j < |a| && a[j] == b[0];
  }

  lemma Rest<T>(a: seq<T>)
    requires a != []
    ensures multiset(a[1..]) == multiset(a) - multiset{a[0]}
  {
    assert a == [a[0]] + a[1..];
  }

  /** One arrangement only is sorted. */
  lemma {:induction false} SortedUnique<T(!new)>(less: Less<T>, a: seq<T>, b: seq<T>)
    requires Sorted(less, a) && Sorted(less, b) && multiset(a) == multiset(b) && Distinct(less, a)
    ensures a == b
    decreases |a|
  {
    assert |a| == |multiset(a)| && |b| == |multiset(b)|;
    if a != [] {
      SameFirst(less, a, b);
      Rest(a);
      Rest(b);
      SortedUnique(less, a[1..], b[1..]);
      assert a == [a[0]] + a[1..] && b == [b[0]] + b[1..];
    }
  }

  function Map<T, U>(f: T -> U, xs: seq<T>): (r: seq<U>)
    ensures |r| == |xs| && forall i :: 0 <= i < |xs| ==> r[i] == f(xs[i])
  {
    if xs == [] then [] else [f(xs[0])] + Map(f, xs[1..])
  }

  lemma {:induction false} InsertMap<T(!new), U>(f: T -> U, less: Less<T>, below: Less<U>, x: T, xs: seq<T>)
    requires forall a, b :: less(a, b) == below(f(a), f(b))
    ensures Map(f, Insert(less, x, xs)) == Insert(below, f(x), Map(f, xs))
  {
    if xs != [] && less(xs[0], x) {
      InsertMap(f, less, below, x, xs[1..]);
    }
  }

  /** Sorting by what f shows, and then showing it, is sorting what f shows. */
  lemma {:induction false} SortMap<T(!new), U>(f: T -> U, less: Less<T>, below: Less<U>, xs: seq<T>)
    requires forall a, b :: less(a, b) == below(f(a), f(b))
    ensures Map(f, Sort(less, xs)) == Sort(below, Map(f, xs))
  {
    if xs != [] {
      SortMap(f, less, below, xs[1..]);
      InsertMap(f, less, below, xs[0], Sort(less, xs[1..]));
    }
  }
}
