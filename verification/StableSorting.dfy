/** Go's sort.SliceStable, as a function with the laws callers rely on. */
module StableSorting {
  import opened Common

  /** less orders T up to ties: it is asymmetric, and "not before" is transitive. */
  ghost predicate StrictWeakOrder<T(!new)>(less: (T, T) -> bool) {
    && (forall x, y :: less(x, y) ==> !less(y, x))
    && (forall x, y, z :: !less(x, y) && !less(y, z) ==> !less(x, z))
  }

  /** No element stands after one it comes before. */
  ghost predicate Sorted<T>(s: seq<T>, less: (T, T) -> bool) {
    forall i, j | 0 <= i < j < |s| :: !less(s[j], s[i])
  }

  function Insert<T>(x: T, s: seq<T>, less: (T, T) -> bool): (r: seq<T>)
    ensures multiset(r) == multiset{x} + multiset(s)
  {
    if s == [] || !less(s[0], x) then [x] + s
    else
      assert s == [s[0]] + s[1..];
      [s[0]] + Insert(x, s[1..], less)
  }

  /** The stable sort of s: ties keep their order. */
  function Sort<T>(s: seq<T>, less: (T, T) -> bool): (r: seq<T>)
    ensures multiset(r) == multiset(s)
  {
    if s == [] then []
    else
      assert s == [s[0]] + s[1..];
      Insert(s[0], Sort(s[1..], less), less)
  }

  function Filter<T>(s: seq<T>, keep: T -> bool): seq<T> {
    if s == [] then []
    else (if keep(s[0]) then [s[0]] else []) + Filter(s[1..], keep)
  }

  lemma {:induction false} InsertSorted<T(!new)>(x: T, s: seq<T>, less: (T, T) -> bool)
    requires StrictWeakOrder(less) && Sorted(s, less)
    ensures Sorted(Insert(x, s, less), less)
  {
    if s != [] && less(s[0], x) {
      InsertSorted(x, s[1..], less);
      var rest := Insert(x, s[1..], less);
      forall j | 0 <= j < |rest| ensures !less(rest[j], s[0]) {
        assert rest[j] in multiset(rest);
        assert rest[j] == x || rest[j] in s[1..];
      }
    } else if s != [] {
      forall j | 0 <= j < |s| ensures !less(s[j], x) {
        assert j > 0 ==> !less(s[j], s[0]);
        assert !less(s[0], x);
      }
    }
  }

  lemma {:induction false} SortSorted<T(!new)>(s: seq<T>, less: (T, T) -> bool)
    requires StrictWeakOrder(less)
    ensures Sorted(Sort(s, less), less)
  {
    if s != [] {
      SortSorted(s[1..], less);
      InsertSorted(s[0], Sort(s[1..], less), less);
    }
  }

  lemma {:induction false} InsertStable<T(!new)>(x: T, s: seq<T>, less: (T, T) -> bool, keep: T -> bool)
    requires forall y, z :: keep(y) && keep(z) ==> !less(y, z)
    ensures Filter(Insert(x, s, less), keep) == Filter([x] + s, keep)
  {
    if s != [] && less(s[0], x) {
      InsertStable(x, s[1..], less, keep);
      assert ([x] + s)[1..] == s && ([x] + s[1..])[1..] == s[1..];
      assert Insert(x, s, less)[1..] == Insert(x, s[1..], less);
    }
  }

  /** Stability: elements that tie with one another stand in their original order. */
  lemma {:induction false} SortStable<T(!new)>(s: seq<T>, less: (T, T) -> bool, keep: T -> bool)
    requires forall y, z :: keep(y) && keep(z) ==> !less(y, z)
    ensures Filter(Sort(s, less), keep) == Filter(s, keep)
  {
    if s != [] {
      SortStable(s[1..], less, keep);
      InsertStable(s[0], Sort(s[1..], less), less, keep);
      assert ([s[0]] + Sort(s[1..], less))[1..] == Sort(s[1..], less);
    }
  }

  /** Sorting keeps exactly the elements, each as often as before. */
  lemma SortElements<T>(s: seq<T>, less: (T, T) -> bool)
    ensures |Sort(s, less)| == |s|
    ensures forall x :: x in Sort(s, less) <==> x in s
  {
    assert |multiset(Sort(s, less))| == |multiset(s)|;
    forall x ensures x in Sort(s, less) <==> x in s {
      assert x in Sort(s, less) <==> x in multiset(Sort(s, less));
    }
  }

  lemma {:induction false} InsertDistinct<T>(x: T, s: seq<T>, less: (T, T) -> bool)
    requires NoDuplicates(s) && x !in s
    ensures NoDuplicates(Insert(x, s, less))
    ensures forall y :: y in Insert(x, s, less) <==> y == x || y in s
  {
    if s != [] && less(s[0], x) {
      InsertDistinct(x, s[1..], less);
      assert s[0] !in Insert(x, s[1..], less);
    }
  }

  lemma {:induction false} SortDistinct<T>(s: seq<T>, less: (T, T) -> bool)
    requires NoDuplicates(s)
    ensures NoDuplicates(Sort(s, less))
  {
    if s != [] {
      SortDistinct(s[1..], less);
      SortElements(s[1..], less);
      InsertDistinct(s[0], Sort(s[1..], less), less);
    }
  }
}
