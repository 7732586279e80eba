/** The order the library sorts establish, under any strict weak order. */
module Sorting {
  ghost predicate StrictWeak<T(!new)>(less: (T, T) -> bool)
  {
    && (forall a :: !less(a, a))
    && (forall a, b, c :: less(a, b) && less(b, c) ==> less(a, c))
    && forall a, b, c :: !less(b, a) && !less(c, b) ==> !less(c, a)
  }

  ghost predicate Sorted<T>(s: seq<T>, less: (T, T) -> bool)
  {
    forall i, j :: 0 <= i < j < |s| ==> !less(s[j], s[i])
  }

  lemma InsertedIsSorted<T(!new)>(s: seq<T>, x: T, less: (T, T) -> bool, k: nat)
    requires StrictWeak(less) && Sorted(s, less) && k <= |s|
    requires k > 0 ==> !less(x, s[k - 1])
    requires forall i :: k <= i < |s| ==> less(x, s[i])
    ensures Sorted(s[..k] + [x] + s[k..], less)
  {
    forall i | 0 <= i < k ensures !less(x, s[i]) {
      if i < k - 1 { assert !less(s[k - 1], s[i]) && !less(x, s[k - 1]); }
    }
    assert !less(x, x);
    assert forall i :: k <= i < |s| ==> less(x, s[i]) && !less(s[i], x);
    var r := s[..k] + [x] + s[k..];
    assert forall i :: 0 <= i < k ==> r[i] == s[i];
    assert forall i :: k < i < |r| ==> r[i] == s[i - 1];
  }

  /** Insertion into the sorted prefix, after every element x is not preferred to. */
  method Insert<T(!new, ==)>(s: seq<T>, x: T, less: (T, T) -> bool) returns (r: seq<T>)
    requires StrictWeak(less) && Sorted(s, less)
    ensures Sorted(r, less) && multiset(r) == multiset(s) + multiset{x}
  {
    hide StrictWeak, Sorted;
    var k := |s|;
    while k > 0 && less(x, s[k - 1])
      invariant 0 <= k <= |s|
      invariant forall i :: k <= i < |s| ==> less(x, s[i])
    {
      k := k - 1;
    }
    r := s[..k] + [x] + s[k..];
    assert s == s[..k] + s[k..];
    InsertedIsSorted(s, x, less, k);
  }

  method InsertionSort<T(!new, ==)>(s: seq<T>, less: (T, T) -> bool) returns (r: seq<T>)
    requires StrictWeak(less)
    ensures Sorted(r, less) && multiset(r) == multiset(s)
  {
    hide StrictWeak;
    r := [];
    for i := 0 to |s|
      invariant Sorted(r, less) && multiset(r) == multiset(s[..i])
    {
      r := Insert(r, s[i], less);
      assert s[..i + 1] == s[..i] + [s[i]];
    }
    assert s[..|s|] == s;
  }
}
