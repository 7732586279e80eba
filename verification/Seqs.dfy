/** Concatenation and sums over sequences, used throughout. */
module Seqs {
  import opened Bytes

  function Flat<T>(xs: seq<seq<T>>): seq<T>
  {
    if xs == [] then [] else xs[0] + Flat(xs[1..])
  }

  lemma {:induction false} FlatSnoc<T>(xs: seq<seq<T>>, x: seq<T>)
    ensures Flat(xs + [x]) == Flat(xs) + x
  {
    if xs == [] {
      assert [x][1..] == [];
    } else {
      assert (xs + [x])[0] == xs[0] && (xs + [x])[1..] == xs[1..] + [x];
      FlatSnoc(xs[1..], x);
      Assoc(xs[0], Flat(xs[1..]), x);
    }
  }

  lemma FlatCons<T>(x: seq<T>, xs: seq<seq<T>>)
    ensures Flat([x] + xs) == x + Flat(xs)
  {
    assert ([x] + xs)[1..] == xs;
  }

  lemma {:induction false} FlatGrows<T>(xs: seq<seq<T>>, i: nat)
    requires i < |xs|
    ensures |Flat(xs[..i])| + |xs[i]| <= |Flat(xs)|
  {
    if i == 0 {
      assert xs[..0] == [];
    } else {
      FlatGrows(xs[1..], i - 1);
      assert xs[..i][0] == xs[0] && xs[..i][1..] == xs[1..][..i - 1];
    }
  }

  function Sum<T>(xs: seq<T>, f: T -> nat): nat
  {
    if xs == [] then 0 else Sum(xs[..|xs| - 1], f) + f(xs[|xs| - 1])
  }

  /** The summand when the elements themselves are added up. */
  function Itself(n: nat): nat { n }

  lemma SumEmpty<T>(f: T -> nat)
    ensures Sum([], f) == 0
  {
  }

  lemma SumSnoc<T>(xs: seq<T>, x: T, f: T -> nat)
    ensures Sum(xs + [x], f) == Sum(xs, f) + f(x)
  {
    assert (xs + [x])[..|xs|] == xs;
  }

  lemma {:induction false} SumCons<T>(x: T, xs: seq<T>, f: T -> nat)
    ensures Sum([x] + xs, f) == f(x) + Sum(xs, f)
  {
    if xs == [] {
      assert [x] + xs == [] + [x];
      SumSnoc([], x, f);
    } else {
      var init, last := xs[..|xs| - 1], xs[|xs| - 1];
      SumCons(x, init, f);
      assert [x] + xs == ([x] + init) + [last];
      SumSnoc([x] + init, last, f);
    }
  }

  lemma {:induction false} SumUpdate<T>(xs: seq<T>, i: nat, x: T, f: T -> nat)
    requires i < |xs|
    ensures Sum(xs[i := x], f) + f(xs[i]) == Sum(xs, f) + f(x)
  {
    var ys := xs[i := x];
    if i == |xs| - 1 {
      assert ys[..|ys| - 1] == xs[..|xs| - 1];
    } else {
      SumUpdate(xs[..|xs| - 1], i, x, f);
      assert ys[..|ys| - 1] == xs[..|xs| - 1][i := x];
    }
  }

  lemma {:induction false} SumRemove<T>(xs: seq<T>, i: nat, f: T -> nat)
    requires i < |xs|
    ensures Sum(xs[..i] + xs[i + 1..], f) + f(xs[i]) == Sum(xs, f)
  {
    var ys := xs[..i] + xs[i + 1..];
    if i == |xs| - 1 {
      assert ys == xs[..|xs| - 1];
    } else {
      var init := xs[..|xs| - 1];
      SumRemove(init, i, f);
      assert ys == (init[..i] + init[i + 1..]) + [xs[|xs| - 1]];
      SumSnoc(init[..i] + init[i + 1..], xs[|xs| - 1], f);
    }
  }

  lemma {:induction false} SumZero<T>(xs: seq<T>, f: T -> nat)
    requires Sum(xs, f) == 0
    ensures forall i :: 0 <= i < |xs| ==> f(xs[i]) == 0
  {
    if xs != [] {
      SumZero(xs[..|xs| - 1], f);
      assert forall i :: 0 <= i < |xs| - 1 ==> xs[i] == xs[..|xs| - 1][i];
    }
  }

  lemma {:induction false} SumAllZero<T>(xs: seq<T>, f: T -> nat)
    requires forall i :: 0 <= i < |xs| ==> f(xs[i]) == 0
    ensures Sum(xs, f) == 0
  {
    if xs != [] { SumAllZero(xs[..|xs| - 1], f); }
  }

  lemma {:induction false} SumPositive<T>(xs: seq<T>, f: T -> nat) returns (i: nat)
    requires Sum(xs, f) > 0
    ensures i < |xs| && f(xs[i]) > 0
  {
    if f(xs[|xs| - 1]) > 0 {
      i := |xs| - 1;
    } else {
      i := SumPositive(xs[..|xs| - 1], f);
    }
  }
}
