/** The optional value JavaScript writes as `T | undefined`, and filtering through it. */
module Wrappers {

  datatype Option<T> = None | Some(value: T)

  /** The values `f` gives for the elements of `xs`, in order, skipping those it gives none for. */
  function FilterMap<T, U>(f: T -> Option<U>, xs: seq<T>): seq<U>
  {
    if xs == [] then []
    else (match f(xs[0]) case Some(y) => [y] case None => []) + FilterMap(f, xs[1..])
  }

  lemma {:induction false} FilterMapAppend<T, U>(f: T -> Option<U>, xs: seq<T>, x: T)
    ensures FilterMap(f, xs + [x]) == FilterMap(f, xs) + (match f(x) case Some(y) => [y] case None => [])
  {
    if xs != [] {
      assert (xs + [x])[1..] == xs[1..] + [x];
      FilterMapAppend(f, xs[1..], x);
    }
  }

  /** One more element of `xs` adds what `f` gives for it. */
  lemma FilterMapStep<T, U>(f: T -> Option<U>, xs: seq<T>, i: nat)
    requires i < |xs|
    ensures FilterMap(f, xs[..i + 1]) == FilterMap(f, xs[..i]) + (match f(xs[i]) case Some(y) => [y] case None => [])
  {
    FilterMapAppend(f, xs[..i], xs[i]);
    assert xs[..i + 1] == xs[..i] + [xs[i]];
  }

  /** When `f` gives a value for every element, those values are the whole result. */
  lemma {:induction false} FilterMapAll<T, U>(f: T -> Option<U>, xs: seq<T>, ys: seq<U>)
    requires |xs| == |ys|
    requires forall i :: 0 <= i < |xs| ==> f(xs[i]) == Some(ys[i])
    ensures FilterMap(f, xs) == ys
  {
    if xs != [] {
      FilterMapAll(f, xs[1..], ys[1..]);
      assert [ys[0]] + ys[1..] == ys;
    }
  }

  /** Nothing is given exactly when `f` gives nothing for every element. */
  lemma {:induction false} FilterMapEmpty<T, U>(f: T -> Option<U>, xs: seq<T>)
    ensures FilterMap(f, xs) == [] <==> forall i :: 0 <= i < |xs| ==> f(xs[i]).None?
  {
    if xs != [] {
      FilterMapEmpty(f, xs[1..]);
      assert forall i :: 1 <= i < |xs| ==> xs[1..][i - 1] == xs[i];
    }
  }

  /** Every value given is one `f` gives for some element. */
  lemma {:induction false} FilterMapValues<T, U>(f: T -> Option<U>, xs: seq<T>, k: nat)
    requires k < |FilterMap(f, xs)|
    ensures exists i :: 0 <= i < |xs| && f(xs[i]) == Some(FilterMap(f, xs)[k])
  {
    var head := match f(xs[0]) case Some(y) => [y] case None => [];
    if k < |head| {
      assert f(xs[0]) == Some(FilterMap(f, xs)[k]);
    } else {
      FilterMapValues(f, xs[1..], k - |head|);
      var i :| 0 <= i < |xs[1..]| && f(xs[1..][i]) == Some(FilterMap(f, xs[1..])[k - |head|]);
      assert f(xs[i + 1]) == Some(FilterMap(f, xs)[k]);
    }
  }

  /** The sequences `f` gives for the elements of `xs`, concatenated in order. */
  function FlatMap<T, U>(f: T -> seq<U>, xs: seq<T>): seq<U>
  {
    if xs == [] then [] else FlatMap(f, xs[..|xs| - 1]) + f(xs[|xs| - 1])
  }

  lemma FlatMapStep<T, U>(f: T -> seq<U>, xs: seq<T>, i: nat)
    requires i < |xs|
    ensures FlatMap(f, xs[..i + 1]) == FlatMap(f, xs[..i]) + f(xs[i])
  {
    assert xs[..i + 1][..i] == xs[..i];
  }

  /** Nothing is given exactly when `f` gives nothing for every element. */
  lemma {:induction false} FlatMapEmpty<T, U>(f: T -> seq<U>, xs: seq<T>)
    ensures FlatMap(f, xs) == [] <==> forall i :: 0 <= i < |xs| ==> f(xs[i]) == []
  {
    if xs != [] {
      var init := xs[..|xs| - 1];
      FlatMapEmpty(f, init);
      assert forall i :: 0 <= i < |init| ==> init[i] == xs[i];
      assert |FlatMap(f, xs)| == |FlatMap(f, init)| + |f(xs[|xs| - 1])|;
    }
  }

  /** Every value given comes from what `f` gives for some element. */
  lemma {:induction false} FlatMapValues<T, U>(f: T -> seq<U>, xs: seq<T>, k: nat)
    requires k < |FlatMap(f, xs)|
    ensures exists i, j :: 0 <= i < |xs| && 0 <= j < |f(xs[i])| && f(xs[i])[j] == FlatMap(f, xs)[k]
  {
    var init := xs[..|xs| - 1];
    var n := |FlatMap(f, init)|;
    if k < n {
      FlatMapValues(f, init, k);
      var i, j :| 0 <= i < |init| && 0 <= j < |f(init[i])| && f(init[i])[j] == FlatMap(f, init)[k];
      assert init[i] == xs[i];
    } else {
      assert f(xs[|xs| - 1])[k - n] == FlatMap(f, xs)[k];
    }
  }
}
