/** The two shapes of lookup the renderer performs on a record's children,
    stated over sequences in document order: `at` (the first child that
    matches) and `xpath` (every child that matches, in order). */
module Query {
  import opened Wrappers

  /** Position of the first element satisfying `p`, if any. */
  function FirstIndex<T>(xs: seq<T>, p: T -> bool): (r: Option<nat>)
    ensures r.Some? ==> r.value < |xs| && p(xs[r.value])
    ensures r.Some? ==> forall j :: 0 <= j < r.value ==> !p(xs[j])
    ensures r.None? <==> forall j :: 0 <= j < |xs| ==> !p(xs[j])
    decreases |xs|
  {
    if |xs| == 0 then None
    else if p(xs[0]) then Some(0)
    else match FirstIndex(xs[1..], p)
      case None => None
      case Some(k) => Some(k + 1)
  }

  /** `at`: the first element satisfying `p`, if any. */
  function First<T>(xs: seq<T>, p: T -> bool): (r: Option<T>)
    ensures r.Some? <==> exists i :: 0 <= i < |xs| && p(xs[i])
    ensures r.Some? ==>
      exists i :: 0 <= i < |xs| && xs[i] == r.value && p(xs[i]) && (forall j :: 0 <= j < i ==> !p(xs[j]))
  {
    match FirstIndex(xs, p)
    case None => None
    case Some(i) => Some(xs[i])
  }

  /** `xpath`: the elements satisfying `p`, in their original order. */
  function Filter<T>(xs: seq<T>, p: T -> bool): (r: seq<T>)
    ensures |r| <= |xs|
    ensures forall i :: 0 <= i < |r| ==> r[i] in xs && p(r[i])
    ensures forall i :: 0 <= i < |xs| && p(xs[i]) ==> xs[i] in r
    decreases |xs|
  {
    if |xs| == 0 then []
    else if p(xs[0]) then [xs[0]] + Filter(xs[1..], p)
    else Filter(xs[1..], p)
  }

  /** Filtering distributes over concatenation, so order is kept. */
  lemma {:induction false} FilterConcat<T>(xs: seq<T>, ys: seq<T>, p: T -> bool)
    ensures Filter(xs + ys, p) == Filter(xs, p) + Filter(ys, p)
    decreases |xs|
  {
    if |xs| == 0 {
      assert xs + ys == ys;
    } else {
      assert (xs + ys)[0] == xs[0];
      assert (xs + ys)[1..] == xs[1..] + ys;
      FilterConcat(xs[1..], ys, p);
    }
  }

  /** Filtering keeps every matching element as many times as it occurs,
      and nothing else: a repeated match is not merged. */
  lemma {:induction false} FilterMultiset<T>(xs: seq<T>, p: T -> bool)
    ensures forall x :: multiset(Filter(xs, p))[x] == if p(x) then multiset(xs)[x] else 0
    decreases |xs|
  {
    if |xs| > 0 {
      FilterMultiset(xs[1..], p);
      assert xs == [xs[0]] + xs[1..];
      assert multiset(xs) == multiset([xs[0]]) + multiset(xs[1..]);
    }
  }

  /** `at` looks at the first element, and past it only when it does not match. */
  lemma FirstUnfold<T>(xs: seq<T>, p: T -> bool)
    requires |xs| > 0
    ensures First(xs, p) == if p(xs[0]) then Some(xs[0]) else First(xs[1..], p)
  {
    if !p(xs[0]) {
      match FirstIndex(xs[1..], p)
      case None =>
      case Some(k) => assert xs[1..][k] == xs[k + 1];
    }
  }

  /** Looking for a `p` element among the `q` elements finds the same one
      as looking among all elements, when every `p` element is a `q` element. */
  lemma {:induction false} FirstOfFilter<T>(xs: seq<T>, p: T -> bool, q: T -> bool)
    requires forall x :: p(x) ==> q(x)
    ensures First(Filter(xs, q), p) == First(xs, p)
    decreases |xs|
  {
    if |xs| > 0 {
      FirstOfFilter(xs[1..], p, q);
      FirstUnfold(xs, p);
      var f := Filter(xs, q);
      if q(xs[0]) {
        assert f == [xs[0]] + Filter(xs[1..], q);
        assert f[1..] == Filter(xs[1..], q);
        FirstUnfold(f, p);
      } else {
        assert f == Filter(xs[1..], q);
      }
    }
  }
}
