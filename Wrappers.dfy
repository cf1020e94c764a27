/** The Some/None datatype used where the JavaScript source returns a value or null (or NaN). */
module Wrappers {

  datatype Option<+T> = None | Some(value: T)

  /** The zero- or one-element sequence holding an optional value. */
  function ToSeq<T>(o: Option<T>): (s: seq<T>)
    ensures |s| <= 1 && (|s| == 1 <==> o.Some?)
    ensures o.Some? ==> s[0] == o.value
  {
    match o
    case None => []
    case Some(v) => [v]
  }

  /** The values `f` gives for the elements of `xs`, in order, skipping the elements it gives no value for. */
  function FilterMap<A, B>(f: A -> Option<B>, xs: seq<A>): (ys: seq<B>)
    ensures |ys| <= |xs|
  {
    if xs == [] then [] else ToSeq(f(xs[0])) + FilterMap(f, xs[1..])
  }

  lemma {:induction false} FilterMapConcat<A, B>(f: A -> Option<B>, xs: seq<A>, ys: seq<A>)
    ensures FilterMap(f, xs + ys) == FilterMap(f, xs) + FilterMap(f, ys)
  {
    if xs == [] {
      assert xs + ys == ys;
    } else {
      assert (xs + ys)[0] == xs[0];
      assert (xs + ys)[1..] == xs[1..] + ys;
      FilterMapConcat(f, xs[1..], ys);
    }
  }

  lemma {:induction false} FilterMapMembers<A, B>(f: A -> Option<B>, xs: seq<A>, y: B)
    ensures y in FilterMap(f, xs) <==> exists i :: 0 <= i < |xs| && f(xs[i]) == Some(y)
  {
    if xs != [] {
      FilterMapMembers(f, xs[1..], y);
      if y in FilterMap(f, xs[1..]) {
        var i :| 0 <= i < |xs[1..]| && f(xs[1..][i]) == Some(y);
        assert xs[i + 1] == xs[1..][i];
      }
      if exists i :: 0 <= i < |xs| && f(xs[i]) == Some(y) {
        var i :| 0 <= i < |xs| && f(xs[i]) == Some(y);
        if i > 0 {
          assert xs[1..][i - 1] == xs[i];
        }
      }
    }
  }

  lemma {:induction false} FilterMapPointwise<A, B>(f: A -> Option<B>, g: A -> Option<B>, xs: seq<A>)
    requires forall k :: 0 <= k < |xs| ==> f(xs[k]) == g(xs[k])
    ensures FilterMap(f, xs) == FilterMap(g, xs)
  {
    if xs != [] {
      assert forall k :: 0 <= k < |xs[1..]| ==> xs[1..][k] == xs[k + 1];
      FilterMapPointwise(f, g, xs[1..]);
    }
  }
}
