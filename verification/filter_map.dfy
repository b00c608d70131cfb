/**
 * Keeping, in order, the results of the items a partial function accepts:
 * the shape of a loop that appends a value for each item that converts and
 * `continue`s past the others.
 */
module FilterMaps {
  import opened Wrappers

  function FilterMap<T, U>(f: T -> Option<U>, xs: seq<T>): (ys: seq<U>)
    ensures |ys| <= |xs|
  {
    if |xs| == 0 then []
    else
      var front := FilterMap(f, xs[..|xs| - 1]);
      match f(xs[|xs| - 1])
      case Some(y) => front + [y]
      case None => front
  }

  /** The positions of the accepted items, in order. */
  function Accepted<T, U>(f: T -> Option<U>, xs: seq<T>): seq<nat> {
    if |xs| == 0 then []
    else
      var front := Accepted(f, xs[..|xs| - 1]);
      if f(xs[|xs| - 1]).Some? then front + [|xs| - 1] else front
  }

  /** `Accepted` lists, strictly increasing, exactly the positions whose item `f` accepts. */
  lemma {:induction false} AcceptedIsExact<T, U>(f: T -> Option<U>, xs: seq<T>)
    ensures forall k :: 0 <= k < |Accepted(f, xs)| ==> Accepted(f, xs)[k] < |xs| && f(xs[Accepted(f, xs)[k]]).Some?
    ensures forall k, l :: 0 <= k < l < |Accepted(f, xs)| ==> Accepted(f, xs)[k] < Accepted(f, xs)[l]
    ensures forall i :: 0 <= i < |xs| ==> (f(xs[i]).Some? <==> i in Accepted(f, xs))
  {
    if |xs| > 0 {
      var n := |xs| - 1;
      var prefix := xs[..n];
      AcceptedIsExact(f, prefix);
      var front := Accepted(f, prefix);
      var ks := Accepted(f, xs);
      assert forall i :: 0 <= i < n ==> prefix[i] == xs[i];
      if f(xs[n]).Some? {
        assert ks == front + [n];
      } else {
        assert ks == front;
      }
      forall i | 0 <= i < |xs|
        ensures f(xs[i]).Some? <==> i in ks
      {
        if i < n {
          assert prefix[i] == xs[i];
        }
      }
    }
  }

  /** The `k`-th result comes from the `k`-th accepted item. */
  lemma {:induction false} FilterMapIsInOrderImage<T, U>(f: T -> Option<U>, xs: seq<T>)
    ensures |FilterMap(f, xs)| == |Accepted(f, xs)|
    ensures forall k :: 0 <= k < |Accepted(f, xs)| ==>
              Accepted(f, xs)[k] < |xs| && f(xs[Accepted(f, xs)[k]]) == Some(FilterMap(f, xs)[k])
  {
    AcceptedIsExact(f, xs);
    if |xs| > 0 {
      var n := |xs| - 1;
      var prefix := xs[..n];
      FilterMapIsInOrderImage(f, prefix);
      AcceptedIsExact(f, prefix);
      assert forall i :: 0 <= i < n ==> prefix[i] == xs[i];
      if f(xs[n]).Some? {
        assert Accepted(f, xs) == Accepted(f, prefix) + [n];
        assert FilterMap(f, xs) == FilterMap(f, prefix) + [f(xs[n]).value];
      } else {
        assert Accepted(f, xs) == Accepted(f, prefix);
        assert FilterMap(f, xs) == FilterMap(f, prefix);
      }
    }
  }
}
