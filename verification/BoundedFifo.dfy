/** The queue the storage component is meant to be: a bounded FIFO that either drops the oldest or refuses. */
module BoundedFifo {

  function Offer<T>(q: seq<T>, x: T, bound: nat, overwrite: bool): (r: seq<T>)
    requires 0 < bound
  {
    if |q| < bound then q + [x] else if overwrite then q[1..] + [x] else q
  }

  /** The newest `n` of `xs`, or all of them. */
  function Newest<T>(xs: seq<T>, n: nat): seq<T> {
    if |xs| <= n then xs else xs[|xs| - n..]
  }

  function OfferAll<T>(q: seq<T>, xs: seq<T>, bound: nat): seq<T>
    requires 0 < bound
    decreases |xs|
  {
    if xs == [] then q else OfferAll(Offer(q, xs[0], bound, true), xs[1..], bound)
  }

  /** Overwriting keeps exactly the newest samples. */
  lemma {:induction false} OverwriteKeepsNewest<T>(q: seq<T>, xs: seq<T>, bound: nat)
    requires 0 < bound && |q| <= bound
    ensures OfferAll(q, xs, bound) == Newest(q + xs, bound)
    decreases |xs|
  {
    if xs == [] {
      assert q + xs == q;
    } else {
      var q' := Offer(q, xs[0], bound, true);
      OverwriteKeepsNewest(q', xs[1..], bound);
      if |q| < bound {
        assert q' + xs[1..] == q + xs;
      } else {
        assert q' + xs[1..] == (q + xs)[1..];
        assert Newest((q + xs)[1..], bound) == Newest(q + xs, bound);
      }
    }
  }
}
