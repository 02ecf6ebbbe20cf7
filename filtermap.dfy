/**
 * `xs.map(f).filter(...)`-style passes over a list: each element is either
 * dropped or replaced by one value, and the survivors keep their order.
 * The filter stages of the harvester, the label stage and the live merge
 * are all of this shape.
 */
module FilterMaps {
  import opened Wrappers

  /** The values `f` keeps, in the order of the elements they come from. */
  function FilterMap<A, B>(xs: seq<A>, f: A -> Option<B>): seq<B>
  {
    if xs == [] then []
    else
      var rest := FilterMap(xs[..|xs| - 1], f);
      match f(xs[|xs| - 1])
      case None => rest
      case Some(y) => rest + [y]
  }

  /** The positions of the elements `f` keeps, in increasing order. */
  ghost function Origins<A, B>(xs: seq<A>, f: A -> Option<B>): seq<nat>
  {
    if xs == [] then []
    else
      var rest := Origins(xs[..|xs| - 1], f);
      if f(xs[|xs| - 1]).Some? then rest + [|xs| - 1] else rest
  }

  /** Keeps the elements `p` holds for, unchanged: a plain `filter`. */
  function Where<A>(p: A -> bool): A -> Option<A>
  {
    x => if p(x) then Some(x) else None
  }

  /** `f` followed by `g` on what `f` keeps. */
  function Then<A, B, C>(f: A -> Option<B>, g: B -> Option<C>): A -> Option<C>
  {
    x => if f(x).Some? then g(f(x).value) else None
  }

  /** Keeps every element unchanged. */
  function KeepAll<A>(): A -> Option<A>
  {
    x => Some(x)
  }

  /** Visiting one more element appends what `f` keeps of it. */
  lemma FilterMapStep<A, B>(xs: seq<A>, f: A -> Option<B>, j: nat)
    requires j < |xs|
    ensures FilterMap(xs[..j + 1], f) ==
      FilterMap(xs[..j], f) + (if f(xs[j]).Some? then [f(xs[j]).value] else [])
  {
    assert xs[..j + 1][..j] == xs[..j];
  }

  /**
   * `FilterMap` is exactly: for the strictly increasing positions of the
   * elements `f` keeps (and no others), what `f` gives for them.
   */
  lemma {:induction false} FilterMapOrigins<A, B>(xs: seq<A>, f: A -> Option<B>)
    ensures |Origins(xs, f)| == |FilterMap(xs, f)|
    ensures forall k :: 0 <= k < |Origins(xs, f)| ==>
      Origins(xs, f)[k] < |xs| && f(xs[Origins(xs, f)[k]]) == Some(FilterMap(xs, f)[k])
    ensures forall k1, k2 :: 0 <= k1 < k2 < |Origins(xs, f)| ==> Origins(xs, f)[k1] < Origins(xs, f)[k2]
    ensures forall i :: 0 <= i < |xs| && f(xs[i]).Some? ==> i in Origins(xs, f)
  {
    if xs != [] {
      var init := xs[..|xs| - 1];
      FilterMapOrigins(init, f);
      forall i | 0 <= i < |init| && f(init[i]).Some?
        ensures f(xs[i]).Some? && i in Origins(init, f)
      {
        assert init[i] == xs[i];
      }
    }
  }

  /** A value comes out exactly when some element gives it. */
  lemma FilterMapMembers<A, B>(xs: seq<A>, f: A -> Option<B>, y: B)
    ensures y in FilterMap(xs, f) <==> exists i :: 0 <= i < |xs| && f(xs[i]) == Some(y)
  {
    FilterMapOrigins(xs, f);
    var o := Origins(xs, f);
    var r := FilterMap(xs, f);
    if y in r {
      var k :| 0 <= k < |r| && r[k] == y;
      assert f(xs[o[k]]) == Some(y);
    }
    if exists i :: 0 <= i < |xs| && f(xs[i]) == Some(y) {
      var i :| 0 <= i < |xs| && f(xs[i]) == Some(y);
      var k :| 0 <= k < |o| && o[k] == i;
      assert r[k] == y;
    }
  }

  /** Two passes one after the other are one pass with the composed step. */
  lemma {:induction false} FilterMapThen<A, B, C>(xs: seq<A>, f: A -> Option<B>, g: B -> Option<C>)
    ensures FilterMap(FilterMap(xs, f), g) == FilterMap(xs, Then(f, g))
  {
    if xs != [] {
      var init := xs[..|xs| - 1];
      FilterMapThen(init, f, g);
      var mid := FilterMap(init, f);
      if f(xs[|xs| - 1]).Some? {
        assert (mid + [f(xs[|xs| - 1]).value])[..|mid|] == mid;
      }
    }
  }

  /** A pass that keeps every element unchanged gives the list back. */
  lemma {:induction false} FilterMapKeepAll<A>(xs: seq<A>)
    ensures FilterMap(xs, KeepAll<A>()) == xs
  {
    if xs != [] {
      FilterMapKeepAll(xs[..|xs| - 1]);
    }
  }
}
