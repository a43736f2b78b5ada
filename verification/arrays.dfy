/** `Array.prototype.filter` with a pure predicate. */
module Arrays {

  /** The elements that satisfy `p`, in their original order. */
  function Filter<T>(xs: seq<T>, p: T -> bool): (r: seq<T>)
    ensures |r| <= |xs|
  {
    if |xs| == 0 then []
    else Filter(xs[..|xs| - 1], p) + (if p(xs[|xs| - 1]) then [xs[|xs| - 1]] else [])
  }

  /** Exactly the elements that satisfy `p` are kept. */
  lemma {:induction false} FilterExactly<T>(xs: seq<T>, p: T -> bool)
    ensures forall x :: x in Filter(xs, p) <==> x in xs && p(x)
  {
    if |xs| > 0 {
      var init := xs[..|xs| - 1];
      FilterExactly(init, p);
      assert xs == init + [xs[|xs| - 1]];
    }
  }

  /** Filtering two lists one after the other filters each in turn. */
  lemma {:induction false} FilterAppend<T>(xs: seq<T>, ys: seq<T>, p: T -> bool)
    ensures Filter(xs + ys, p) == Filter(xs, p) + Filter(ys, p)
    decreases |ys|
  {
    if |ys| == 0 {
      assert xs + ys == xs;
    } else {
      assert (xs + ys)[..|xs + ys| - 1] == xs + ys[..|ys| - 1];
      FilterAppend(xs, ys[..|ys| - 1], p);
    }
  }
}
