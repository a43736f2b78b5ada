/** flatten.ts: `Array.prototype.concat.apply([], array)`. */
module Flatten {

  /** The inner sequences one after the other. */
  function Flatten<T>(xss: seq<seq<T>>): seq<T>
  {
    if |xss| == 0 then [] else xss[0] + Flatten(xss[1..])
  }

  /** Sum of the inner lengths. */
  function TotalLength<T>(xss: seq<seq<T>>): nat
  {
    if |xss| == 0 then 0 else |xss[0]| + TotalLength(xss[1..])
  }

  lemma {:induction false} FlattenLength<T>(xss: seq<seq<T>>)
    ensures |Flatten(xss)| == TotalLength(xss)
  {
    if |xss| > 0 {
      FlattenLength(xss[1..]);
    }
  }

  lemma FlattenEmpty<T>(xss: seq<seq<T>>)
    requires |xss| == 0
    ensures Flatten(xss) == []
  {
  }

  lemma FlattenSingle<T>(xs: seq<T>)
    ensures Flatten([xs]) == xs
  {
    assert [xs][1..] == [];
  }

  /** Flattening distributes over concatenation of the outer sequence. */
  lemma {:induction false} FlattenAppend<T>(a: seq<seq<T>>, b: seq<seq<T>>)
    ensures Flatten(a + b) == Flatten(a) + Flatten(b)
  {
    if |a| == 0 {
      assert a + b == b;
    } else {
      assert (a + b)[1..] == a[1..] + b;
      FlattenAppend(a[1..], b);
    }
  }

  /** When every inner sequence has `w` elements, element `j` of inner
      sequence `i` sits at index `i * w + j` of the result. */
  lemma {:induction false} FlattenUniformIndex<T>(xss: seq<seq<T>>, w: nat, i: nat, j: nat)
    requires forall k :: 0 <= k < |xss| ==> |xss[k]| == w
    requires i < |xss| && j < w
    ensures |Flatten(xss)| == |xss| * w
    ensures i * w + j < |Flatten(xss)| && Flatten(xss)[i * w + j] == xss[i][j]
  {
    UniformLength(xss, w);
    IndexBelowProduct(i, j, |xss|, w);
    var f := Flatten(xss);
    assert f == xss[0] + Flatten(xss[1..]);
    if i == 0 {
      assert i * w + j == j;
    } else {
      var k := (i - 1) * w + j;
      assert i * w == (i - 1) * w + w;
      FlattenUniformIndex(xss[1..], w, i - 1, j);
      assert xss[1..][i - 1] == xss[i];
      assert f[w + k] == Flatten(xss[1..])[k];
    }
  }

  lemma {:induction false} UniformLength<T>(xss: seq<seq<T>>, w: nat)
    requires forall k :: 0 <= k < |xss| ==> |xss[k]| == w
    ensures |Flatten(xss)| == |xss| * w
  {
    if |xss| > 0 {
      UniformLength(xss[1..], w);
      assert |xss| * w == w + (|xss| - 1) * w;
    }
  }

  lemma {:induction false} IndexBelowProduct(i: nat, j: nat, n: nat, w: nat)
    requires i < n && j < w
    ensures i * w + j < n * w
    decreases n
  {
    MulSucc(n - 1, w);
    if i < n - 1 {
      IndexBelowProduct(i, j, n - 1, w);
    }
  }

  lemma MulSucc(n: nat, w: nat)
    ensures (n + 1) * w == n * w + w
  {
  }

  /** An element of the result is an element of one of the inner sequences,
      and every element of an inner sequence is in the result. */
  lemma {:induction false} FlattenMember<T>(xss: seq<seq<T>>, x: T)
    ensures x in Flatten(xss) <==> exists i :: 0 <= i < |xss| && x in xss[i]
  {
    if |xss| > 0 {
      FlattenMember(xss[1..], x);
      if exists i :: 0 <= i < |xss| && x in xss[i] {
        var i :| 0 <= i < |xss| && x in xss[i];
        if i > 0 {
          assert xss[1..][i - 1] == xss[i];
        }
      }
      if x in Flatten(xss[1..]) {
        var i :| 0 <= i < |xss[1..]| && x in xss[1..][i];
        assert x in xss[i + 1];
      }
    }
  }
}
