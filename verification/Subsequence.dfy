/** Order-preserving subsequences. */
module Subsequence {

  /** `a` can be had from `b` by leaving elements out. */
  ghost predicate Subseq<T>(a: seq<T>, b: seq<T>)
    decreases |b|
  {
    if a == [] then true
    else if b == [] then false
    else
      var m, n := |a| - 1, |b| - 1;
      Subseq(a, b[..n]) || (a[m] == b[n] && Subseq(a[..m], b[..n]))
  }

  lemma SubseqSnoc<T>(a: seq<T>, b: seq<T>, x: T)
    requires Subseq(a, b)
    ensures Subseq(a + [x], b + [x])
  {
    assert (a + [x])[..|a|] == a && (b + [x])[..|b|] == b;
  }

  lemma SubseqSelf<T>(a: seq<T>)
    ensures Subseq(a, a)
    decreases |a|
  {
    if a != [] {
      SubseqSelf(a[..|a| - 1]);
    }
  }

  lemma SubseqMore<T>(a: seq<T>, b: seq<T>, x: T)
    requires Subseq(a, b)
    ensures Subseq(a, b + [x])
  {
    assert (b + [x])[..|b|] == b;
  }

  lemma {:induction false} SubseqAppend<T>(a: seq<T>, b: seq<T>, more: seq<T>)
    requires Subseq(a, b)
    ensures Subseq(a, b + more)
    decreases |more|
  {
    if more == [] {
      assert b + more == b;
    } else {
      var n := |more| - 1;
      SubseqAppend(a, b, more[..n]);
      SubseqMore(a, b + more[..n], more[n]);
      assert b + more[..n] + [more[n]] == b + more;
    }
  }

  /** One element left out. */
  function Without<T>(a: seq<T>, i: nat): seq<T>
    requires i < |a|
  {
    a[..i] + a[i + 1..]
  }

  lemma {:induction false} SubseqWithout<T>(a: seq<T>, b: seq<T>, i: nat)
    requires Subseq(a, b) && i < |a|
    ensures Subseq(Without(a, i), b)
    decreases |b|
  {
    var m, n := |a| - 1, |b| - 1;
    var c := Without(a, i);
    if Subseq(a, b[..n]) {
      SubseqWithout(a, b[..n], i);
    } else if i == m {
      assert c == a[..m];
    } else {
      SubseqWithout(a[..m], b[..n], i);
      assert c[..m - 1] == Without(a[..m], i);
    }
  }

  /** A block left out. */
  lemma {:induction false} SubseqWithoutBlock<T>(u: seq<T>, v: seq<T>, w: seq<T>, b: seq<T>)
    requires Subseq(u + v + w, b)
    ensures Subseq(u + w, b)
    decreases |v|
  {
    if v == [] {
      assert u + v + w == u + w;
    } else {
      SubseqWithout(u + v + w, b, |u|);
      assert Without(u + v + w, |u|) == u + v[1..] + w;
      SubseqWithoutBlock(u, v[1..], w, b);
    }
  }

  /** What the relation means: an increasing choice of positions. */
  lemma {:induction false} SubseqChoice<T>(a: seq<T>, b: seq<T>) returns (at: seq<nat>)
    requires Subseq(a, b)
    ensures |at| == |a|
    ensures forall i :: 0 <= i < |a| ==> at[i] < |b| && a[i] == b[at[i]]
    ensures forall i, j :: 0 <= i < j < |a| ==> at[i] < at[j]
    decreases |b|
  {
    if a == [] {
      at := [];
    } else {
      var m, n := |a| - 1, |b| - 1;
      if Subseq(a, b[..n]) {
        at := SubseqChoice(a, b[..n]);
      } else {
        var front := SubseqChoice(a[..m], b[..n]);
        at := front + [n];
      }
    }
  }
}
