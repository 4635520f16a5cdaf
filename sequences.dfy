/** Subsequences: what is left of a sequence after some of its elements are dropped,
    the survivors keeping their relative order. */
module Sequences {

  /** `a` can be obtained from `b` by deleting elements. Defined from the end, like every
      sequence function of this model: the last element of `b` is either kept (it is the
      last element of `a`) or dropped. */
  ghost predicate Subseq<T>(a: seq<T>, b: seq<T>)
    decreases |b|
  {
    a == [] ||
    (b != [] &&
     ((a[|a| - 1] == b[|b| - 1] && Subseq(a[..|a| - 1], b[..|b| - 1])) ||
      Subseq(a, b[..|b| - 1])))
  }

  /** Keeping the last element: a subsequence extended by the same element. */
  lemma SubseqKeep<T>(a: seq<T>, b: seq<T>, x: T)
    requires Subseq(a, b)
    ensures Subseq(a + [x], b + [x])
  {
    assert (a + [x])[..|a|] == a;
    assert (b + [x])[..|b|] == b;
  }

  /** Dropping the last element: a subsequence of `b` is one of every extension of `b`. */
  lemma SubseqDrop<T>(a: seq<T>, b: seq<T>, x: T)
    requires Subseq(a, b)
    ensures Subseq(a, b + [x])
  {
    assert (b + [x])[..|b|] == b;
  }

  /** Every element of a subsequence is an element of the sequence it was taken from,
      and a subsequence is never longer. */
  lemma {:induction false} SubseqIn<T>(a: seq<T>, b: seq<T>)
    requires Subseq(a, b)
    ensures |a| <= |b|
    ensures forall x :: x in a ==> x in b
    decreases |b|
  {
    if a == [] {
    } else if a[|a| - 1] == b[|b| - 1] && Subseq(a[..|a| - 1], b[..|b| - 1]) {
      SubseqIn(a[..|a| - 1], b[..|b| - 1]);
      assert a == a[..|a| - 1] + [a[|a| - 1]];
      assert b == b[..|b| - 1] + [b[|b| - 1]];
    } else {
      SubseqIn(a, b[..|b| - 1]);
      assert b == b[..|b| - 1] + [b[|b| - 1]];
    }
  }

  lemma {:induction false} SubseqTrans<T>(a: seq<T>, b: seq<T>, c: seq<T>)
    requires Subseq(a, b) && Subseq(b, c)
    ensures Subseq(a, c)
    decreases |c|
  {
    if a == [] {
    } else if !(b[|b| - 1] == c[|c| - 1] && Subseq(b[..|b| - 1], c[..|c| - 1])) {
      SubseqTrans(a, b, c[..|c| - 1]);
    } else if a[|a| - 1] == b[|b| - 1] && Subseq(a[..|a| - 1], b[..|b| - 1]) {
      SubseqTrans(a[..|a| - 1], b[..|b| - 1], c[..|c| - 1]);
    } else {
      SubseqTrans(a, b[..|b| - 1], c[..|c| - 1]);
    }
  }
}
