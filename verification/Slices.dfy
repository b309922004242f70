/** Slices of sequences. */
module Slices {

  lemma SliceSlice<E>(s: seq<E>, a: nat, b: nat, c: nat, d: nat)
    requires a <= b <= |s| && c <= d <= b - a
    ensures s[a..b][c..d] == s[a + c..a + d]
  {
    forall i | 0 <= i < d - c ensures s[a..b][c..d][i] == s[a + c..a + d][i] {
      assert s[a..b][c + i] == s[a + c + i];
    }
  }

  lemma SliceFrom<E>(s: seq<E>, a: nat, b: nat, c: nat)
    requires a <= b <= |s| && c <= b - a
    ensures s[a..b][c..] == s[a + c..b]
  {
    SliceSlice(s, a, b, c, b - a);
  }

  lemma SliceTo<E>(s: seq<E>, b: nat, c: nat, d: nat)
    requires b <= |s| && c <= d <= b
    ensures s[..b][c..d] == s[c..d]
  {
    SliceSlice(s, 0, b, c, d);
  }

  lemma TailTo<E>(s: seq<E>, a: nat, d: nat)
    requires a <= |s| && d <= |s| - a
    ensures s[a..][..d] == s[a..a + d]
  {
    SliceSlice(s, a, |s|, 0, d);
  }

  lemma TailTail<E>(s: seq<E>, a: nat, c: nat)
    requires a + c <= |s|
    ensures s[a..][c..] == s[a + c..]
  {
    SliceFrom(s, a, |s|, c);
  }

  /** One more element at the end of a slice. */
  lemma Snoc<E>(s: seq<E>, a: nat, b: nat)
    requires a <= b < |s|
    ensures s[a..b + 1] == s[a..b] + [s[b]]
  {
    forall i | 0 <= i < b + 1 - a ensures s[a..b + 1][i] == (s[a..b] + [s[b]])[i] {
    }
  }

  /** A slice across the joint of two sequences. */
  lemma Across<E>(x: seq<E>, y: seq<E>, a: nat, b: nat)
    requires a <= |x| <= b <= |x| + |y|
    ensures (x + y)[a..b] == x[a..] + y[..b - |x|]
  {
    forall i | 0 <= i < b - a ensures (x + y)[a..b][i] == (x[a..] + y[..b - |x|])[i] {
      assert (x + y)[a..b][i] == (x + y)[a + i];
    }
  }

  lemma WithinLeft<E>(x: seq<E>, y: seq<E>, a: nat, b: nat)
    requires a <= b <= |x|
    ensures (x + y)[a..b] == x[a..b]
  {
    forall i | 0 <= i < b - a ensures (x + y)[a..b][i] == x[a..b][i] {
      assert (x + y)[a..b][i] == (x + y)[a + i];
    }
  }

  lemma Assoc<E>(a: seq<E>, b: seq<E>, c: seq<E>)
    ensures a + (b + c) == a + b + c
  {
  }
}
