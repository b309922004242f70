/**
 Natural merge sort on sequences of list elements (the specification of list_sort in
 lib/kernel/list.c): runs, the stable merge of two runs, and one pass over all runs.
 */
module MergeRuns {
  import opened Slices

  /** A list element: two links and what contains it. */
  class Elem<T(0)> {
    var prev: Elem?<T>
    var next: Elem?<T>
    const val: T

    constructor (val: T)
      ensures this.val == val && prev == null && next == null
    {
      this.val, prev, next := val, null, null;
    }

    /** The head or tail of a list. */
    constructor Sentinel()
      ensures prev == null && next == null
    {
      prev, next := null, null;
    }
  }

  ghost predicate StrictWeakOrder<T(!new)>(less: (T, T) -> bool) {
    && (forall x, y :: less(x, y) ==> !less(y, x))
    && (forall x, y, z :: !less(x, y) && !less(y, z) ==> !less(x, z))
  }

  predicate Less<T(0)>(less: (T, T) -> bool, x: Elem<T>, y: Elem<T>) {
    less(x.val, y.val)
  }

  ghost predicate Sorted<T(0)>(less: (T, T) -> bool, s: seq<Elem<T>>) {
    forall i, j :: 0 <= i < j < |s| ==> !Less(less, s[j], s[i])
  }

  /** How often an element is less than the one before it. */
  ghost function Descents<T(0)>(less: (T, T) -> bool, s: seq<Elem<T>>): nat {
    if |s| < 2 then 0 else (if Less(less, s[1], s[0]) then 1 else 0) + Descents(less, s[1..])
  }

  /** The length of the run at the front of S. */
  ghost function RunLen<T(0)>(less: (T, T) -> bool, s: seq<Elem<T>>): (n: nat)
    requires s != []
    ensures 0 < n <= |s|
    ensures forall i :: 0 < i < n ==> !Less(less, s[i], s[i - 1])
    ensures n < |s| ==> Less(less, s[n], s[n - 1])
  {
    if |s| > 1 && !Less(less, s[1], s[0]) then 1 + RunLen(less, s[1..]) else 1
  }

  /** The stable merge: at a tie the element of XS goes first. */
  ghost function Merge<T(0)>(less: (T, T) -> bool, xs: seq<Elem<T>>, ys: seq<Elem<T>>): (r: seq<Elem<T>>)
    ensures |r| == |xs| + |ys|
  {
    if xs == [] then ys
    else if ys == [] then xs
    else if !Less(less, ys[0], xs[0]) then [xs[0]] + Merge(less, xs[1..], ys)
    else [ys[0]] + Merge(less, xs, ys[1..])
  }

  /** One pass of list_sort: adjacent runs are merged in pairs. */
  ghost function Pass<T(0)>(less: (T, T) -> bool, s: seq<Elem<T>>): (r: seq<Elem<T>>)
    ensures |r| == |s|
    decreases |s|
  {
    if s == [] then []
    else
      var m := RunLen(less, s);
      if m == |s| then s
      else
        var k := RunLen(less, s[m..]);
        Merge(less, s[..m], s[m..m + k]) + Pass(less, s[m + k..])
  }

  /** The number of runs a pass puts out. */
  ghost function PassRuns<T(0)>(less: (T, T) -> bool, s: seq<Elem<T>>): nat
    decreases |s|
  {
    if s == [] then 0
    else
      var m := RunLen(less, s);
      if m == |s| then 1 else 1 + PassRuns(less, s[m + RunLen(less, s[m..])..])
  }

  /** The elements of S equivalent to V, in order. */
  ghost function Class<T(0)>(less: (T, T) -> bool, s: seq<Elem<T>>, v: T): seq<Elem<T>> {
    if s == [] then []
    else (if !less(s[0].val, v) && !less(v, s[0].val) then [s[0]] else []) + Class(less, s[1..], v)
  }

  /** S' is S rearranged, with equivalent elements in the same order. */
  ghost predicate StablePermutation<T(0, !new)>(less: (T, T) -> bool, s: seq<Elem<T>>, s': seq<Elem<T>>) {
    multiset(s') == multiset(s) && forall v :: Class(less, s', v) == Class(less, s, v)
  }

  // ---- Runs ----

  lemma {:induction false} AdjacentSorted<T(0, !new)>(less: (T, T) -> bool, s: seq<Elem<T>>)
    requires StrictWeakOrder(less) && forall i :: 0 < i < |s| ==> !Less(less, s[i], s[i - 1])
    ensures Sorted(less, s)
  {
    if |s| > 1 {
      var t := s[..|s| - 1];
      AdjacentSorted(less, t);
      forall i | 0 <= i < |s| - 1 ensures !Less(less, s[|s| - 1], s[i]) {
        assert s[i] == t[i];
        if i < |s| - 2 {
          assert !Less(less, t[|s| - 2], t[i]);
        }
      }
    }
  }

  lemma {:induction false} NoDescentsSorted<T(0, !new)>(less: (T, T) -> bool, s: seq<Elem<T>>)
    requires StrictWeakOrder(less)
    ensures Descents(less, s) == 0 <==> Sorted(less, s)
  {
    if |s| > 1 {
      NoDescentsSorted(less, s[1..]);
      if Descents(less, s) == 0 {
        forall i | 0 < i < |s| ensures !Less(less, s[i], s[i - 1]) {
          if i > 1 {
            assert !Less(less, s[1..][i - 1], s[1..][i - 2]);
          }
        }
        AdjacentSorted(less, s);
      }
      if Sorted(less, s) {
        assert Sorted(less, s[1..]);
      }
    }
  }

  /** Cutting at a descent takes one descent away. */
  lemma {:induction false} DescentsSplit<T(0)>(less: (T, T) -> bool, a: seq<Elem<T>>, b: seq<Elem<T>>)
    requires a != [] && b != []
    ensures Descents(less, a + b)
            == Descents(less, a) + (if Less(less, b[0], a[|a| - 1]) then 1 else 0) + Descents(less, b)
  {
    assert (a + b)[1..] == a[1..] + b;
    if |a| == 1 {
      assert a[1..] + b == b;
    } else {
      DescentsSplit(less, a[1..], b);
    }
  }

  lemma {:induction false} RunSorted<T(0, !new)>(less: (T, T) -> bool, s: seq<Elem<T>>)
    requires StrictWeakOrder(less) && s != []
    ensures Sorted(less, s[..RunLen(less, s)])
    ensures RunLen(less, s) < |s| ==> Descents(less, s[RunLen(less, s)..]) == Descents(less, s) - 1
    ensures RunLen(less, s) == |s| ==> Descents(less, s) == 0
  {
    var m := RunLen(less, s);
    AdjacentSorted(less, s[..m]);
    NoDescentsSorted(less, s[..m]);
    assert s == s[..m] + s[m..];
    if m < |s| {
      DescentsSplit(less, s[..m], s[m..]);
    } else {
      assert s[..m] == s;
    }
  }

  // ---- Merging ----

  lemma {:induction false} MergeElements<T(0)>(less: (T, T) -> bool, xs: seq<Elem<T>>, ys: seq<Elem<T>>)
    ensures multiset(Merge(less, xs, ys)) == multiset(xs) + multiset(ys)
    decreases |xs| + |ys|
  {
    hide Merge;
    if xs == [] || ys == [] {
      MergeNone(less, xs, ys);
    } else if !Less(less, ys[0], xs[0]) {
      MergeUnfold(less, xs, ys);
      MergeElements(less, xs[1..], ys);
      ConsBag(xs);
    } else {
      MergeUnfold(less, xs, ys);
      MergeElements(less, xs, ys[1..]);
      ConsBag(ys);
    }
  }

  lemma ConsBag<E>(s: seq<E>)
    requires s != []
    ensures multiset(s) == multiset{s[0]} + multiset(s[1..])
  {
    assert s == [s[0]] + s[1..];
  }

  lemma {:induction false} MergeSorted<T(0, !new)>(less: (T, T) -> bool, xs: seq<Elem<T>>, ys: seq<Elem<T>>)
    requires StrictWeakOrder(less) && Sorted(less, xs) && Sorted(less, ys)
    ensures Sorted(less, Merge(less, xs, ys))
    decreases |xs| + |ys|
  {
    if xs != [] && ys != [] {
      var r := Merge(less, xs, ys);
      if !Less(less, ys[0], xs[0]) {
        MergeSorted(less, xs[1..], ys);
        MergeElements(less, xs[1..], ys);
        FrontLeast(less, xs[0], xs[1..], ys, Merge(less, xs[1..], ys));
      } else {
        MergeSorted(less, xs, ys[1..]);
        MergeElements(less, xs, ys[1..]);
        FrontLeast(less, ys[0], xs, ys[1..], Merge(less, xs, ys[1..]));
      }
    }
  }

  lemma FrontLeast<T(0, !new)>(less: (T, T) -> bool, x: Elem<T>, a: seq<Elem<T>>, b: seq<Elem<T>>, r: seq<Elem<T>>)
    requires StrictWeakOrder(less) && Sorted(less, r) && multiset(r) == multiset(a) + multiset(b)
    requires forall e :: e in a ==> !Less(less, e, x)
    requires forall e :: e in b ==> !Less(less, e, x)
    ensures Sorted(less, [x] + r)
  {
    forall j | 0 <= j < |r| ensures !Less(less, r[j], x) {
      assert r[j] in multiset(r);
      assert r[j] in a || r[j] in b;
    }
  }

  // ---- Stability ----

  lemma {:induction false} ClassSplit<T(0)>(less: (T, T) -> bool, a: seq<Elem<T>>, b: seq<Elem<T>>, v: T)
    ensures Class(less, a + b, v) == Class(less, a, v) + Class(less, b, v)
  {
    if a == [] {
      assert a + b == b;
    } else {
      assert (a + b)[1..] == a[1..] + b;
      ClassSplit(less, a[1..], b, v);
    }
  }

  /** If all of S is above an element equivalent to V, none of S is equivalent to V. */
  lemma {:induction false} ClassAbove<T(0, !new)>(less: (T, T) -> bool, s: seq<Elem<T>>, y: Elem<T>, v: T)
    requires StrictWeakOrder(less) && !less(y.val, v) && !less(v, y.val)
    requires forall i :: 0 <= i < |s| ==> Less(less, y, s[i])
    ensures Class(less, s, v) == []
  {
    if s != [] {
      assert Less(less, y, s[0]);
      assert less(v, s[0].val);
      forall i | 0 <= i < |s[1..]| ensures Less(less, y, s[1..][i]) {
        assert s[1..][i] == s[i + 1];
      }
      ClassAbove(less, s[1..], y, v);
    }
  }

  lemma {:induction false} MergeStable<T(0, !new)>(less: (T, T) -> bool, xs: seq<Elem<T>>, ys: seq<Elem<T>>, v: T)
    requires StrictWeakOrder(less) && Sorted(less, xs)
    ensures Class(less, Merge(less, xs, ys), v) == Class(less, xs, v) + Class(less, ys, v)
    decreases |xs| + |ys|
  {
    hide StrictWeakOrder, Sorted, Class, Merge;
    if xs == [] || ys == [] {
      MergeNone(less, xs, ys);
      ClassSplit(less, xs, ys, v);
    } else if !Less(less, ys[0], xs[0]) {
      SortedTail(less, xs);
      MergeStable(less, xs[1..], ys, v);
      MergeUnfold(less, xs, ys);
      ClassFront(less, xs[0], Merge(less, xs[1..], ys), v);
      ClassFront(less, xs[0], xs[1..], v);
      assert xs == [xs[0]] + xs[1..];
    } else {
      MergeStable(less, xs, ys[1..], v);
      MergeUnfold(less, xs, ys);
      ClassFront(less, ys[0], Merge(less, xs, ys[1..]), v);
      ClassFront(less, ys[0], ys[1..], v);
      assert ys == [ys[0]] + ys[1..];
      ClassFirst(less, xs, ys[0], v);
      SwapFront(Class(less, [ys[0]], v), Class(less, xs, v), Class(less, ys[1..], v));
    }
  }

  lemma {:induction false} MergeNone<T(0)>(less: (T, T) -> bool, xs: seq<Elem<T>>, ys: seq<Elem<T>>)
    requires xs == [] || ys == []
    ensures Merge(less, xs, ys) == xs + ys
  {
  }

  lemma {:induction false} MergeUnfold<T(0)>(less: (T, T) -> bool, xs: seq<Elem<T>>, ys: seq<Elem<T>>)
    requires xs != [] && ys != []
    ensures Merge(less, xs, ys) == if !Less(less, ys[0], xs[0]) then [xs[0]] + Merge(less, xs[1..], ys)
                                   else [ys[0]] + Merge(less, xs, ys[1..])
  {
  }

  lemma {:induction false} ClassFront<T(0)>(less: (T, T) -> bool, x: Elem<T>, s: seq<Elem<T>>, v: T)
    ensures Class(less, [x] + s, v) == Class(less, [x], v) + Class(less, s, v)
  {
    ClassSplit(less, [x], s, v);
  }

  lemma SwapFront<E>(a: seq<E>, b: seq<E>, c: seq<E>)
    requires a + b == b + a
    ensures a + (b + c) == b + (a + c)
  {
    assert a + (b + c) == (a + b) + c;
    assert b + (a + c) == (b + a) + c;
  }

  lemma SortedTail<T(0)>(less: (T, T) -> bool, xs: seq<Elem<T>>)
    requires Sorted(less, xs) && xs != []
    ensures Sorted(less, xs[1..])
  {
  }

  /** An element that is below all of XS may pass in front of those equivalent to V. */
  lemma {:induction false} ClassFirst<T(0, !new)>(less: (T, T) -> bool, xs: seq<Elem<T>>, y: Elem<T>, v: T)
    requires StrictWeakOrder(less) && Sorted(less, xs) && xs != [] && Less(less, y, xs[0])
    ensures Class(less, [y], v) + Class(less, xs, v) == Class(less, xs, v) + Class(less, [y], v)
  {
    if !less(y.val, v) && !less(v, y.val) {
      hide StrictWeakOrder, Sorted, Class;
      forall i | 0 <= i < |xs| ensures Less(less, y, xs[i]) {
        AboveAll(less, xs, y, i);
      }
      ClassAbove(less, xs, y, v);
    } else {
      assert Class(less, [y], v) == [];
    }
  }

  lemma AboveAll<T(0, !new)>(less: (T, T) -> bool, xs: seq<Elem<T>>, y: Elem<T>, i: nat)
    requires StrictWeakOrder(less) && Sorted(less, xs) && i < |xs| && Less(less, y, xs[0])
    ensures Less(less, y, xs[i])
  {
    if i > 0 {
      assert !Less(less, xs[i], xs[0]);
    }
  }

  // ---- A whole pass ----

  lemma {:induction false} PassStable<T(0, !new)>(less: (T, T) -> bool, s: seq<Elem<T>>)
    requires StrictWeakOrder(less)
    ensures StablePermutation(less, s, Pass(less, s))
    decreases |s|
  {
    if s != [] && RunLen(less, s) < |s| {
      var m := RunLen(less, s);
      var k := RunLen(less, s[m..]);
      var xs, ys, rest := s[..m], s[m..m + k], s[m + k..];
      assert s == xs + ys + rest;
      RunSorted(less, s);
      PassStable(less, rest);
      MergeElements(less, xs, ys);
      forall v ensures Class(less, Pass(less, s), v) == Class(less, s, v) {
        MergeStable(less, xs, ys, v);
        ClassSplit(less, Merge(less, xs, ys), Pass(less, rest), v);
        ClassSplit(less, xs, ys, v);
        ClassSplit(less, xs + ys, rest, v);
      }
    }
  }

  /** A pass halves the number of runs, rounding up, and its output has no more. */
  lemma {:induction false} PassDescents<T(0, !new)>(less: (T, T) -> bool, s: seq<Elem<T>>)
    requires StrictWeakOrder(less) && s != []
    ensures PassRuns(less, s) == Descents(less, s) / 2 + 1
    ensures Descents(less, Pass(less, s)) <= Descents(less, s) / 2
    decreases |s|
  {
    var m := RunLen(less, s);
    RunSorted(less, s);
    if m < |s| {
      var k := RunLen(less, s[m..]);
      RunSorted(less, s[m..]);
      TailTo(s, m, k);
      TailTail(s, m, k);
      var merged, rest := Merge(less, s[..m], s[m..m + k]), s[m + k..];
      MergeSorted(less, s[..m], s[m..m + k]);
      NoDescentsSorted(less, merged);
      hide Sorted, Merge, StrictWeakOrder, Descents, Less, RunLen;
      if rest != [] {
        PassDescents(less, rest);
        JoinDescents(less, merged, Pass(less, rest));
      }
      PassUnfold(less, s, m, k);
    }
  }

  lemma {:induction false} PassUnfold<T(0)>(less: (T, T) -> bool, s: seq<Elem<T>>, m: nat, k: nat)
    requires s != [] && m == RunLen(less, s) < |s| && k == RunLen(less, s[m..])
    ensures PassRuns(less, s) == 1 + PassRuns(less, s[m + k..])
    ensures Pass(less, s) == Merge(less, s[..m], s[m..m + k]) + Pass(less, s[m + k..])
    ensures s[m + k..] == [] ==> Pass(less, s) == Merge(less, s[..m], s[m..m + k]) && PassRuns(less, s) == 1
  {
    hide Merge, RunLen, Less, Pass, PassRuns;
    var merged, rest := Merge(less, s[..m], s[m..m + k]), s[m + k..];
    PassTwo(less, s, m, k);
    RunsTwo(less, s, m, k);
    if rest == [] {
      PassEmpty(less);
      assert merged + [] == merged;
    }
  }

  lemma {:induction false} PassTwo<T(0)>(less: (T, T) -> bool, s: seq<Elem<T>>, m: nat, k: nat)
    requires s != [] && m == RunLen(less, s) < |s| && k == RunLen(less, s[m..])
    ensures Pass(less, s) == Merge(less, s[..m], s[m..m + k]) + Pass(less, s[m + k..])
  {
    hide Merge, RunLen, Less;
  }

  lemma {:induction false} RunsTwo<T(0)>(less: (T, T) -> bool, s: seq<Elem<T>>, m: nat, k: nat)
    requires s != [] && m == RunLen(less, s) < |s| && k == RunLen(less, s[m..])
    ensures PassRuns(less, s) == 1 + PassRuns(less, s[m + k..])
  {
    hide Merge, RunLen, Less;
  }

  lemma {:induction false} PassEmpty<T(0)>(less: (T, T) -> bool)
    ensures Pass(less, []) == [] && PassRuns(less, []) == 0
  {
  }

  lemma {:induction false} JoinDescents<T(0)>(less: (T, T) -> bool, a: seq<Elem<T>>, b: seq<Elem<T>>)
    requires a != [] && b != []
    ensures Descents(less, a + b) <= Descents(less, a) + 1 + Descents(less, b)
  {
    DescentsSplit(less, a, b);
  }

  /** Passes that put out more than one run make progress; a pass that puts out one run sorts. */
  lemma {:induction false} PassProgress<T(0, !new)>(less: (T, T) -> bool, s: seq<Elem<T>>)
    requires StrictWeakOrder(less)
    ensures PassRuns(less, s) > 1 ==> Descents(less, Pass(less, s)) < Descents(less, s)
    ensures PassRuns(less, s) <= 1 ==> Sorted(less, Pass(less, s))
  {
    if s != [] {
      PassDescents(less, s);
      NoDescentsSorted(less, Pass(less, s));
    }
  }

  lemma StableTwice<T(0, !new)>(less: (T, T) -> bool, a: seq<Elem<T>>, b: seq<Elem<T>>, c: seq<Elem<T>>)
    requires StablePermutation(less, a, b) && StablePermutation(less, b, c)
    ensures StablePermutation(less, a, c)
  {
  }
}
