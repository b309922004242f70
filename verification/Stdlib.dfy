/** Heapsort and binary search over an array of bytes that holds elements of a given size
    (lib/stdlib.c). */
module Stdlib {
  import opened Options
  import opened Disk
  import Bits

  // ---- Elements in an array of bytes ----

  /** Where element K begins. */
  function Offset(k: nat, size: nat): nat {
    k * size
  }

  /** The N bytes from P on. */
  function Slice(b: seq<byte>, p: nat, n: nat): seq<byte> {
    if p + n <= |b| then b[p..p + n] else []
  }

  /** The CNT elements of SIZE bytes each that B holds. */
  ghost function Elements(b: seq<byte>, size: nat, cnt: nat): (s: seq<seq<byte>>)
    ensures |s| == cnt
  {
    seq(cnt, k requires 0 <= k < cnt => Slice(b, Offset(k, size), size))
  }

  /** An element lies before any later one. */
  lemma Apart(i: nat, j: nat, size: nat)
    requires i < j
    ensures Offset(i, size) + size <= Offset(j, size)
  {
    Bits.MulMonotone(size, i + 1, j);
    assert size * (i + 1) == i * size + size;
  }

  /** B with the N bytes at P and those at Q exchanged. */
  ghost function Exchanged(b: seq<byte>, p: nat, q: nat, n: nat): (r: seq<byte>)
    requires p + n <= |b| && q + n <= |b|
    ensures |r| == |b|
  {
    seq(|b|, z requires 0 <= z < |b| =>
      if p <= z < p + n then b[q + z - p] else if q <= z < q + n then b[p + z - q] else b[z])
  }

  lemma ExchangedNext(b: seq<byte>, p: nat, q: nat, x: nat)
    requires p + x < |b| && q + x < |b| && (p == q || p + x < q || q + x < p)
    ensures var r := Exchanged(b, p, q, x);
            r[p + x := r[q + x]][q + x := r[p + x]] == Exchanged(b, p, q, x + 1)
  {
  }

  lemma ExchangedElement(b: seq<byte>, size: nat, cnt: nat, i: nat, j: nat, k: nat)
    requires |b| == Offset(cnt, size) && i < cnt && j < cnt && k < cnt
    ensures Offset(i, size) + size <= |b| && Offset(j, size) + size <= |b|
    ensures Slice(Exchanged(b, Offset(i, size), Offset(j, size), size), Offset(k, size), size)
            == Slice(b, Offset(if k == i then j else if k == j then i else k, size), size)
  {
    hide Offset, Exchanged, Slice;
    Apart(i, cnt, size);
    Apart(j, cnt, size);
    Apart(k, cnt, size);
    if k != i {
      ApartEither(k, i, size);
    }
    if k != j {
      ApartEither(k, j, size);
    }
    SliceExchanged(b, Offset(i, size), Offset(j, size), size, Offset(k, size), k == i, k == j);
  }

  lemma ApartEither(i: nat, j: nat, size: nat)
    requires i != j
    ensures Offset(i, size) + size <= Offset(j, size) || Offset(j, size) + size <= Offset(i, size)
  {
    hide Offset;
    if i < j {
      Apart(i, j, size);
    } else {
      Apart(j, i, size);
    }
  }

  lemma SliceExchanged(b: seq<byte>, p: nat, q: nat, n: nat, o: nat, first: bool, second: bool)
    requires p + n <= |b| && q + n <= |b| && o + n <= |b|
    requires if first then o == p else o + n <= p || p + n <= o
    requires if second then o == q else o + n <= q || q + n <= o
    ensures Slice(Exchanged(b, p, q, n), o, n) == Slice(b, if first then q else if second then p else o, n)
  {
    var r, from := Exchanged(b, p, q, n), if first then q else if second then p else o;
    var x, y := r[o..o + n], b[from..from + n];
    forall z | 0 <= z < n ensures x[z] == y[z] {
      assert x[z] == r[o + z];
    }
  }

  /** What a strcmp()-type comparison owes its callers: a total preorder. */
  ghost predicate Preorder<T(!new)>(cmp: (T, T) -> int) {
    && (forall x, y :: cmp(x, y) > 0 <==> cmp(y, x) < 0)
    && (forall x, y, z :: cmp(x, y) <= 0 && cmp(y, z) <= 0 ==> cmp(x, z) <= 0)
  }

  ghost predicate Sorted<T>(s: seq<T>, cmp: (T, T) -> int) {
    forall i, j :: 0 <= i < j < |s| ==> cmp(s[i], s[j]) <= 0
  }

  /** Among the first CNT elements, numbered from 1, every child of a node from I on is at most
      its parent. */
  ghost predicate HeapFrom<T>(s: seq<T>, cmp: (T, T) -> int, cnt: nat, i: nat)
    requires 0 < i && cnt <= |s|
  {
    forall c :: 2 <= c <= cnt && i <= c / 2 ==> cmp(s[c - 1], s[c / 2 - 1]) <= 0
  }

  /** The same but for the children of J, which are at most J's own parent. */
  ghost predicate HeapBut<T>(s: seq<T>, cmp: (T, T) -> int, cnt: nat, i: nat, j: nat)
    requires 0 < i <= j <= cnt <= |s|
  {
    && (forall c :: 2 <= c <= cnt && i <= c / 2 && c / 2 != j ==> cmp(s[c - 1], s[c / 2 - 1]) <= 0)
    && (forall c :: 2 <= c <= cnt && c / 2 == j && i <= j / 2 ==> cmp(s[c - 1], s[j / 2 - 1]) <= 0)
  }

  /** The elements after do_swap, on 1-based positions. */
  function Swapped<T>(s: seq<T>, i: nat, j: nat): (r: seq<T>)
    requires 0 < i <= |s| && 0 < j <= |s|
    ensures |r| == |s|
  {
    s[i - 1 := s[j - 1]][j - 1 := s[i - 1]]
  }

  lemma ExchangedElements(b: seq<byte>, size: nat, cnt: nat, i: nat, j: nat)
    requires |b| == Offset(cnt, size) && 0 < i <= cnt && 0 < j <= cnt
    ensures Offset(i - 1, size) + size <= |b| && Offset(j - 1, size) + size <= |b|
    ensures Elements(Exchanged(b, Offset(i - 1, size), Offset(j - 1, size), size), size, cnt)
            == Swapped(Elements(b, size, cnt), i, j)
  {
    hide Exchanged, Offset, Slice;
    Apart(i - 1, cnt, size);
    Apart(j - 1, cnt, size);
    var r := Exchanged(b, Offset(i - 1, size), Offset(j - 1, size), size);
    forall k | 0 <= k < cnt ensures Elements(r, size, cnt)[k] == Swapped(Elements(b, size, cnt), i, j)[k] {
      ExchangedElement(b, size, cnt, i - 1, j - 1, k);
    }
  }

  /** do_swap: exchanges elements I and J, numbered from 1, byte by byte. */
  method DoSwap(a: array<byte>, i: nat, j: nat, size: nat, ghost cnt: nat)
    requires a.Length == Offset(cnt, size) && 0 < i <= cnt && 0 < j <= cnt
    modifies a
    ensures Elements(a[..], size, cnt) == Swapped(Elements(old(a[..]), size, cnt), i, j)
  {
    hide Offset, Exchanged, Elements, Swapped;
    ExchangedElements(a[..], size, cnt, i, j);
    if i != j {
      ApartEither(i - 1, j - 1, size);
    }
    SwapBytes(a, Offset(i - 1, size), Offset(j - 1, size), size);
  }

  /** The loop of do_swap. */
  method SwapBytes(a: array<byte>, p: nat, q: nat, size: nat)
    requires p + size <= a.Length && q + size <= a.Length && (p == q || p + size <= q || q + size <= p)
    modifies a
    ensures a[..] == Exchanged(old(a[..]), p, q, size)
  {
    hide Exchanged;
    ghost var b := a[..];
    ExchangedNone(b, p, q);
    var x := 0;
    while x < size
      invariant x <= size && a[..] == Exchanged(b, p, q, x)
    {
      ExchangedNext(b, p, q, x);
      var t := a[p + x];
      a[p + x] := a[q + x];
      a[q + x] := t;
      x := x + 1;
    }
  }

  lemma ExchangedNone(b: seq<byte>, p: nat, q: nat)
    requires p <= |b| && q <= |b|
    ensures Exchanged(b, p, q, 0) == b
  {
  }

  /** do_compare */
  method DoCompare(a: array<byte>, i: nat, j: nat, size: nat, cmp: (seq<byte>, seq<byte>) -> int, ghost cnt: nat)
    returns (r: int)
    requires a.Length == Offset(cnt, size) && 0 < i <= cnt && 0 < j <= cnt
    ensures r == cmp(Elements(a[..], size, cnt)[i - 1], Elements(a[..], size, cnt)[j - 1])
  {
    hide Offset;
    Apart(i - 1, cnt, size);
    Apart(j - 1, cnt, size);
    var p, q := Offset(i - 1, size), Offset(j - 1, size);
    assert a[..][p..p + size] == a[p..p + size] && a[..][q..q + size] == a[q..q + size];
    r := cmp(a[p..p + size], a[q..q + size]);
  }

  lemma SwappedBag<T>(s: seq<T>, i: nat, j: nat)
    requires 0 < i <= |s| && 0 < j <= |s|
    ensures multiset(Swapped(s, i, j)) == multiset(s)
  {
  }

  /** R is S with its first CNT elements permuted. */
  ghost predicate Shuffled<T>(s: seq<T>, r: seq<T>, cnt: nat) {
    cnt <= |s| == |r| && multiset(s[..cnt]) == multiset(r[..cnt]) && s[cnt..] == r[cnt..]
  }

  lemma ShuffledSwap<T>(s: seq<T>, r: seq<T>, i: nat, j: nat, cnt: nat)
    requires 0 < i <= cnt && 0 < j <= cnt && Shuffled(s, r, cnt)
    ensures Shuffled(s, Swapped(r, i, j), cnt)
  {
    SwappedBag(r[..cnt], i, j);
    assert Swapped(r, i, j)[..cnt] == Swapped(r[..cnt], i, j);
  }

  lemma ShuffledSelf<T>(s: seq<T>, cnt: nat)
    requires cnt <= |s|
    ensures Shuffled(s, s, cnt)
  {
  }

  /** The number of positions from which to permute may be larger. */
  lemma ShuffledWider<T>(s: seq<T>, q: seq<T>, r: seq<T>, i: nat, n: nat)
    requires Shuffled(q, r, i) && Shuffled(s, q, n) && i <= n
    ensures Shuffled(s, r, n)
  {
    assert q[..n] == q[..i] + q[i..][..n - i];
    assert r[..n] == r[..i] + r[i..][..n - i];
    assert q[n..] == q[i..][n - i..];
    assert r[n..] == r[i..][n - i..];
  }

  /** The larger child of J, larger than J, may be swapped with it. */
  lemma FloatStep<T(!new)>(s: seq<T>, cmp: (T, T) -> int, cnt: nat, i: nat, j: nat, m: nat)
    requires Preorder(cmp) && 0 < i <= j < m <= cnt <= |s| && m / 2 == j && HeapBut(s, cmp, cnt, i, j)
    requires cmp(s[m - 1], s[j - 1]) > 0
    requires forall c :: 2 <= c <= cnt && c / 2 == j ==> cmp(s[c - 1], s[m - 1]) <= 0
    ensures HeapBut(Swapped(s, j, m), cmp, cnt, i, m)
  {
    var r := Swapped(s, j, m);
    forall c | 2 <= c <= cnt && i <= c / 2 && c / 2 != m ensures cmp(r[c - 1], r[c / 2 - 1]) <= 0 {
      if c == m {
      } else if c / 2 == j {
        assert r[c - 1] == s[c - 1];
      } else if c == j {
        assert cmp(s[m - 1], s[j / 2 - 1]) <= 0;
      } else {
        assert r[c - 1] == s[c - 1] && r[c / 2 - 1] == s[c / 2 - 1];
      }
    }
    forall c | 2 <= c <= cnt && c / 2 == m && i <= m / 2 ensures cmp(r[c - 1], r[m / 2 - 1]) <= 0 {
      assert r[c - 1] == s[c - 1] && r[m / 2 - 1] == s[m - 1];
    }
  }

  /** heapify: float element I down among the first CNT of ALL. */
  method Heapify(a: array<byte>, i: nat, cnt: nat, size: nat, cmp: (seq<byte>, seq<byte>) -> int, ghost all: nat)
    requires Preorder(cmp) && a.Length == Offset(all, size) && 0 < i <= cnt <= all
    requires HeapFrom(Elements(a[..], size, all), cmp, cnt, i + 1)
    modifies a
    ensures HeapFrom(Elements(a[..], size, all), cmp, cnt, i)
    ensures Shuffled(Elements(old(a[..]), size, all), Elements(a[..], size, all), cnt)
  {
    hide Preorder, HeapBut, HeapFrom, Shuffled, Swapped, Elements, Offset;
    var j := i;
    ghost var s := Elements(a[..], size, all);
    ghost var s0 := s;
    ShuffledSelf(s, cnt);
    FloatFirst(s, cmp, cnt, i);
    while true
      invariant i <= j <= cnt <= |s| && HeapBut(s, cmp, cnt, i, j)
      invariant Shuffled(s0, s, cnt) && s == Elements(a[..], size, all)
      decreases cnt - j
    {
      var left, right, max := 2 * j, 2 * j + 1, j;
      if left <= cnt {
        var c := DoCompare(a, left, max, size, cmp, all);
        if c > 0 {
          max := left;
        }
      }
      if right <= cnt {
        var c := DoCompare(a, right, max, size, cmp, all);
        if c > 0 {
          max := right;
        }
      }
      LargestChild(s, cmp, cnt, j, max);
      if max == j {
        FloatLast(s, cmp, cnt, i, j);
        break;
      }
      FloatStep(s, cmp, cnt, i, j, max);
      ShuffledSwap(s0, s, j, max, cnt);
      DoSwap(a, j, max, size, all);
      s := Swapped(s, j, max);
      j := max;
    }
  }

  lemma FloatFirst<T>(s: seq<T>, cmp: (T, T) -> int, cnt: nat, i: nat)
    requires 0 < i <= cnt <= |s| && HeapFrom(s, cmp, cnt, i + 1)
    ensures HeapBut(s, cmp, cnt, i, i)
  {
  }

  lemma FloatLast<T>(s: seq<T>, cmp: (T, T) -> int, cnt: nat, i: nat, j: nat)
    requires 0 < i <= j <= cnt <= |s| && HeapBut(s, cmp, cnt, i, j)
    requires forall c :: 2 <= c <= cnt && c / 2 == j ==> cmp(s[c - 1], s[j - 1]) <= 0
    ensures HeapFrom(s, cmp, cnt, i)
  {
  }

  /** The way heapify chooses MAX makes it the largest of J and its children. */
  lemma LargestChild<T(!new)>(s: seq<T>, cmp: (T, T) -> int, cnt: nat, j: nat, max: nat)
    requires Preorder(cmp) && 0 < j <= cnt <= |s|
    requires var m := if 2 * j <= cnt && cmp(s[2 * j - 1], s[j - 1]) > 0 then 2 * j else j;
             max == if 2 * j + 1 <= cnt && cmp(s[2 * j], s[m - 1]) > 0 then 2 * j + 1 else m
    ensures max == j || (max / 2 == j && max <= cnt && cmp(s[max - 1], s[j - 1]) > 0)
    ensures forall c :: 2 <= c <= cnt && c / 2 == j ==> cmp(s[c - 1], s[max - 1]) <= 0
  {
    forall c | 2 <= c <= cnt && c / 2 == j ensures cmp(s[c - 1], s[max - 1]) <= 0 {
      assert c == 2 * j || c == 2 * j + 1;
    }
  }

  /** The root of a heap is its maximum. */
  lemma {:induction false} RootIsMax<T(!new)>(s: seq<T>, cmp: (T, T) -> int, cnt: nat, k: nat)
    requires Preorder(cmp) && 0 < k <= cnt <= |s| && HeapFrom(s, cmp, cnt, 1)
    ensures cmp(s[k - 1], s[0]) <= 0
    decreases k
  {
    if k > 1 {
      RootIsMax(s, cmp, cnt, k / 2);
    }
  }

  /** Elements I and on are in their final places: sorted, and none is less than one before I. */
  ghost predicate Settled<T>(s: seq<T>, cmp: (T, T) -> int, i: nat)
    requires i <= |s|
  {
    && Sorted(s[i..], cmp)
    && forall x, y :: x in multiset(s[..i]) && y in s[i..] ==> cmp(x, y) <= 0
  }

  /** Moving the root of the heap of the first I elements to the end of it settles it. */
  lemma SettleRoot<T(!new)>(s: seq<T>, cmp: (T, T) -> int, i: nat)
    requires Preorder(cmp) && 1 < i <= |s| && HeapFrom(s, cmp, i, 1) && Settled(s, cmp, i)
    ensures Settled(Swapped(s, 1, i), cmp, i - 1)
    ensures HeapFrom(Swapped(s, 1, i), cmp, i - 1, 2)
  {
    hide Preorder, Swapped, Sorted;
    SettledFront(s, cmp, i);
    SettledBack(s, cmp, i);
    SettledHeap(s, cmp, i);
  }

  /** The elements in front are at most the old root, and none is new there. */
  lemma SettledFront<T(!new)>(s: seq<T>, cmp: (T, T) -> int, i: nat)
    requires Preorder(cmp) && 1 < i <= |s| && HeapFrom(s, cmp, i, 1) && Settled(s, cmp, i)
    ensures forall x, y :: x in multiset(Swapped(s, 1, i)[..i - 1]) && y in Swapped(s, 1, i)[i - 1..] ==> cmp(x, y) <= 0
  {
    hide Preorder, HeapFrom, Swapped;
    SwappedSlices(s, i);
    var front, tail := Swapped(s, 1, i)[..i - 1], s[i..];
    forall x | x in multiset(front) ensures x in multiset(s[..i]) && cmp(x, s[0]) <= 0 {
      var k :| 0 <= k < i - 1 && front[k] == x;
      var k' := if k == 0 then i - 1 else k;
      assert s[..i][k'] == x;
      RootIsMax(s, cmp, i, k' + 1);
    }
  }

  lemma SwappedSlices<T>(s: seq<T>, i: nat)
    requires 1 < i <= |s|
    ensures Swapped(s, 1, i)[i - 1..] == [s[0]] + s[i..]
    ensures var front := Swapped(s, 1, i)[..i - 1];
            forall k :: 0 <= k < i - 1 ==> front[k] == s[if k == 0 then i - 1 else k]
  {
  }

  lemma SettledBack<T(!new)>(s: seq<T>, cmp: (T, T) -> int, i: nat)
    requires 1 < i <= |s| && Settled(s, cmp, i)
    ensures Sorted(Swapped(s, 1, i)[i - 1..], cmp)
  {
    hide Swapped;
    SwappedSlices(s, i);
    var back, tail := Swapped(s, 1, i)[i - 1..], s[i..];
    assert s[..i][0] == s[0];
    forall p, q | 0 <= p < q < |back| ensures cmp(back[p], back[q]) <= 0 {
      assert back[q] == tail[q - 1];
      if p > 0 {
        assert back[p] == tail[p - 1];
      }
    }
  }

  lemma SettledHeap<T(!new)>(s: seq<T>, cmp: (T, T) -> int, i: nat)
    requires 1 < i <= |s| && HeapFrom(s, cmp, i, 1)
    ensures HeapFrom(Swapped(s, 1, i), cmp, i - 1, 2)
  {
  }

  /** sort */
  method Sort(a: array<byte>, cnt: nat, size: nat, cmp: (seq<byte>, seq<byte>) -> int)
    requires Preorder(cmp) && size > 0 && a.Length == Offset(cnt, size)
    modifies a
    ensures Sorted(Elements(a[..], size, cnt), cmp)
    ensures multiset(Elements(a[..], size, cnt)) == multiset(Elements(old(a[..]), size, cnt))
  {
    hide Preorder, Settled, Sorted, HeapFrom, Shuffled, Swapped, Elements, Offset;
    var i := cnt / 2;
    ghost var s := Elements(a[..], size, cnt);
    ghost var r := s;
    LeavesHeap(s, cmp, cnt, i + 1);
    ShuffledSelf(s, cnt);
    while i > 0
      invariant 0 <= i <= cnt / 2 && r == Elements(a[..], size, cnt)
      invariant HeapFrom(r, cmp, cnt, i + 1) && Shuffled(s, r, cnt)
    {
      Heapify(a, i, cnt, size, cmp, cnt);
      ShuffledWider(s, r, Elements(a[..], size, cnt), cnt, cnt);
      r := Elements(a[..], size, cnt);
      i := i - 1;
    }
    i := cnt;
    NothingSettled(r, cmp);
    while i > 1
      invariant 0 <= i <= cnt && (i == 0 ==> cnt == 0) && r == Elements(a[..], size, cnt)
      invariant HeapFrom(r, cmp, i, 1) && Settled(r, cmp, i) && Shuffled(s, r, cnt)
    {
      SettleRoot(r, cmp, i);
      ShuffledSwap(s, r, 1, i, cnt);
      DoSwap(a, 1, i, size, cnt);
      r := Swapped(r, 1, i);
      Heapify(a, 1, i - 1, size, cmp, cnt);
      ShuffledWider(s, r, Elements(a[..], size, cnt), i - 1, cnt);
      StillSettled(r, Elements(a[..], size, cnt), cmp, i - 1);
      r := Elements(a[..], size, cnt);
      i := i - 1;
    }
    AllSettled(r, cmp, i);
    ShuffledAll(s, r);
  }

  lemma ShuffledAll<T>(s: seq<T>, r: seq<T>)
    requires Shuffled(s, r, |s|)
    ensures multiset(s) == multiset(r)
  {
    assert s[..|s|] == s && r[..|s|] == r;
  }

  lemma LeavesHeap<T>(s: seq<T>, cmp: (T, T) -> int, n: nat, i: nat)
    requires n == |s| && i == n / 2 + 1
    ensures HeapFrom(s, cmp, n, i)
  {
  }

  lemma NothingSettled<T>(s: seq<T>, cmp: (T, T) -> int)
    ensures Settled(s, cmp, |s|)
  {
  }

  lemma StillSettled<T>(r: seq<T>, s: seq<T>, cmp: (T, T) -> int, i: nat)
    requires Shuffled(r, s, i) && Settled(r, cmp, i)
    ensures Settled(s, cmp, i)
  {
  }

  lemma AllSettled<T>(s: seq<T>, cmp: (T, T) -> int, i: nat)
    requires i <= 1 && i <= |s| && Settled(s, cmp, i)
    ensures Sorted(s, cmp)
  {
    forall p, q | 0 <= p < q < |s| ensures cmp(s[p], s[q]) <= 0 {
      assert s[q] == s[i..][q - i];
      if p < i {
        assert s[..i][p] == s[p];
      } else {
        assert s[p] == s[i..][p - i];
      }
    }
  }

  /** binary_search, on any sorted array: the offset of an element that equals the key. */
  method BinarySearch(key: seq<byte>, a: array<byte>, cnt: nat, size: nat, cmp: (seq<byte>, seq<byte>) -> int)
    returns (r: Option<nat>)
    requires Preorder(cmp) && size > 0 && a.Length == Offset(cnt, size) && Sorted(Elements(a[..], size, cnt), cmp)
    ensures r.Some? ==> && r.value % size == 0 && r.value / size < cnt
                        && cmp(key, Elements(a[..], size, cnt)[r.value / size]) == 0
    ensures r.None? ==> forall k :: 0 <= k < cnt ==> cmp(key, Elements(a[..], size, cnt)[k]) != 0
  {
    hide Elements, Sorted, Preorder, Outside, Offset;
    ghost var s, f, l := Elements(a[..], size, cnt), 0, cnt;
    NoneOutside(s, cmp, key);
    Ends(size, cnt);
    var first, last := 0, size * cnt;
    while first < last
      invariant 0 <= f <= l <= cnt && first == Offset(f, size) && last == Offset(l, size)
      invariant Outside(s, cmp, key, f, l)
      decreases l - f
    {
      Crossed(f, l, size);
      Range(f, l, size);
      var range := (last - first) / size;
      var middle := first + range / 2 * size;
      ghost var m := f + range / 2;
      MiddleElement(a[..], size, cnt, f, l, middle);
      var c := cmp(key, a[middle..middle + size]);
      if c < 0 {
        Beyond(s, cmp, key, f, l, m);
        last, l := middle, m;
      } else if c > 0 {
        Before(s, cmp, key, f, l, m);
        first, f := middle + size, m + 1;
      } else {
        Multiple(m, size);
        return Some(middle);
      }
    }
    Crossed(f, l, size);
    AllOutside(s, cmp, key, f);
    r := None;
  }

  lemma Ends(size: nat, cnt: nat)
    ensures Offset(0, size) == 0 && Offset(cnt, size) == size * cnt
  {
  }

  lemma Range(f: nat, l: nat, size: nat)
    requires f < l && size > 0
    ensures Offset(f, size) <= Offset(l, size) && (Offset(l, size) - Offset(f, size)) / size == l - f
  {
    Apart(f, l, size);
    assert l * size - f * size == (l - f) * size;
    Multiple(l - f, size);
  }

  lemma Multiple(m: nat, size: nat)
    requires size > 0
    ensures Offset(m, size) % size == 0 && Offset(m, size) / size == m
  {
    Bits.DivUnique(m * size, size, m, 0);
  }

  /** The bytes at the middle are an element. */
  lemma MiddleElement(b: seq<byte>, size: nat, cnt: nat, f: nat, l: nat, middle: nat)
    requires |b| == Offset(cnt, size) && f < l <= cnt && middle == Offset(f, size) + (l - f) / 2 * size
    ensures var m := f + (l - f) / 2;
            && f <= m < l && middle == Offset(m, size) && middle + size == Offset(m + 1, size) <= |b|
            && b[middle..middle + size] == Elements(b, size, cnt)[m]
  {
    var m := f + (l - f) / 2;
    MiddleOffset(f, (l - f) / 2, size);
    hide Offset;
    Apart(m, cnt, size);
  }

  lemma MiddleOffset(f: nat, k: nat, size: nat)
    ensures Offset(f, size) + k * size == Offset(f + k, size)
    ensures Offset(f + k, size) + size == Offset(f + k + 1, size)
  {
  }

  lemma Crossed(f: nat, l: nat, size: nat)
    requires f <= l && size > 0
    ensures Offset(f, size) < Offset(l, size) <==> f < l
  {
    if f < l {
      Apart(f, l, size);
    }
  }

  /** The key is above the elements before F and below those from L on. */
  ghost predicate Outside<T>(s: seq<T>, cmp: (T, T) -> int, key: T, f: nat, l: nat) {
    && f <= l <= |s|
    && (forall k :: 0 <= k < f ==> cmp(key, s[k]) > 0)
    && (forall k :: l <= k < |s| ==> cmp(key, s[k]) < 0)
  }

  lemma NoneOutside<T>(s: seq<T>, cmp: (T, T) -> int, key: T)
    ensures Outside(s, cmp, key, 0, |s|)
  {
  }

  lemma AllOutside<T>(s: seq<T>, cmp: (T, T) -> int, key: T, f: nat)
    requires Outside(s, cmp, key, f, f)
    ensures forall k :: 0 <= k < |s| ==> cmp(key, s[k]) != 0
  {
  }

  lemma Beyond<T(!new)>(s: seq<T>, cmp: (T, T) -> int, key: T, f: nat, l: nat, m: nat)
    requires Preorder(cmp) && Sorted(s, cmp) && Outside(s, cmp, key, f, l) && f <= m < l && cmp(key, s[m]) < 0
    ensures Outside(s, cmp, key, f, m)
  {
    forall k | m < k < |s| ensures cmp(key, s[k]) < 0 {
      assert cmp(s[m], s[k]) <= 0;
    }
  }

  lemma Before<T(!new)>(s: seq<T>, cmp: (T, T) -> int, key: T, f: nat, l: nat, m: nat)
    requires Preorder(cmp) && Sorted(s, cmp) && Outside(s, cmp, key, f, l) && f <= m < l && cmp(key, s[m]) > 0
    ensures Outside(s, cmp, key, m + 1, l)
  {
    forall k | 0 <= k < m ensures cmp(key, s[k]) > 0 {
      assert cmp(s[k], s[m]) <= 0;
    }
  }

  /** Sorting and then searching: found exactly if the key equals an element of the original. */
  method SortAndSearch(a: array<byte>, cnt: nat, size: nat, key: seq<byte>, cmp: (seq<byte>, seq<byte>) -> int)
    returns (r: Option<nat>)
    requires Preorder(cmp) && size > 0 && a.Length == Offset(cnt, size)
    modifies a
    ensures r.Some? ==> r.value / size < cnt && cmp(key, Elements(a[..], size, cnt)[r.value / size]) == 0
    ensures r.Some? <==> exists x :: x in Elements(old(a[..]), size, cnt) && cmp(key, x) == 0
  {
    hide Elements, Sorted, Preorder, Offset;
    ghost var s := Elements(a[..], size, cnt);
    Sort(a, cnt, size, cmp);
    r := BinarySearch(key, a, cnt, size, cmp);
    ghost var s' := Elements(a[..], size, cnt);
    if r.Some? {
      assert s'[r.value / size] in multiset(s') && s'[r.value / size] in multiset(s);
    } else {
      forall x | x in s ensures cmp(key, x) != 0 {
        assert x in multiset(s) && x in multiset(s');
      }
    }
  }
}
