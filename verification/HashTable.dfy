/** Chained hash tables that resize themselves (lib/kernel/hash.c). */
module HashTables {
  import opened Options
  import opened Bits

  const MIN_BUCKETS := 4
  const BEST_ELEMS_PER_BUCKET := 2

  // ---- Powers of two by bit twiddling ----

  /** turn_off_least_1bit */
  function TurnOffLeast1Bit(x: nat): nat
    requires x > 0
  {
    And(x, x - 1)
  }

  /** is_power_of_2 */
  predicate IsPowerOf2(x: nat) {
    x != 0 && TurnOffLeast1Bit(x) == 0
  }

  /** The highest one bit of X. */
  function HighBit(x: nat): (p: nat)
    requires x > 0
    ensures 0 < p <= x < 2 * p
  {
    if x == 1 then 1 else 2 * HighBit(x / 2)
  }

  lemma {:induction false} AndSelf(x: nat)
    ensures And(x, x) == x
  {
    if x != 0 {
      AndSelf(x / 2);
    }
  }

  /** Turning off the lowest one bit leaves the highest one, unless they are the same bit. */
  lemma {:induction false} TurnOff(x: nat)
    requires x > 0
    ensures TurnOffLeast1Bit(x) < x
    ensures IsPowerOf2(x) <==> x == HighBit(x)
    ensures !IsPowerOf2(x) ==> TurnOffLeast1Bit(x) > 0 && HighBit(TurnOffLeast1Bit(x)) == HighBit(x)
  {
    hide And, HighBit;
    AndHalf(x, x - 1);
    HighBitHalf(x);
    if x == 1 {
      AndHalf(0, 0);
    } else if x % 2 == 1 {
      AndSelf(x / 2);
      HighBitTwice(x / 2);
    } else {
      TurnOff(x / 2);
      if And(x / 2, x / 2 - 1) > 0 {
        HighBitTwice(And(x / 2, x / 2 - 1));
      }
    }
  }

  lemma {:induction false} HighBitHalf(x: nat)
    requires x > 0
    ensures HighBit(x) == if x == 1 then 1 else 2 * HighBit(x / 2)
  {
  }

  lemma {:induction false} AndHalf(x: nat, y: nat)
    ensures And(x, y) == 2 * And(x / 2, y / 2) + if x % 2 == 1 && y % 2 == 1 then 1 else 0
    ensures And(0, y) == 0
  {
  }

  lemma {:induction false} HighBitTwice(h: nat)
    requires h > 0
    ensures HighBit(2 * h) == 2 * HighBit(h)
  {
  }

  lemma {:induction false} HighBitPower(x: nat)
    requires x > 0
    ensures exists k: nat :: HighBit(x) == Pow2(k)
  {
    if x == 1 {
      assert HighBit(x) == Pow2(0);
    } else {
      HighBitPower(x / 2);
      var k: nat :| HighBit(x / 2) == Pow2(k);
      assert HighBit(x) == Pow2(k + 1);
    }
  }

  /** is_power_of_2 tells the powers of two. */
  lemma PowersOf2(x: nat)
    ensures IsPowerOf2(x) <==> exists k: nat :: x == Pow2(k)
  {
    if x > 0 {
      TurnOff(x);
      HighBitPower(x);
      if exists k: nat :: x == Pow2(k) {
        var k: nat :| x == Pow2(k);
        HighBitOfPower(k);
      }
    } else {
      forall k: nat ensures Pow2(k) > 0 {
      }
    }
  }

  lemma {:induction false} HighBitOfPower(k: nat)
    ensures HighBit(Pow2(k)) == Pow2(k)
  {
    if k > 0 {
      HighBitOfPower(k - 1);
    }
  }

  /** Masking with a power of two less one is taking the remainder. */
  lemma {:induction false} MaskIsMod(h: nat, k: nat)
    ensures And(h, Pow2(k) - 1) == h % Pow2(k)
  {
    var r := And(h, Pow2(k) - 1);
    AndAtMost(h, Pow2(k) - 1);
    forall i | 0 <= i < k ensures Bit(r, i) == Bit(h % Pow2(k), i) {
      AndBit(h, Pow2(k) - 1, i);
      LowMaskBit(k, i);
      ModBit(h, k, i);
    }
    BitsDetermine(r, h % Pow2(k), k);
  }

  /** The bucket count that rehash wants for N elements. */
  function IdealBuckets(n: nat): (c: nat)
    ensures c >= MIN_BUCKETS && IsPowerOf2(c)
    ensures n / BEST_ELEMS_PER_BUCKET >= MIN_BUCKETS ==> c <= n / BEST_ELEMS_PER_BUCKET < 2 * c
  {
    var want := n / BEST_ELEMS_PER_BUCKET;
    var x := if want < MIN_BUCKETS then MIN_BUCKETS else want;
    HighBitIsPower(x);
    HighBit(x)
  }

  lemma HighBitIsPower(x: nat)
    requires x >= MIN_BUCKETS
    ensures IsPowerOf2(HighBit(x)) && HighBit(x) >= MIN_BUCKETS
  {
    HighBitPower(x);
    PowersOf2(HighBit(x));
    assert HighBit(x) == 2 * HighBit(x / 2) == 4 * (if x / 2 / 2 == 1 then 1 else HighBit(x / 2 / 2));
  }

  /** The computation of the bucket count in rehash. */
  method CountBuckets(n: nat) returns (c: nat)
    ensures c == IdealBuckets(n)
  {
    c := n / BEST_ELEMS_PER_BUCKET;
    if c < MIN_BUCKETS {
      c := MIN_BUCKETS;
    }
    ghost var x := c;
    while !IsPowerOf2(c)
      invariant c > 0 && HighBit(c) == HighBit(x)
      decreases c
    {
      TurnOff(c);
      c := TurnOffLeast1Bit(c);
    }
    TurnOff(c);
  }

  // ---- Buckets ----

  /** The elements of all buckets, in the order in which the iterator visits them. */
  function Flat<T>(b: seq<seq<T>>): seq<T> {
    if b == [] then [] else b[0] + Flat(b[1..])
  }

  ghost function All<T>(b: seq<seq<T>>): multiset<T> {
    multiset(Flat(b))
  }

  lemma {:induction false} FlatSplit<T>(a: seq<seq<T>>, b: seq<seq<T>>)
    ensures Flat(a + b) == Flat(a) + Flat(b)
  {
    if a == [] {
      assert a + b == b;
    } else {
      assert (a + b)[1..] == a[1..] + b;
      FlatSplit(a[1..], b);
    }
  }

  lemma FlatAt<T>(b: seq<seq<T>>, i: nat)
    requires i < |b|
    ensures Flat(b) == Flat(b[..i]) + b[i] + Flat(b[i + 1..])
  {
    assert b == b[..i] + b[i..];
    FlatSplit(b[..i], b[i..]);
    assert b[i..][1..] == b[i + 1..];
  }

  /** Changing one bucket changes the elements by the difference. */
  lemma AllUpdate<T>(b: seq<seq<T>>, i: nat, s: seq<T>)
    requires i < |b|
    ensures multiset(b[i]) <= All(b) && All(b[i := s]) == All(b) - multiset(b[i]) + multiset(s)
  {
    FlatAt(b, i);
    FlatAt(b[i := s], i);
    assert b[i := s][..i] == b[..i] && b[i := s][i + 1..] == b[i + 1..];
  }

  lemma {:induction false} InSomeBucket<T>(b: seq<seq<T>>, x: T)
    ensures x in All(b) <==> exists i :: 0 <= i < |b| && x in b[i]
  {
    if b != [] {
      InSomeBucket(b[1..], x);
      if exists i :: 0 <= i < |b| && x in b[i] {
        var i :| 0 <= i < |b| && x in b[i];
        if i > 0 {
          assert x in b[1..][i - 1];
        }
      }
      if x in All(b[1..]) {
        var i :| 0 <= i < |b[1..]| && x in b[1..][i];
        assert x in b[i + 1];
      }
    }
  }

  function EmptyBuckets<T>(n: nat): (b: seq<seq<T>>)
    ensures |b| == n && forall i :: 0 <= i < n ==> b[i] == []
  {
    seq(n, _ => [])
  }

  lemma {:induction false} EmptyHasNone<T>(b: seq<seq<T>>)
    requires forall i :: 0 <= i < |b| ==> b[i] == []
    ensures Flat(b) == []
  {
    if b != [] {
      EmptyHasNone(b[1..]);
    }
  }

  // ---- The table ----

  predicate Equal<T>(less: (T, T) -> bool, x: T, y: T) {
    !less(x, y) && !less(y, x)
  }

  /** What hash.h asks of the two functions: LESS is a strict weak order, and equal elements
      have equal hashes. */
  ghost predicate OrderOk<T(!new)>(hash: T -> word, less: (T, T) -> bool) {
    && (forall x, y :: less(x, y) ==> !less(y, x))
    && (forall x, y, z :: !less(x, y) && !less(y, z) ==> !less(x, z))
    && (forall x, y :: Equal(less, x, y) ==> hash(x) == hash(y))
  }

  /** find_bucket, for a table of C buckets. */
  function Index<T>(hash: T -> word, x: T, c: nat): (i: nat)
    requires c > 0
    ensures i < c && (IsPowerOf2(c) ==> i == hash(x) % c)
  {
    AndAtMost(hash(x), c - 1);
    MaskedHash(hash(x), c);
    And(hash(x), c - 1)
  }

  lemma MaskedHash(h: nat, c: nat)
    requires c > 0
    ensures IsPowerOf2(c) ==> And(h, c - 1) == h % c
  {
    PowersOf2(c);
    if IsPowerOf2(c) {
      var k: nat :| c == Pow2(k);
      MaskIsMod(h, k);
    }
  }

  /** Every element is in its own bucket. */
  ghost predicate InPlace<T(!new)>(hash: T -> word, b: seq<seq<T>>) {
    |b| > 0 && forall i, x :: 0 <= i < |b| && x in b[i] ==> Index(hash, x, |b|) == i
  }

  /** No two elements are equal. */
  ghost predicate Unique<T(!new)>(less: (T, T) -> bool, m: multiset<T>) {
    && (forall x :: x in m ==> m[x] == 1)
    && (forall x, y :: x in m && y in m && Equal(less, x, y) ==> x == y)
  }

  /** No element equal to E outside E's bucket. */
  lemma OnlyInBucket<T(!new)>(hash: T -> word, less: (T, T) -> bool, b: seq<seq<T>>, e: T, x: T)
    requires OrderOk(hash, less) && InPlace(hash, b) && x in All(b) && Equal(less, x, e)
    ensures x in b[Index(hash, e, |b|)]
  {
    InSomeBucket(b, x);
    var i :| 0 <= i < |b| && x in b[i];
    assert hash(x) == hash(e);
    assert Index(hash, x, |b|) == i;
    assert Index(hash, e, |b|) == i;
  }

  lemma UniqueAdd<T(!new)>(less: (T, T) -> bool, m: multiset<T>, e: T)
    requires Unique(less, m) && forall x :: x in m ==> !Equal(less, x, e) && !Equal(less, e, x)
    requires !less(e, e)
    ensures Unique(less, m + multiset{e})
  {
  }

  /** Putting E, a new element, in front of its bucket. */
  lemma PutInPlace<T(!new)>(hash: T -> word, b: seq<seq<T>>, e: T)
    requires InPlace(hash, b)
    ensures var b' := b[Index(hash, e, |b|) := [e] + b[Index(hash, e, |b|)]];
            InPlace(hash, b') && All(b') == All(b) + multiset{e}
  {
    var i := Index(hash, e, |b|);
    AllUpdate(b, i, [e] + b[i]);
  }

  lemma Inserted<T(!new)>(hash: T -> word, less: (T, T) -> bool, b: seq<seq<T>>, e: T)
    requires OrderOk(hash, less) && InPlace(hash, b) && Unique(less, All(b))
    requires forall x :: x in All(b) ==> !Equal(less, x, e)
    ensures var i := Index(hash, e, |b|);
            var b' := b[i := [e] + b[i]];
            InPlace(hash, b') && Unique(less, All(b')) && All(b') == All(b) + multiset{e}
  {
    hide InPlace, Index, Unique, OrderOk, All;
    PutInPlace(hash, b, e);
    Irreflexive(hash, less, e);
    UniqueAdd(less, All(b), e);
  }

  lemma Irreflexive<T(!new)>(hash: T -> word, less: (T, T) -> bool, e: T)
    requires OrderOk(hash, less)
    ensures !less(e, e)
  {
  }

  lemma AllStep<T>(b: seq<seq<T>>, i: nat, j: nat)
    requires i < |b| && j < |b[i]|
    ensures All(b[..i]) + multiset(b[i][..j + 1]) == All(b[..i]) + multiset(b[i][..j]) + multiset{b[i][j]}
  {
    assert b[i][..j + 1] == b[i][..j] + [b[i][j]];
  }

  lemma AllBucket<T>(b: seq<seq<T>>, i: nat)
    requires i < |b|
    ensures Flat(b[..i + 1]) == Flat(b[..i]) + b[i]
  {
    assert b[..i + 1] == b[..i] + [b[i]];
    FlatSplit(b[..i], [b[i]]);
    assert Flat([b[i]]) == b[i] + Flat([]);
  }

  class HashTable<T(!new, ==)> {
    const hash: T -> word
    const less: (T, T) -> bool
    var buckets: seq<seq<T>>
    var elemCnt: nat

    ghost predicate Valid()
      reads this
    {
      && OrderOk(hash, less)
      && |buckets| >= MIN_BUCKETS && IsPowerOf2(|buckets|)
      && elemCnt == |Flat(buckets)|
      && InPlace(hash, buckets) && Unique(less, All(buckets))
    }

    /** The elements of the table; no two are equal. */
    ghost function Elems(): multiset<T>
      reads this
    {
      All(buckets)
    }

    /** hash_init */
    constructor (hash: T -> word, less: (T, T) -> bool)
      requires OrderOk(hash, less)
      ensures Valid() && Elems() == multiset{} && this.hash == hash && this.less == less && |buckets| == MIN_BUCKETS
    {
      this.hash, this.less, elemCnt := hash, less, 0;
      buckets := EmptyBuckets(MIN_BUCKETS);
      EmptyHasNone<T>(EmptyBuckets(MIN_BUCKETS));
      TurnOff(4);
      assert HighBit(4) == 4;
    }

    /** find_elem: the position in bucket I of an element equal to E. */
    method FindElem(i: nat, e: T) returns (r: Option<nat>)
      requires i < |buckets|
      ensures r.Some? ==> r.value < |buckets[i]| && Equal(less, buckets[i][r.value], e)
      ensures r.None? ==> forall x :: x in buckets[i] ==> !Equal(less, x, e)
    {
      var j := 0;
      while j < |buckets[i]|
        invariant 0 <= j <= |buckets[i]|
        invariant forall k :: 0 <= k < j ==> !Equal(less, buckets[i][k], e)
      {
        if Equal(less, buckets[i][j], e) {
          return Some(j);
        }
        j := j + 1;
      }
      r := None;
    }

    /** hash_find */
    method Find(e: T) returns (r: Option<T>)
      requires Valid()
      ensures r.Some? ==> r.value in Elems() && Equal(less, r.value, e)
      ensures r.None? ==> forall x :: x in Elems() ==> !Equal(less, x, e)
    {
      var i := Index(hash, e, |buckets|);
      var j := FindElem(i, e);
      NotFound(i, e);
      if j.Some? {
        InSomeBucket(buckets, buckets[i][j.value]);
        return Some(buckets[i][j.value]);
      }
      r := None;
    }

    lemma NotFound(i: nat, e: T)
      requires Valid() && i == Index(hash, e, |buckets|)
      ensures (forall x :: x in buckets[i] ==> !Equal(less, x, e)) ==> forall x :: x in Elems() ==> !Equal(less, x, e)
    {
      forall x | x in Elems() && Equal(less, x, e) ensures x in buckets[i] {
        OnlyInBucket(hash, less, buckets, e, x);
      }
    }

    /** insert_elem into E's bucket. */
    method InsertElem(e: T)
      requires Valid() && forall x :: x in Elems() ==> !Equal(less, x, e)
      modifies this
      ensures Valid() && Elems() == old(Elems()) + multiset{e} && |buckets| == old(|buckets|)
    {
      hide IsPowerOf2, OrderOk, InPlace, Unique;
      var i := Index(hash, e, |buckets|);
      Inserted(hash, less, buckets, e);
      elemCnt := elemCnt + 1;
      buckets := buckets[i := [e] + buckets[i]];
      assert |Flat(buckets)| == |All(buckets)|;
    }

    /** remove_elem of the element at position J of bucket I. */
    method RemoveElem(i: nat, j: nat)
      requires Valid() && i < |buckets| && j < |buckets[i]|
      modifies this
      ensures Valid() && old(buckets)[i][j] in old(Elems()) && Elems() == old(Elems()) - multiset{old(buckets)[i][j]}
      ensures |buckets| == old(|buckets|)
    {
      hide IsPowerOf2, OrderOk, Flat;
      var s := buckets[i][..j] + buckets[i][j + 1..];
      assert buckets[i] == buckets[i][..j] + [buckets[i][j]] + buckets[i][j + 1..];
      AllUpdate(buckets, i, s);
      InSomeBucket(buckets, buckets[i][j]);
      elemCnt := elemCnt - 1;
      buckets := buckets[i := s];
      assert |Flat(buckets)| == |All(buckets)|;
    }

    /** rehash; ALLOCOK says whether there is memory for the new buckets. */
    method Rehash(allocOk: bool)
      requires Valid()
      modifies this
      ensures Valid() && Elems() == old(Elems())
      ensures |buckets| == if allocOk then IdealBuckets(|Elems()|) else old(|buckets|)
    {
      hide IsPowerOf2, OrderOk, Unique, Index, InPlace, Flat;
      var c := CountBuckets(elemCnt);
      if c == |buckets| || !allocOk {
        return;
      }
      var was := buckets;
      buckets := EmptyBuckets(c);
      EmptyInPlace(hash, c);
      assert was[..0] == [];
      var i := 0;
      while i < |was|
        invariant i <= |was| && |buckets| == c && InPlace(hash, buckets)
        invariant All(buckets) == All(was[..i]) && elemCnt == old(elemCnt)
      {
        var j := 0;
        while j < |was[i]|
          invariant j <= |was[i]| && |buckets| == c && InPlace(hash, buckets)
          invariant All(buckets) == All(was[..i]) + multiset(was[i][..j]) && elemCnt == old(elemCnt)
        {
          var e := was[i][j];
          var k := Index(hash, e, |buckets|);
          PutInPlace(hash, buckets, e);
          AllStep(was, i, j);
          buckets := buckets[k := [e] + buckets[k]];
          j := j + 1;
        }
        assert was[i][..|was[i]|] == was[i];
        AllBucket(was, i);
        i := i + 1;
      }
      assert was[..|was|] == was;
      assert |Flat(buckets)| == |All(buckets)| == |All(was)| == |Flat(was)|;
    }

    /** hash_insert */
    method Insert(e: T, allocOk: bool) returns (r: Option<T>)
      requires Valid()
      modifies this
      ensures Valid()
      ensures r.Some? ==> r.value in old(Elems()) && Equal(less, r.value, e) && Elems() == old(Elems())
      ensures r.None? ==>
                (forall x :: x in old(Elems()) ==> !Equal(less, x, e)) && Elems() == old(Elems()) + multiset{e}
      ensures |buckets| == if allocOk then IdealBuckets(|Elems()|) else old(|buckets|)
    {
      r := Find(e);
      if r.None? {
        InsertElem(e);
      }
      Rehash(allocOk);
    }

    /** hash_replace */
    method Replace(e: T, allocOk: bool) returns (r: Option<T>)
      requires Valid()
      modifies this
      ensures Valid()
      ensures r.Some? ==>
                r.value in old(Elems()) && Equal(less, r.value, e)
                    && Elems() == old(Elems()) - multiset{r.value} + multiset{e}
      ensures r.None? ==>
                (forall x :: x in old(Elems()) ==> !Equal(less, x, e)) && Elems() == old(Elems()) + multiset{e}
      ensures |buckets| == if allocOk then IdealBuckets(|Elems()|) else old(|buckets|)
    {
      hide IsPowerOf2, InPlace, Index;
      var i := Index(hash, e, |buckets|);
      var j := FindElem(i, e);
      NotFound(i, e);
      if j.Some? {
        r := Some(buckets[i][j.value]);
        RemoveElem(i, j.value);
        NoneLeft(hash, less, old(Elems()), r.value, e);
      } else {
        r := None;
      }
      InsertElem(e);
      Rehash(allocOk);
    }

    /** hash_delete */
    method Delete(e: T, allocOk: bool) returns (r: Option<T>)
      requires Valid()
      modifies this
      ensures Valid()
      ensures r.Some? ==>
                r.value in old(Elems()) && Equal(less, r.value, e) && Elems() == old(Elems()) - multiset{r.value}
      ensures forall x :: x in Elems() ==> !Equal(less, x, e)
      ensures r.None? ==> Elems() == old(Elems()) && buckets == old(buckets)
      ensures r.Some? ==> |buckets| == if allocOk then IdealBuckets(|Elems()|) else old(|buckets|)
    {
      hide IsPowerOf2, InPlace, Index;
      var i := Index(hash, e, |buckets|);
      var j := FindElem(i, e);
      NotFound(i, e);
      if j.Some? {
        r := Some(buckets[i][j.value]);
        RemoveElem(i, j.value);
        NoneLeft(hash, less, old(Elems()), r.value, e);
        Rehash(allocOk);
      } else {
        r := None;
      }
    }

    /** The iteration idiom of hash_first. */
    method Visit() returns (visited: seq<T>)
      requires Valid()
      ensures multiset(visited) == Elems()
      ensures forall i, j :: 0 <= i < j < |visited| ==> !Equal(less, visited[i], visited[j])
    {
      hide IsPowerOf2, OrderOk, InPlace, Index, Unique, Flat;
      var c := new Cursor(this);
      visited := [];
      while true
        invariant c.Valid() && c.table == this && c.elem.Some? && fresh(c)
        invariant visited == Flat(buckets)[..c.Rank()]
        decreases |Flat(buckets)| - c.Rank()
      {
        var e := c.Next();
        if e.None? {
          break;
        }
        visited := visited + [e.value];
      }
      assert visited == Flat(buckets);
      DistinctElems(less, visited);
    }
  }

  lemma EmptyInPlace<T(!new)>(hash: T -> word, c: nat)
    requires c > 0
    ensures InPlace(hash, EmptyBuckets<T>(c)) && Flat(EmptyBuckets<T>(c)) == Flat<T>([]) == []
  {
    EmptyHasNone<T>(EmptyBuckets(c));
  }

  lemma NoneLeft<T(!new)>(hash: T -> word, less: (T, T) -> bool, m: multiset<T>, x: T, e: T)
    requires OrderOk(hash, less) && Unique(less, m) && x in m && Equal(less, x, e)
    ensures forall y :: y in m - multiset{x} ==> !Equal(less, y, e)
  {
    forall y | y in m - multiset{x} ensures !Equal(less, y, e) {
      if Equal(less, y, e) {
        assert Equal(less, y, x);
      }
    }
  }

  /** A list of a unique collection lists no two equal elements. */
  lemma DistinctElems<T(!new)>(less: (T, T) -> bool, s: seq<T>)
    requires Unique(less, multiset(s))
    ensures forall i, j :: 0 <= i < j < |s| ==> !Equal(less, s[i], s[j])
  {
    forall i, j | 0 <= i < j < |s| ensures !Equal(less, s[i], s[j]) {
      Twice(s, i, j);
    }
  }

  lemma Twice<T>(s: seq<T>, i: nat, j: nat)
    requires i < j < |s|
    ensures s[i] == s[j] ==> multiset(s)[s[i]] >= 2
  {
    assert s == s[..j] + [s[j]] + s[j + 1..];
    assert s[i] == s[..j][i];
    assert s[i] in multiset(s[..j]);
  }

  /** struct hash_iterator: ELEM is the position in BUCKET, -1 before its first element,
      None past the last bucket. */
  class Cursor<T(!new, ==)> {
    const table: HashTable<T>
    var bucket: nat
    var elem: Option<int>

    ghost predicate Valid()
      reads this, table
    {
      && bucket <= |table.buckets|
      && (elem.Some? ==> bucket < |table.buckets| && -1 <= elem.value < |table.buckets[bucket]|)
      && (elem.Some? && elem.value == -1 ==> bucket == 0)
      && (elem.None? ==> bucket == |table.buckets|)
    }

    /** The number of elements visited so far. */
    ghost function Rank(): (r: nat)
      requires Valid() && elem.Some?
      reads this, table
      ensures r <= |Flat(table.buckets)|
    {
      FlatAt(table.buckets, bucket);
      assert bucket == 0 ==> table.buckets[..bucket] == [];
      |Flat(table.buckets[..bucket])| + elem.value + 1
    }

    /** hash_first */
    constructor (table: HashTable<T>)
      requires |table.buckets| > 0
      ensures Valid() && this.table == table && elem.Some? && Rank() == 0
    {
      this.table, bucket, elem := table, 0, Some(-1);
    }

    /** hash_next */
    method Next() returns (r: Option<T>)
      requires Valid() && elem.Some?
      modifies this
      ensures Valid()
      ensures r.Some? <==> old(Rank()) < |Flat(table.buckets)|
      ensures r.Some? <==> elem.Some?
      ensures r.Some? ==> Rank() == old(Rank()) + 1 && r.value == Flat(table.buckets)[old(Rank())]
    {
      var b := table.buckets;
      ghost var rank := Rank();
      FlatAt(b, bucket);
      var e := elem.value + 1;
      while e == |b[bucket]|
        invariant bucket < |b| && 0 <= e <= |b[bucket]|
        invariant |Flat(b[..bucket])| + e == rank
        decreases |b| - bucket
      {
        AllBucket(b, bucket);
        bucket := bucket + 1;
        if bucket >= |b| {
          elem := None;
          assert b[..bucket] == b;
          return None;
        }
        e := 0;
      }
      elem := Some(e);
      FlatAt(b, bucket);
      r := Some(b[bucket][e]);
    }
  }
}
