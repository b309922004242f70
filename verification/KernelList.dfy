/** Doubly linked lists with head and tail sentinels (lib/kernel/list.c). */
module KernelList {
  import opened MergeRuns
  import opened Slices

  /** Neighbours in S are linked to each other. */
  ghost predicate Chain<T(0)>(s: seq<Elem<T>>)
    reads s
  {
    && (forall i {:trigger s[i].next} :: 0 <= i < |s| - 1 ==> s[i].next == s[i + 1])
    && (forall i {:trigger s[i].prev} :: 0 < i < |s| ==> s[i].prev == s[i - 1])
  }

  ghost predicate Distinct<E>(s: seq<E>) {
    forall i, j :: 0 <= i < j < |s| ==> s[i] != s[j]
  }

  lemma InsertedAt<E>(s: seq<E>, b: nat, seg: seq<E>)
    requires b <= |s|
    ensures forall i :: 0 <= i < |s| + |seg| ==>
              (s[..b] + seg + s[b..])[i] == if i < b then s[i] else if i < b + |seg| then seg[i - b] else s[i - |seg|]
  {
  }

  lemma DistinctInsert<E>(s: seq<E>, b: nat, seg: seq<E>)
    requires b <= |s| && Distinct(s) && Distinct(seg)
    requires forall i, j :: 0 <= i < |seg| && 0 <= j < |s| ==> seg[i] != s[j]
    ensures Distinct(s[..b] + seg + s[b..])
  {
    InsertedAt(s, b, seg);
  }

  /** S without the part from F to L. */
  lemma RemovedAt<E>(s: seq<E>, f: nat, l: nat)
    requires f <= l <= |s|
    ensures var r := s[..f] + s[l..];
            (forall i :: 0 <= i < |r| ==> r[i] == s[if i < f then i else i + (l - f)]) && (Distinct(s) ==> Distinct(r))
  {
  }

  lemma RemovedEnds<E>(s: seq<E>, f: nat, l: nat)
    requires 0 < f <= l < |s|
    ensures var r := s[..f] + s[l..]; |r| >= 2 && r[0] == s[0] && r[|r| - 1] == s[|s| - 1]
  {
  }

  lemma DistinctIndex<E>(s: seq<E>, i: nat, j: nat)
    requires Distinct(s) && i < |s| && j < |s| && i != j
    ensures s[i] != s[j]
  {
  }

  /** When the neighbours of the part from F to L are linked to each other, there are two chains. */
  lemma ChainRemoved<T(0)>(s: seq<Elem<T>>, f: nat, l: nat)
    requires 0 < f <= l < |s| - 1 && Distinct(s)
    requires s[f - 1].next == s[l + 1] && s[l + 1].prev == s[f - 1]
    requires forall i {:trigger s[i].next} :: 0 <= i < |s| - 1 && i != f - 1 ==> s[i].next == s[i + 1]
    requires forall i {:trigger s[i].prev} :: 0 < i < |s| && i != l + 1 ==> s[i].prev == s[i - 1]
    ensures Chain(s[..f] + s[l + 1..]) && Distinct(s[..f] + s[l + 1..]) && Chain(s[f..l + 1])
  {
    hide Distinct;
    RemovedAt(s, f, l + 1);
  }

  /** When the ends of SEG are linked to two neighbours, there is one chain. */
  lemma ChainInserted<T(0)>(s: seq<Elem<T>>, b: nat, seg: seq<Elem<T>>)
    requires 0 < b < |s| && seg != []
    requires s[b - 1].next == seg[0] && seg[0].prev == s[b - 1] && seg[|seg| - 1].next == s[b]
               && s[b].prev == seg[|seg| - 1]
    requires forall i {:trigger s[i].next} :: 0 <= i < |s| - 1 && i != b - 1 ==> s[i].next == s[i + 1]
    requires forall i {:trigger s[i].prev} :: 0 < i < |s| && i != b ==> s[i].prev == s[i - 1]
    requires forall i {:trigger seg[i].next} :: 0 <= i < |seg| - 1 ==>
               seg[i].next == seg[i + 1] && seg[i + 1].prev == seg[i]
    ensures Chain(s[..b] + seg + s[b..])
  {
    var r, n := s[..b] + seg + s[b..], |seg|;
    InsertedAt(s, b, seg);
    forall i | 0 < i < |r| ensures r[i].prev == r[i - 1] {
      if b < i < b + n {
        assert seg[i - b - 1].next == seg[i - b];
      }
    }
  }

  lemma Others<E>(s: seq<E>, j: nat)
    requires Distinct(s) && j < |s|
    ensures forall i :: 0 <= i < |s| && i != j ==> s[i] != s[j]
  {
  }

  /** Makes A and B neighbours. */
  method Join<T(0)>(a: Elem<T>, b: Elem<T>)
    modifies a`next, b`prev
    ensures a.next == b && b.prev == a
  {
    a.next := b;
    b.prev := a;
  }

  /** Links FIRST and LAST in between the neighbours A and B. */
  method Relink<T(0)>(a: Elem<T>, b: Elem<T>, first: Elem<T>, last: Elem<T>)
    requires a != last && b != first
    modifies a`next, b`prev, first`prev, last`next
    ensures a.next == first && first.prev == a && last.next == b && b.prev == last
  {
    first.prev := a;
    last.next := b;
    a.next := first;
    b.prev := last;
  }

  class List<T(0, !new)> {
    const head: Elem<T>
    const tail: Elem<T>
    /** Head, elements, tail. */
    ghost var all: seq<Elem<T>>

    ghost predicate Valid()
      reads this, all
    {
      && |all| >= 2 && all[0] == head && all[|all| - 1] == tail
      && Distinct(all) && Chain(all)
      && head.prev == null && tail.next == null
    }

    /** The elements of the list, in order. */
    ghost function Elems(): seq<Elem<T>>
      reads this
      requires |all| >= 2
    {
      all[1..|all| - 1]
    }

    /** list_init */
    constructor ()
      ensures Valid() && Elems() == [] && fresh(all)
    {
      head := new Elem<T>.Sentinel();
      tail := new Elem<T>.Sentinel();
      new;
      head.next := tail;
      tail.prev := head;
      all := [head, tail];
    }

    /** Takes elements FIRST through LAST, at positions F to L of ALL, out of the list; they
        stay linked to each other. */
    method Detach(first: Elem<T>, last: Elem<T>, ghost f: nat, ghost l: nat)
      requires Valid() && 0 < f <= l < |all| - 1 && all[f] == first && all[l] == last
      modifies this, all
      ensures Valid() && all == old(all)[..f] + old(all)[l + 1..]
      ensures Chain(old(all)[f..l + 1])
      ensures last.next == old(last.next)
    {
      hide Chain, Distinct;
      ghost var s := all;
      RemovedEnds(s, f, l + 1);
      Neighbours(l);
      Bypass(first, last, s, f, l);
      assert s[l].next == s[l + 1];
      all := s[..f] + s[l + 1..];
      ChainRemoved(s, f, l);
    }

    /** Links the neighbours of the part from FIRST to LAST to each other. */
    method Bypass(first: Elem<T>, last: Elem<T>, ghost s: seq<Elem<T>>, ghost f: nat, ghost l: nat)
      requires 0 < f <= l < |s| - 1 && s[f] == first && s[l] == last && Distinct(s) && Chain(s)
      modifies s
      ensures s[f - 1].next == s[l + 1] && s[l + 1].prev == s[f - 1]
      ensures s[0].prev == old(s[0].prev) && s[|s| - 1].next == old(s[|s| - 1].next)
      ensures forall i {:trigger s[i].next} :: 0 <= i < |s| - 1 && i != f - 1 ==> s[i].next == s[i + 1]
      ensures forall i {:trigger s[i].prev} :: 0 < i < |s| && i != l + 1 ==> s[i].prev == s[i - 1]
    {
      hide Distinct;
      Others(s, f - 1);
      Others(s, l + 1);
      Join(first.prev, last.next);
    }

    /** Links the chain SEG, from FIRST to LAST, into the list just before BEFORE. */
    method Attach(before: Elem<T>, first: Elem<T>, last: Elem<T>, ghost b: nat, ghost seg: seq<Elem<T>>)
      requires Valid() && 0 < b < |all| && all[b] == before
      requires seg != [] && seg[0] == first && seg[|seg| - 1] == last
      requires Distinct(seg) && Chain(seg) && forall i, j :: 0 <= i < |seg| && 0 <= j < |all| ==> seg[i] != all[j]
      modifies this, all, seg
      ensures Valid() && all == old(all)[..b] + seg + old(all)[b..]
    {
      hide Distinct;
      ghost var s, n := all, |seg|;
      DistinctInsert(s, b, seg);
      Relink(before.prev, before, first, last);
      forall i | 0 <= i < |s| - 1 && i != b - 1 ensures s[i].next == s[i + 1] {
        DistinctIndex(s, i, b - 1);
      }
      forall i | 0 < i < |s| && i != b ensures s[i].prev == s[i - 1] {
        DistinctIndex(s, i, b);
      }
      forall i | 0 <= i < n - 1 ensures seg[i].next == seg[i + 1] && seg[i + 1].prev == seg[i] {
        DistinctIndex(seg, i, n - 1);
        DistinctIndex(seg, i + 1, 0);
      }
      all := s[..b] + seg + s[b..];
      ChainInserted(s, b, seg);
    }

    /** list_insert */
    method Insert(before: Elem<T>, elem: Elem<T>, ghost b: nat)
      requires Valid() && 0 < b < |all| && all[b] == before && elem !in all
      modifies this, all, elem
      ensures Valid() && all == old(all)[..b] + [elem] + old(all)[b..]
    {
      Attach(before, elem, elem, b, [elem]);
    }

    /** list_remove */
    method Remove(elem: Elem<T>, ghost f: nat) returns (next: Elem<T>)
      requires Valid() && 0 < f < |all| - 1 && all[f] == elem
      modifies this, all
      ensures Valid() && all == old(all)[..f] + old(all)[f + 1..] && next == old(all)[f + 1]
    {
      next := elem.next;
      Detach(elem, elem, f, f);
    }

    /** list_splice: moves the elements from FIRST up to LAST (exclusive), at positions F to L of list
        OTHER, before BEFORE, at position B of this list.  When the two lists are one, BEFORE is not
        one of the elements moved. */
    method Splice(before: Elem<T>, other: List<T>, first: Elem<T>, last: Elem<T>, ghost b: nat, ghost f: nat,
                  ghost l: nat)
      requires Valid() && other.Valid() && (other != this ==> Apart(all, other.all))
      requires 0 < b < |all| && 0 < f <= l < |other.all| && all[b] == before
      requires other.all[f] == first && other.all[l] == last
      requires other == this ==> (b <= f || l <= b) && (f == b ==> f == l)
      modifies this, all, other, other.all
      ensures Valid() && other.Valid()
      ensures other == this ==> all == Moved(old(all), b, f, l)
      ensures other != this ==>
                && all == old(all)[..b] + old(other.all)[f..l] + old(all)[b..]
                && other.all == old(other.all)[..f] + old(other.all)[l..] && Apart(all, other.all)
    {
      hide Chain, Distinct, Moved;
      ghost var s, o := all, other.all;
      if first == last {
        other.SameIndex(f, l);
        if other == this {
          MovedNothing(all, b, f);
        }
        JoinNothing(all, other.all, b, f);
        return;
      }
      ghost var seg := o[f..l];
      other.Neighbours(l - 1);
      var last' := last.prev;
      SegmentEnds(o, f, l);
      other.Detach(first, last', f, l - 1);
      SegmentApart(o, f, l);
      if other == this {
        MovedIs(s, b, f, l);
      } else {
        SplicedApart(s, o, b, f, l);
        assert Valid();
      }
      Attach(before, first, last', if other != this || b <= f then b else b - (l - f), seg);
    }

    /** find_end_of_run */
    method FindEndOfRun(a: Elem<T>, b: Elem<T>, less: (T, T) -> bool, ghost i: nat, ghost j: nat)
      returns (r: Elem<T>, ghost k: nat)
      requires Valid() && 0 < i < j < |all| && all[i] == a && all[j] == b
      ensures k == i + RunLen(less, all[i..j]) <= j && r == all[i + RunLen(less, all[i..j])]
    {
      r, k := a.next, i + 1;
      while r != b && !Less(less, r, r.prev)
        invariant i < k <= j && r == all[k]
        invariant forall t :: i < t < k ==> !Less(less, all[t], all[t - 1])
        decreases j - k
      {
        r, k := r.next, k + 1;
      }
      RunLenIs(less, all[i..j], k - i);
    }

    /** inplace_merge of the runs at positions I to J and J to K. */
    method InplaceMerge(first: Elem<T>, second: Elem<T>, end: Elem<T>, less: (T, T) -> bool,
                        ghost i: nat, ghost j: nat, ghost k: nat)
      requires Valid() && 0 < i <= j <= k < |all| && all[i] == first && all[j] == second && all[k] == end
      requires Sorted(less, all[i..j]) && Sorted(less, all[j..k])
      modifies this, all
      ensures Valid() && all == old(all)[..i] + Merge(less, old(all)[i..j], old(all)[j..k]) + old(all)[k..]
      ensures all[k] == end && forall t :: 0 <= t < |all| ==> all[t] in old(all)
    {
      hide Merge, Sorted, Merging, Chain, Distinct, Moved;
      var a0, a1b0 := first, second;
      ghost var s, p, q := all, i, j;
      ghost var target := Merge(less, s[i..j], s[j..k]);
      MergeStart(less, s, i, j, k);
      while a0 != a1b0 && a1b0 != end
        invariant Valid() && |all| == |s| && i <= p <= q <= k
        invariant all[p] == a0 && all[q] == a1b0 && all[k..] == s[k..] && all[k] == end
        invariant forall t :: 0 <= t < |all| ==> all[t] in s
        invariant Merging(less, s[..i] + target, all, p, q, k)
        decreases k - q, q - p
      {
        ghost var t := all;
        if !Less(less, a1b0, a0) {
          MergeLeft(less, s[..i] + target, t, p, q, k);
          Neighbours(p);
          a0 := a0.next;
          p := p + 1;
        } else {
          var x := a1b0;
          Neighbours(q);
          a1b0 := a1b0.next;
          MergeRight(less, s[..i] + target, t, p, q, k);
          MovedMembers(t, p, q);
          Splice(a0, this, x, a1b0, p, q, q + 1);
          p, q := p + 1, q + 1;
        }
      }
      SameIndex(p, q);
      SameIndex(q, k);
      MergeEnd(less, s[..i] + target, all, p, q, k);
    }

    /** The body of the inner loop of list_sort: merges the run at A0, at position P, with the next
        one, if there is a next one. */
    method MergePair(a0: Elem<T>, less: (T, T) -> bool, ghost p: nat)
      returns (more: bool, b1: Elem<T>, ghost j: nat, ghost k: nat)
      requires Valid() && StrictWeakOrder(less) && 1 <= p < |all| - 1 && all[p] == a0
      modifies this, all
      ensures Valid() && |all| == |old(all)| && forall t :: 0 <= t < |all| ==> all[t] in old(all)
      ensures j == p + RunLen(less, old(all)[p..|old(all)| - 1]) <= |old(all)| - 1 && (more <==> j < |old(all)| - 1)
      ensures !more ==> all == old(all)
      ensures more ==> && k == j + RunLen(less, old(all)[j..|old(all)| - 1]) <= |old(all)| - 1
                       && all == old(all)[..p] + Merge(less, old(all)[p..j], old(all)[j..k]) + old(all)[k..]
                           && all[k] == b1
    {
      hide Merge, Sorted, Chain, Distinct, Pass, PassRuns, RunLen, StrictWeakOrder, Passing, Moved;
      ghost var s, n := all, |all| - 1;
      var a1b0;
      a1b0, j := FindEndOfRun(a0, tail, less, p, n);
      SameIndex(j, n);
      if a1b0 == tail {
        return false, tail, j, j;
      }
      b1, k := FindEndOfRun(a1b0, tail, less, j, n);
      TwoRuns(less, s, p, j, k, n);
      InplaceMerge(a0, a1b0, b1, less, p, j, k);
      more := true;
    }

    /** One iteration of the outer loop of list_sort. */
    method SortPass(less: (T, T) -> bool) returns (runs: nat)
      requires Valid() && StrictWeakOrder(less)
      modifies this, all
      ensures Valid() && (forall t :: 0 <= t < |all| ==> all[t] in old(all))
      ensures Elems() == Pass(less, old(Elems())) && runs == PassRuns(less, old(Elems()))
    {
      hide Merge, Sorted, Chain, Distinct, Pass, PassRuns, RunLen, StrictWeakOrder, Passing, Moved;
      ghost var s, n, p := all, |all| - 1, 1;
      Neighbours(0);
      var a0 := head.next;
      runs := 0;
      PassingStart(less, s);
      while a0 != tail
        invariant Valid() && |all| == n + 1 && 1 <= p <= n && all[p] == a0
        invariant forall t :: 0 <= t < |all| ==> all[t] in s
        invariant Passing(less, s, all, p, runs)
        decreases n - p
      {
        runs := runs + 1;
        ghost var t := all;
        var more, b1, j, k := MergePair(a0, less, p);
        if !more {
          PassingLast(less, s, t, p, runs - 1);
          return;
        }
        PassingMore(less, s, t, all, p, j, k, runs - 1);
        a0, p := b1, k;
      }
      SameIndex(p, n);
      PassingEnd(less, s, all, runs);
    }

    /** list_sort: terminates, and leaves the elements sorted, each once, with equivalent
        ones in their old order. */
    method Sort(less: (T, T) -> bool)
      requires Valid() && StrictWeakOrder(less)
      modifies this, all
      ensures Valid() && Sorted(less, Elems()) && StablePermutation(less, old(Elems()), Elems())
    {
      hide Sorted, Chain, Distinct, Pass, PassRuns, StrictWeakOrder, StablePermutation, Descents;
      ghost var s, e := all, Elems();
      var runs := SortPass(less);
      PassStable(less, e);
      PassProgress(less, e);
      while runs > 1
        invariant Valid() && forall t :: 0 <= t < |all| ==> all[t] in s
        invariant StablePermutation(less, e, Elems())
        invariant runs <= 1 ==> Sorted(less, Elems())
        decreases if runs > 1 then 1 + Descents(less, Elems()) else 0
      {
        ghost var f := Elems();
        PassStable(less, f);
        PassProgress(less, f);
        runs := SortPass(less);
        StableTwice(less, e, f, Elems());
      }
    }

    /** list_insert_ordered: the list stays sorted, and ELEM goes after its equals. */
    method InsertOrdered(elem: Elem<T>, less: (T, T) -> bool) returns (ghost b: nat)
      requires Valid() && StrictWeakOrder(less) && Sorted(less, Elems()) && elem !in all
      modifies this, all, elem
      ensures Valid() && 0 < b < |old(all)| && all == old(all)[..b] + [elem] + old(all)[b..]
      ensures Sorted(less, Elems())
      ensures forall i :: 0 < i < b ==> !Less(less, elem, old(all)[i])
      ensures b < |old(all)| - 1 ==> Less(less, elem, old(all)[b])
    {
      hide Chain, Distinct, Sorted, StrictWeakOrder;
      ghost var s, e := all, Elems();
      b := 1;
      Neighbours(0);
      var p := head.next;
      while p != tail && !Less(less, elem, p)
        invariant Valid() && all == s && 0 < b < |all| && all[b] == p
        invariant forall i :: 0 < i < b ==> !Less(less, elem, all[i])
        decreases |all| - b
      {
        SameIndex(b, |all| - 1);
        Neighbours(b);
        p, b := p.next, b + 1;
      }
      SameIndex(b, |all| - 1);
      forall i | 0 <= i < |e| ensures e[i] == s[i + 1] {
      }
      InsertSorted(less, e, elem, b - 1);
      Insert(p, elem, b);
      InnerInsert(s, b, elem);
    }

    /** list_reverse, by swapping the links of every element. */
    method Reverse()
      requires Valid()
      modifies this, all
      ensures Valid() && Elems() == Reversed(old(Elems()))
    {
      hide Chain, Distinct, Reversed;
      ghost var s, n := all, |all| - 1;
      Neighbours(0);
      SameIndex(1, n);
      ReversedAt(s, n);
      if head.next != tail {
        SwapLinks();
        SwapEnds(s, n);
        all := [head] + Reversed(s[1..n]) + [tail];
        DistinctReversed(s, n);
        ChainReversed(s, n);
      }
    }

    /** The end of list_reverse: the sentinels exchange their neighbours. */
    method SwapEnds(ghost s: seq<Elem<T>>, ghost n: nat)
      requires n == |s| - 1 >= 2 && s[0] == head && s[n] == tail && Distinct(s)
      requires head.next == s[1] && tail.prev == s[n - 1] && head.prev == null && tail.next == null
      requires forall t {:trigger s[t].next} :: 0 < t < n ==> s[t].next == s[t - 1]
      requires forall t {:trigger s[t].prev} :: 0 < t < n ==> s[t].prev == s[t + 1]
      modifies s
      ensures head.prev == null && tail.next == null
      ensures head.next == s[n - 1] && tail.prev == s[1] && s[n - 1].prev == head && s[1].next == tail
      ensures forall t {:trigger s[t].next} :: 1 < t < n ==> s[t].next == s[t - 1]
      ensures forall t {:trigger s[t].prev} :: 0 < t < n - 1 ==> s[t].prev == s[t + 1]
    {
      head.next, tail.prev := tail.prev, head.next;
      head.next.prev, tail.prev.next := tail.prev.next, head.next.prev;
    }

    /** Takes ELEM, at position F, out of the list and puts it at the end of OTHER. */
    method MoveTo(other: List<T>, elem: Elem<T>, ghost f: nat)
      requires Valid() && other.Valid() && Apart(all, other.all) && this != other
      requires 0 < f < |all| - 1 && all[f] == elem
      modifies this, all, other, other.all
      ensures Valid() && other.Valid() && Apart(all, other.all)
      ensures all == old(all)[..f] + old(all)[f + 1..] && other.Elems() == old(other.Elems()) + [elem]
      ensures forall i :: 0 <= i < |other.all| ==> other.all[i] in old(other.all) || other.all[i] == elem
    {
      hide Chain, Distinct;
      ghost var a, d := all, other.all;
      RemovedApart(a, f);
      assert elem in a;
      var _ := Remove(elem, f);
      assert other.Valid();
      other.Insert(other.tail, elem, |d| - 1);
      assert other.Elems() == d[1..|d| - 1] + [elem];
    }

    /** DUPLICATES, if it is not null, has the elements E and none of this list's. */
    ghost predicate Collected(duplicates: List?<T>, e: seq<Elem<T>>)
      reads this, duplicates, if duplicates == null then [] else duplicates.all
    {
      duplicates != null ==>
        this != duplicates && duplicates.Valid() && Apart(all, duplicates.all) && duplicates.Elems() == e
    }

    lemma CollectedIs(duplicates: List?<T>, e: seq<Elem<T>>)
      ensures Collected(duplicates, e) <==>
              (duplicates != null ==>
                 this != duplicates && duplicates.Valid() && Apart(all, duplicates.all) && duplicates.Elems() == e)
    {
    }

    /** Takes ELEM out of the list, and to the end of DUPLICATES if that is not null. */
    method Discard(duplicates: List?<T>, elem: Elem<T>, ghost f: nat, ghost e: seq<Elem<T>>)
      requires Valid() && Collected(duplicates, e) && 0 < f < |all| - 1 && all[f] == elem
      modifies this, all, duplicates, if duplicates == null then [] else duplicates.all
      ensures Valid() && Collected(duplicates, e + [elem])
      ensures all == old(all)[..f] + old(all)[f + 1..]
      ensures duplicates != null ==>
                forall i :: 0 <= i < |duplicates.all| ==>
                    duplicates.all[i] in old(duplicates.all) || duplicates.all[i] == elem
    {
      hide Chain, Distinct;
      if duplicates != null {
        MoveTo(duplicates, elem, f);
      } else {
        var _ := Remove(elem, f);
      }
    }

    /** The elements of this list and of DUPLICATES, if it is not null, are in FOOT. */
    ghost predicate Within(duplicates: List?<T>, foot: set<Elem<T>>)
      reads this, duplicates
    {
      && (forall i :: 0 <= i < |all| ==> all[i] in foot)
      && (duplicates != null ==> forall i :: 0 <= i < |duplicates.all| ==> duplicates.all[i] in foot)
    }

    /** A step of list_unique: the element after ELEM is discarded if it is equal, else it is the next
        to be compared. */
    method UniqueNext(duplicates: List?<T>, elem: Elem<T>, less: (T, T) -> bool, ghost foot: set<Elem<T>>,
                      ghost s: seq<Elem<T>>, ghost d: seq<Elem<T>>, ghost e: seq<Elem<T>>, ghost p: nat)
      returns (cur: Elem<T>, ghost e': seq<Elem<T>>, ghost p': nat)
      requires Valid() && Collected(duplicates, e) && 1 <= p < |all| - 1 && all[p] == elem && elem.next != tail
      requires Uniquing(less, s, d, all, e, p) && Within(duplicates, foot)
      modifies this, duplicates, foot
      ensures Valid() && Collected(duplicates, e') && 1 <= p' < |all| - 1 && all[p'] == cur
      ensures Uniquing(less, s, d, all, e', p') && Within(duplicates, foot) && |all| - p' < |old(all)| - p
    {
      hide Chain, Distinct, Kept, Dropped, Uniquing, Apart, Collected;
      Neighbours(p);
      SameIndex(p + 1, |all| - 1);
      var next := elem.next;
      UniqueStep(less, s, d, all, e, p);
      if !Less(less, elem, next) && !Less(less, next, elem) {
        RemovedAt(all, p + 1, p + 2);
        Discard(duplicates, next, p + 1, e);
        cur, e', p' := elem, e + [next], p;
      } else {
        cur, e', p' := next, e, p + 1;
      }
    }

    /** The loop of list_unique. */
    method UniqueLoop(duplicates: List?<T>, less: (T, T) -> bool, ghost foot: set<Elem<T>>,
                      ghost s: seq<Elem<T>>, ghost d: seq<Elem<T>>)
      requires Valid() && Collected(duplicates, d) && |all| > 2 && s == Elems() && Within(duplicates, foot)
      modifies this, duplicates, foot
      ensures Valid() && Elems() == Kept(less, s) && Collected(duplicates, d + Dropped(less, s))
    {
      hide Chain, Distinct, Kept, Dropped, Uniquing, Apart, Collected, Within;
      Neighbours(0);
      UniqueStart(less, all, d);
      var elem := head.next;
      ghost var e, p := d, 1;
      while elem.next != tail
        invariant Valid() && Collected(duplicates, e) && Within(duplicates, foot)
        invariant 1 <= p < |all| - 1 && all[p] == elem && Uniquing(less, s, d, all, e, p)
        decreases |all| - p
      {
        elem, e, p := UniqueNext(duplicates, elem, less, foot, s, d, e, p);
      }
      Neighbours(p);
      SameIndex(p + 1, |all| - 1);
      UniqueEnd(less, s, d, all, e, p);
    }

    /** list_unique: of adjacent equal elements only the first is kept; the others go to the end of
        DUPLICATES, in order, if that is not null. */
    method Unique(duplicates: List?<T>, less: (T, T) -> bool)
      requires Valid()
                 && (duplicates != null ==> duplicates.Valid() && Apart(all, duplicates.all) && this != duplicates)
      modifies this, all, duplicates, if duplicates == null then [] else duplicates.all
      ensures Valid() && Elems() == Kept(less, old(Elems()))
      ensures duplicates != null ==>
                && duplicates.Valid() && Apart(all, duplicates.all)
                && duplicates.Elems() == old(duplicates.Elems()) + Dropped(less, old(Elems()))
    {
      hide Chain, Distinct, Kept, Dropped, Apart, Collected;
      ghost var d: seq<Elem<T>> := if duplicates == null then [] else duplicates.Elems();
      CollectedIs(duplicates, d);
      Neighbours(0);
      SameIndex(1, |all| - 1);
      UniqueNone(less, all);
      if head.next == tail {
        return;
      }
      ghost var foot := set x | x in all || (duplicates != null && x in duplicates.all);
      ghost var s := Elems();
      UniqueLoop(duplicates, less, foot, s, d);
      CollectedIs(duplicates, d + Dropped(less, s));
    }

    /** The loop of list_reverse: every element between the sentinels swaps its links. */
    method SwapLinks()
      requires Valid()
      modifies all
      ensures head.next == all[1] && tail.prev == all[|all| - 2] && head.prev == null && tail.next == null
      ensures forall t {:trigger all[t].next} :: 0 < t < |all| - 1 ==> all[t].next == all[t - 1]
      ensures forall t {:trigger all[t].prev} :: 0 < t < |all| - 1 ==> all[t].prev == all[t + 1]
    {
      ghost var n, i := |all| - 1, 1;
      var e := head.next;
      while e != tail
        invariant 1 <= i <= n && all[i] == e
        invariant head.next == all[1] && tail.prev == all[n - 1] && head.prev == null && tail.next == null
        invariant forall t {:trigger all[t].next} :: 0 < t < n ==>
                    all[t].next == if t < i then all[t - 1] else all[t + 1]
        invariant forall t {:trigger all[t].prev} :: 0 < t < n ==>
                    all[t].prev == if t < i then all[t + 1] else all[t - 1]
        decreases n - i
      {
        e.prev, e.next := e.next, e.prev;
        e := e.prev;
        i := i + 1;
      }
    }

    lemma Neighbours(i: nat)
      requires Valid() && i < |all| - 1
      ensures all[i].next == all[i + 1] && all[i + 1].prev == all[i]
    {
    }

    lemma SameIndex(i: nat, j: nat)
      requires Valid() && i < |all| && j < |all|
      ensures all[i] == all[j] ==> i == j
    {
    }
  }

  ghost predicate Apart<E>(a: seq<E>, b: seq<E>) {
    forall i, j :: 0 <= i < |a| && 0 <= j < |b| ==> a[i] != b[j]
  }

  predicate Equivalent<T(0)>(less: (T, T) -> bool, x: Elem<T>, y: Elem<T>) {
    !Less(less, x, y) && !Less(less, y, x)
  }

  /** Some element of K is equivalent to X. */
  ghost predicate Represented<T(0)>(less: (T, T) -> bool, x: Elem<T>, k: seq<Elem<T>>) {
    exists j :: 0 <= j < |k| && Equivalent(less, x, k[j])
  }

  /** What list_unique keeps of S. */
  ghost function Kept<T(0)>(less: (T, T) -> bool, s: seq<Elem<T>>): seq<Elem<T>>
    decreases |s|
  {
    if |s| < 2 then s
    else if !Less(less, s[0], s[1]) && !Less(less, s[1], s[0]) then Kept(less, [s[0]] + s[2..])
    else [s[0]] + Kept(less, s[1..])
  }

  /** What list_unique takes out of S. */
  ghost function Dropped<T(0)>(less: (T, T) -> bool, s: seq<Elem<T>>): seq<Elem<T>>
    decreases |s|
  {
    if |s| < 2 then []
    else if !Less(less, s[0], s[1]) && !Less(less, s[1], s[0]) then [s[1]] + Dropped(less, [s[0]] + s[2..])
    else Dropped(less, s[1..])
  }

  /** The part of list_unique that is done, up to position P, with what is left to do, is the whole. */
  ghost predicate Uniquing<T(0)>(less: (T, T) -> bool, s: seq<Elem<T>>, d: seq<Elem<T>>, all: seq<Elem<T>>,
                                 e: seq<Elem<T>>, p: nat) {
    && 1 <= p < |all| && all[1..p] + Kept(less, all[p..|all| - 1]) == Kept(less, s)
    && e + Dropped(less, all[p..|all| - 1]) == d + Dropped(less, s)
  }

  lemma {:induction false} UniqueStart<T(0)>(less: (T, T) -> bool, all: seq<Elem<T>>, d: seq<Elem<T>>)
    requires |all| >= 2
    ensures Uniquing(less, all[1..|all| - 1], d, all, d, 1)
  {
    assert all[1..1] == [];
  }

  lemma {:induction false} UniqueNone<T(0)>(less: (T, T) -> bool, all: seq<Elem<T>>)
    requires |all| >= 2
    ensures |all| == 2 ==> all[1..1] == [] && Kept(less, all[1..1]) == [] && Dropped(less, all[1..1]) == []
  {
  }

  lemma {:induction false} UniqueStep<T(0)>(less: (T, T) -> bool, s: seq<Elem<T>>, d: seq<Elem<T>>, all: seq<Elem<T>>,
                                            e: seq<Elem<T>>, p: nat)
    requires Uniquing(less, s, d, all, e, p) && p < |all| - 2
    ensures if !Less(less, all[p], all[p + 1]) && !Less(less, all[p + 1], all[p])
            then Uniquing(less, s, d, all[..p + 1] + all[p + 2..], e + [all[p + 1]], p)
            else Uniquing(less, s, d, all, e, p + 1)
  {
    hide Kept, Dropped;
    var n := |all| - 1;
    var rest := all[p..n];
    KeptUnfold(less, rest);
    if Equivalent(less, all[p], all[p + 1]) {
      DropSlices(all, p);
      var tail := all[..p + 1] + all[p + 2..];
      Assoc(e, [all[p + 1]], Dropped(less, tail[p..n - 1]));
    } else {
      SliceFrom(all, p, n, 1);
      Snoc(all, 1, p);
      Assoc(all[1..p], [all[p]], Kept(less, all[p + 1..n]));
    }
  }

  /** The list without element P + 1. */
  lemma DropSlices<E>(all: seq<E>, p: nat)
    requires 1 <= p < |all| - 2
    ensures var n, all' := |all| - 1, all[..p + 1] + all[p + 2..];
            |all'| == n && all'[1..p] == all[1..p] && all'[p..n - 1] == [all[p..n][0]] + all[p..n][2..]
  {
    var n, x, y := |all| - 1, all[..p + 1], all[p + 2..];
    WithinLeft(x, y, 1, p);
    SliceTo(all, p + 1, 1, p);
    Across(x, y, p, n - 1);
    assert x[p..] == [all[p]];
    TailTo(all, p + 2, n - p - 2);
    SliceFrom(all, p, n, 2);
  }

  lemma {:induction false} KeptUnfold<T(0)>(less: (T, T) -> bool, s: seq<Elem<T>>)
    requires |s| >= 2
    ensures Kept(less, s) == if Equivalent(less, s[0], s[1]) then Kept(less, [s[0]] + s[2..])
              else [s[0]] + Kept(less, s[1..])
    ensures Dropped(less, s) == if Equivalent(less, s[0], s[1]) then [s[1]] + Dropped(less, [s[0]] + s[2..])
                                else Dropped(less, s[1..])
  {
  }

  lemma {:induction false} UniqueEnd<T(0)>(less: (T, T) -> bool, s: seq<Elem<T>>, d: seq<Elem<T>>, all: seq<Elem<T>>,
                                           e: seq<Elem<T>>, p: nat)
    requires Uniquing(less, s, d, all, e, p) && p == |all| - 2
    ensures all[1..|all| - 1] == Kept(less, s) && e == d + Dropped(less, s)
  {
    assert all[p..p + 1] == [all[p]];
    assert all[1..p + 1] == all[1..p] + [all[p]];
  }

  lemma RemovedApart<E>(a: seq<E>, f: nat)
    requires f < |a| && Distinct(a)
    ensures var r := a[..f] + a[f + 1..];
            a[f] !in r && forall i :: 0 <= i < |r| ==> r[i] == a[if i < f then i else i + 1]
  {
  }

  lemma WithoutSecond<E>(s: seq<E>)
    requires |s| >= 2
    ensures multiset(s) == multiset([s[0]] + s[2..]) + multiset([s[1]])
  {
    assert s == [s[0]] + [s[1]] + s[2..];
  }

  /** Every element is kept or taken out. */
  lemma {:induction false} UniqueSplits<T(0)>(less: (T, T) -> bool, s: seq<Elem<T>>)
    ensures multiset(Kept(less, s)) + multiset(Dropped(less, s)) == multiset(s)
    decreases |s|
  {
    if |s| >= 2 {
      if !Less(less, s[0], s[1]) && !Less(less, s[1], s[0]) {
        UniqueSplits(less, [s[0]] + s[2..]);
        WithoutSecond(s);
      } else {
        UniqueSplits(less, s[1..]);
        assert s == [s[0]] + s[1..];
      }
    }
  }

  /** No two neighbours that are kept are equal. */
  lemma {:induction false} UniqueNeighbours<T(0)>(less: (T, T) -> bool, s: seq<Elem<T>>)
    ensures s != [] ==> Kept(less, s) != [] && Kept(less, s)[0] == s[0]
    ensures var k := Kept(less, s); forall i :: 0 < i < |k| ==> Less(less, k[i - 1], k[i]) || Less(less, k[i], k[i - 1])
    decreases |s|
  {
    if |s| >= 2 {
      if !Less(less, s[0], s[1]) && !Less(less, s[1], s[0]) {
        UniqueNeighbours(less, [s[0]] + s[2..]);
      } else {
        UniqueNeighbours(less, s[1..]);
      }
    }
  }

  /** Every element has an equivalent one that is kept. */
  lemma {:induction false} UniqueCovers<T(0, !new)>(less: (T, T) -> bool, s: seq<Elem<T>>, i: nat)
    requires StrictWeakOrder(less) && i < |s|
    ensures Represented(less, s[i], Kept(less, s))
    decreases |s|
  {
    var k := Kept(less, s);
    UniqueNeighbours(less, s);
    if i == 0 {
      assert Equivalent(less, s[i], k[0]);
    } else if Equivalent(less, s[0], s[1]) {
      if i == 1 {
        assert Equivalent(less, s[i], k[0]);
      } else {
        var r := [s[0]] + s[2..];
        assert r[i - 1] == s[i];
        UniqueCovers(less, r, i - 1);
      }
    } else {
      UniqueCovers(less, s[1..], i - 1);
      var k1 := Kept(less, s[1..]);
      var j :| 0 <= j < |k1| && Equivalent(less, s[1..][i - 1], k1[j]);
      assert k[j + 1] == k1[j] && Equivalent(less, s[i], k[j + 1]);
    }
  }

  /** Of a sorted list, exactly one element of each class is kept, in ascending order. */
  lemma {:induction false} UniqueSorted<T(0, !new)>(less: (T, T) -> bool, s: seq<Elem<T>>)
    requires StrictWeakOrder(less) && Sorted(less, s)
    ensures forall i, j :: 0 <= i < j < |Kept(less, s)| ==> Less(less, Kept(less, s)[i], Kept(less, s)[j])
    ensures forall i :: 0 <= i < |s| ==> Represented(less, s[i], Kept(less, s))
  {
    UniqueAscends(less, s);
    forall i | 0 <= i < |s| ensures Represented(less, s[i], Kept(less, s)) {
      UniqueCovers(less, s, i);
    }
  }

  lemma {:induction false} UniqueAscends<T(0, !new)>(less: (T, T) -> bool, s: seq<Elem<T>>)
    requires StrictWeakOrder(less) && Sorted(less, s)
    ensures forall i, j :: 0 <= i < j < |Kept(less, s)| ==> Less(less, Kept(less, s)[i], Kept(less, s)[j])
    decreases |s|
  {
    if |s| >= 2 {
      if Equivalent(less, s[0], s[1]) {
        UniqueAscends(less, [s[0]] + s[2..]);
      } else {
        UniqueAscends(less, s[1..]);
        UniqueNeighbours(less, s[1..]);
        var k := Kept(less, s[1..]);
        forall j | 0 <= j < |k| ensures Less(less, s[0], k[j]) {
          assert Less(less, s[0], s[1]);
          if j > 0 {
            assert Less(less, k[0], k[j]);
          }
        }
      }
    }
  }

  /** The pass over the interior of S has dealt with positions 1 to P of ALL and put out RUNS
      runs; the pass over the rest completes it. */
  ghost predicate Passing<T(0)>(less: (T, T) -> bool, s: seq<Elem<T>>, all: seq<Elem<T>>, p: nat, runs: nat) {
    && |all| == |s| >= 2 && 1 <= p <= |s| - 1 && all[0] == s[0] && all[|s| - 1] == s[|s| - 1]
    && all[1..p] + Pass(less, all[p..|s| - 1]) == Pass(less, s[1..|s| - 1])
    && runs + PassRuns(less, all[p..|s| - 1]) == PassRuns(less, s[1..|s| - 1])
  }

  lemma PassingStart<T(0)>(less: (T, T) -> bool, s: seq<Elem<T>>)
    requires |s| >= 2
    ensures Passing(less, s, s, 1, 0)
  {
    assert s[1..1] == [];
  }

  lemma {:induction false} PassingLast<T(0)>(less: (T, T) -> bool, s: seq<Elem<T>>, all: seq<Elem<T>>, p: nat,
                                             runs: nat)
    requires Passing(less, s, all, p, runs) && p < |s| - 1
    requires RunLen(less, all[p..|s| - 1]) == |s| - 1 - p
    ensures all[1..|s| - 1] == Pass(less, s[1..|s| - 1]) && runs + 1 == PassRuns(less, s[1..|s| - 1])
  {
    hide RunLen;
    var rest := all[p..|s| - 1];
    assert Pass(less, rest) == rest && PassRuns(less, rest) == 1;
    assert all[1..|s| - 1] == all[1..p] + rest;
  }

  lemma {:induction false} PassingEnd<T(0)>(less: (T, T) -> bool, s: seq<Elem<T>>, all: seq<Elem<T>>, runs: nat)
    requires |s| >= 2 && Passing(less, s, all, |s| - 1, runs)
    ensures all[1..|s| - 1] == Pass(less, s[1..|s| - 1]) && runs == PassRuns(less, s[1..|s| - 1])
  {
    assert all[|s| - 1..|s| - 1] == [];
  }

  lemma {:induction false} TwoRuns<T(0, !new)>(less: (T, T) -> bool, all: seq<Elem<T>>, p: nat, j: nat, k: nat, n: nat)
    requires StrictWeakOrder(less) && p < n <= |all|
    requires j == p + RunLen(less, all[p..n]) < n && k == j + RunLen(less, all[j..n])
    ensures Sorted(less, all[p..j]) && Sorted(less, all[j..k])
  {
    hide RunLen, StrictWeakOrder, Sorted, Descents;
    RunSorted(less, all[p..n]);
    RunSorted(less, all[j..n]);
    assert all[p..n][..j - p] == all[p..j];
    assert all[j..n][..k - j] == all[j..k];
  }

  lemma InnerSlices<E>(t: seq<E>, p: nat, j: nat, k: nat, n: nat)
    requires p <= j <= k <= n <= |t|
    ensures t[p..n][..j - p] == t[p..j] && t[p..n][j - p..k - p] == t[j..k]
    ensures t[p..n][j - p..] == t[j..n] && t[p..n][k - p..] == t[k..n]
  {
    SliceSlice(t, p, n, 0, j - p);
    SliceSlice(t, p, n, j - p, k - p);
    SliceFrom(t, p, n, j - p);
    SliceFrom(t, p, n, k - p);
  }

  lemma JoinSlices<E>(t: seq<E>, merged: seq<E>, all: seq<E>, p: nat, k: nat, n: nat)
    requires 1 <= p <= k <= n < |t| && |merged| == k - p && all == t[..p] + merged + t[k..]
    ensures |all| == |t| && all[0] == t[0] && all[n] == t[n] && all[k..n] == t[k..n] && all[1..k] == t[1..p] + merged
  {
    JoinAt(t, merged, all, p, k);
    forall i | 0 <= i < n - k ensures all[k..n][i] == t[k..n][i] {
      assert all[k + i] == t[k + i];
    }
    forall i | 0 <= i < k - 1 ensures all[1..k][i] == (t[1..p] + merged)[i] {
      assert all[1..k][i] == all[i + 1];
    }
  }

  lemma JoinAt<E>(t: seq<E>, merged: seq<E>, all: seq<E>, p: nat, k: nat)
    requires p <= k <= |t| && |merged| == k - p && all == t[..p] + merged + t[k..]
    ensures |all| == |t| && forall i :: 0 <= i < |t| ==> all[i] == if p <= i < k then merged[i - p] else t[i]
  {
  }

  lemma {:induction false} PassingMore<T(0)>(less: (T, T) -> bool, s: seq<Elem<T>>, t: seq<Elem<T>>, all: seq<Elem<T>>,
                                             p: nat, j: nat, k: nat, runs: nat)
    requires Passing(less, s, t, p, runs) && p < |s| - 1
    requires j == p + RunLen(less, t[p..|s| - 1]) < |s| - 1 && k == j + RunLen(less, t[j..|s| - 1])
    requires all == t[..p] + Merge(less, t[p..j], t[j..k]) + t[k..]
    ensures Passing(less, s, all, k, runs + 1)
  {
    hide RunLen, Merge, Pass, PassRuns;
    var n := |s| - 1;
    var rest, merged := t[p..n], Merge(less, t[p..j], t[j..k]);
    InnerSlices(t, p, j, k, n);
    JoinSlices(t, merged, all, p, k, n);
    PassUnfold(less, rest, j - p, k - j);
    Assoc(t[1..p], merged, Pass(less, t[k..n]));
  }

  ghost function Reversed<E>(s: seq<E>): (r: seq<E>)
    ensures |r| == |s| && forall i :: 0 <= i < |s| ==> r[i] == s[|s| - 1 - i]
  {
    seq(|s|, i requires 0 <= i < |s| => s[|s| - 1 - i])
  }

  lemma ReversedAt<E>(s: seq<E>, n: nat)
    requires n == |s| - 1 >= 1
    ensures var r := [s[0]] + Reversed(s[1..n]) + [s[n]];
            && |r| == |s| && r[0] == s[0] && r[n] == s[n] && (forall i :: 0 < i < n ==> r[i] == s[n - i])
            && r[1..n] == Reversed(s[1..n]) && (n == 1 ==> Reversed(s[1..n]) == s[1..n])
  {
  }

  /** The links of a list that has been reversed. */
  lemma ChainReversed<T(0)>(s: seq<Elem<T>>, n: nat)
    requires n == |s| - 1 >= 2
    requires s[0].next == s[n - 1] && s[n].prev == s[1] && s[n - 1].prev == s[0] && s[1].next == s[n]
    requires forall t {:trigger s[t].next} :: 1 < t < n ==> s[t].next == s[t - 1]
    requires forall t {:trigger s[t].prev} :: 0 < t < n - 1 ==> s[t].prev == s[t + 1]
    ensures Chain([s[0]] + Reversed(s[1..n]) + [s[n]])
  {
    hide Reversed;
    ReversedAt(s, n);
    var r := [s[0]] + Reversed(s[1..n]) + [s[n]];
    forall i | 0 <= i < n ensures r[i].next == r[i + 1] {
      assert 0 < i < n - 1 ==> r[i] == s[n - i] && r[i + 1] == s[n - i - 1];
    }
    forall i | 0 < i <= n ensures r[i].prev == r[i - 1] {
      assert 1 < i < n ==> r[i] == s[n - i] && r[i - 1] == s[n - i + 1];
    }
  }

  lemma DistinctReversed<E>(s: seq<E>, n: nat)
    requires n == |s| - 1 >= 1 && Distinct(s)
    ensures Distinct([s[0]] + Reversed(s[1..n]) + [s[n]])
  {
    ReversedAt(s, n);
  }

  lemma InnerInsert<E>(s: seq<E>, b: nat, x: E)
    requires 0 < b < |s|
    ensures var r, e := s[..b] + [x] + s[b..], s[1..|s| - 1];
            r[1..|r| - 1] == e[..b - 1] + [x] + e[b - 1..]
  {
    var r := s[..b] + [x] + s[b..];
    assert r[1..|r| - 1] == s[1..b] + [x] + s[b..|s| - 1];
  }

  lemma InsertSorted<T(0, !new)>(less: (T, T) -> bool, e: seq<Elem<T>>, x: Elem<T>, b: nat)
    requires StrictWeakOrder(less) && Sorted(less, e) && b <= |e|
    requires forall i :: 0 <= i < b ==> !Less(less, x, e[i])
    requires b < |e| ==> Less(less, x, e[b])
    ensures Sorted(less, e[..b] + [x] + e[b..])
  {
    forall j | b <= j < |e| ensures !Less(less, e[j], x) {
      AboveAll(less, e[b..], x, j - b);
    }
    InsertedAt(e, b, [x]);
  }

  lemma RunLenIs<T(0)>(less: (T, T) -> bool, s: seq<Elem<T>>, n: nat)
    requires 0 < n <= |s| && (forall i :: 0 < i < n ==> !Less(less, s[i], s[i - 1]))
    requires n < |s| ==> Less(less, s[n], s[n - 1])
    ensures n == RunLen(less, s)
  {
  }

  /** What has been merged so far, at the front of S, together with the merge of what is left
      of the two runs, is DONE. */
  ghost predicate Merging<T(0)>(less: (T, T) -> bool, done: seq<Elem<T>>, s: seq<Elem<T>>, p: nat, q: nat, k: nat) {
    p <= q <= k <= |s| && s[..p] + Merge(less, s[p..q], s[q..k]) == done
  }

  lemma MergeStart<T(0)>(less: (T, T) -> bool, s: seq<Elem<T>>, i: nat, j: nat, k: nat)
    requires i <= j <= k <= |s|
    ensures Merging(less, s[..i] + Merge(less, s[i..j], s[j..k]), s, i, j, k)
  {
  }

  lemma {:induction false} MergeLeft<T(0)>(less: (T, T) -> bool, done: seq<Elem<T>>, s: seq<Elem<T>>, p: nat, q: nat,
                                           k: nat)
    requires Merging(less, done, s, p, q, k) && p < q < k && !Less(less, s[q], s[p])
    ensures Merging(less, done, s, p + 1, q, k)
  {
    hide Merge;
    MergeUnfold(less, s[p..q], s[q..k]);
    SliceFrom(s, p, q, 1);
    Snoc(s, 0, p);
    Assoc(s[..p], [s[p]], Merge(less, s[p + 1..q], s[q..k]));
  }

  lemma {:induction false} MergeRight<T(0)>(less: (T, T) -> bool, done: seq<Elem<T>>, s: seq<Elem<T>>, p: nat, q: nat,
                                            k: nat)
    requires Merging(less, done, s, p, q, k) && p < q < k && Less(less, s[q], s[p])
    ensures Merging(less, done, Moved(s, p, q, q + 1), p + 1, q + 1, k)
    ensures var s' := Moved(s, p, q, q + 1);
            && |s'| == |s| && s'[p + 1] == s[p] && s'[k..] == s[k..]
            && (forall i :: q < i < |s| ==> s'[i] == s[i])
  {
    hide Merge, Moved;
    MovedSlices(s, p, q, k);
    MovedAt(s, p, q);
    MergeUnfold(less, s[p..q], s[q..k]);
    SliceFrom(s, q, k, 1);
    Assoc(s[..p], [s[q]], Merge(less, s[p..q], s[q + 1..k]));
  }

  /** The element at Q goes to the front of those from P on. */
  lemma MovedAt<E>(s: seq<E>, p: nat, q: nat)
    requires p < q < |s|
    ensures var s' := Moved(s, p, q, q + 1);
            && |s'| == |s|
            && forall i :: 0 <= i < |s| ==> s'[i] == s[if i < p || i > q then i else if i == p then q else i - 1]
  {
  }

  lemma TailSame<E>(s: seq<E>, r: seq<E>, k: nat)
    requires |s| == |r| && k <= |s| && forall i :: k <= i < |s| ==> s[i] == r[i]
    ensures s[k..] == r[k..]
  {
  }

  lemma MovedSlices<E>(s: seq<E>, p: nat, q: nat, k: nat)
    requires p < q < k <= |s|
    ensures var s' := Moved(s, p, q, q + 1);
            && |s'| == |s| && s'[..p + 1] == s[..p] + [s[q]] && s'[p + 1..q + 1] == s[p..q]
                && s'[q + 1..k] == s[q + 1..k]
            && s'[k..] == s[k..]
  {
    hide Moved;
    MovedAt(s, p, q);
    var s' := Moved(s, p, q, q + 1);
    forall i | 0 <= i < p + 1 ensures s'[..p + 1][i] == (s[..p] + [s[q]])[i] {
    }
    forall i | 0 <= i < q - p ensures s'[p + 1..q + 1][i] == s[p..q][i] {
    }
    var a, b := s'[q + 1..k], s[q + 1..k];
    forall i | 0 <= i < k - q - 1 ensures a[i] == b[i] {
    }
    TailSame(s, s', k);
  }

  lemma {:induction false} MergeEnd<T(0)>(less: (T, T) -> bool, done: seq<Elem<T>>, s: seq<Elem<T>>, p: nat, q: nat,
                                          k: nat)
    requires Merging(less, done, s, p, q, k) && (p == q || q == k)
    ensures s == done + s[k..]
  {
    if p == q {
      assert s[p..q] == [];
      assert s == s[..p] + s[p..k] + s[k..];
    } else {
      assert s[q..k] == [];
      assert s == s[..p] + s[p..q] + s[k..];
    }
  }

  lemma MovedMembers<E>(s: seq<E>, p: nat, q: nat)
    requires p <= q < |s|
    ensures var r := Moved(s, p, q, q + 1); forall t :: 0 <= t < |r| ==> r[t] in s
  {
    var r := Moved(s, p, q, q + 1);
    forall t | 0 <= t < |r| ensures r[t] in s {
      assert r[t] == s[if t < p then t else if t == p then q else if t <= q then t - 1 else t];
    }
  }

  /** S with the part from F to L moved to just before position B. */
  ghost function Moved<E>(s: seq<E>, b: nat, f: nat, l: nat): seq<E>
    requires f <= l <= |s| && b <= |s| && (b <= f || l <= b)
  {
    if b <= f then s[..b] + s[f..l] + s[b..f] + s[l..] else s[..f] + s[l..b] + s[f..l] + s[b..]
  }

  lemma MovedNothing<E>(s: seq<E>, b: nat, f: nat)
    requires b <= |s| && f <= |s|
    ensures Moved(s, b, f, f) == s
  {
    if b <= f {
      assert s[..b] + [] + s[b..f] + s[f..] == s;
    } else {
      assert s[..f] + s[f..b] + [] + s[b..] == s;
    }
  }

  lemma SegmentEnds<E>(o: seq<E>, f: nat, l: nat)
    requires f < l <= |o|
    ensures o[f..l][0] == o[f] && o[f..l][l - f - 1] == o[l - 1]
    ensures forall i :: 0 <= i < l - f ==> o[f..l][i] in o
  {
  }

  lemma JoinNothing<E>(s: seq<E>, o: seq<E>, b: nat, f: nat)
    requires b <= |s| && f <= |o|
    ensures s[..b] + o[f..f] + s[b..] == s && o[..f] + o[f..] == o
  {
  }

  /** Moving a part of O into S keeps them apart. */
  lemma SplicedApart<E>(s: seq<E>, o: seq<E>, b: nat, f: nat, l: nat)
    requires b <= |s| && f <= l <= |o| && Apart(s, o) && Distinct(o)
    ensures Apart(s[..b] + o[f..l] + s[b..], o[..f] + o[l..])
    ensures forall i, j :: 0 <= i < |o[f..l]| && 0 <= j < |s| ==> o[f..l][i] != s[j]
  {
    InsertedAt(s, b, o[f..l]);
    RemovedAt(o, f, l);
  }

  lemma SegmentApart<E>(s: seq<E>, f: nat, l: nat)
    requires f <= l <= |s| && Distinct(s)
    ensures Distinct(s[f..l])
    ensures var rest := s[..f] + s[l..];
            forall i, j :: 0 <= i < |s[f..l]| && 0 <= j < |rest| ==> s[f..l][i] != rest[j]
  {
  }

  lemma MovedIs<E>(s: seq<E>, b: nat, f: nat, l: nat)
    requires f <= l <= |s| && b <= |s| && (b <= f || l <= b)
    ensures var rest := s[..f] + s[l..];
            var b' := if b <= f then b else b - (l - f);
            rest[..b'] + s[f..l] + rest[b'..] == Moved(s, b, f, l)
  {
  }
}
