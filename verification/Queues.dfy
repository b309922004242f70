/** The ready list and the waiter lists of the semaphores, as linked lists.  A thread has one list
    element, so it can be on one list at a time (threads/thread.h). */
module Queues {
  import opened MergeRuns
  import opened KernelList
  import opened Tids

  datatype Key = ReadyList | Waiters(id: nat)

  /** The threads whose elements these are. */
  ghost function Vals(s: seq<Elem<Tid>>): (r: seq<Tid>)
    ensures |r| == |s| && forall i :: 0 <= i < |s| ==> r[i] == s[i].val
  {
    seq(|s|, i requires 0 <= i < |s| => s[i].val)
  }

  /** The elements between the sentinels. */
  ghost function Inner(all: seq<Elem<Tid>>): seq<Elem<Tid>> {
    if |all| < 2 then [] else all[1..|all| - 1]
  }

  /** The threads on list K. */
  ghost function OnOf(alls: map<Key, seq<Elem<Tid>>>, k: Key): seq<Tid> {
    if k in alls then Vals(Inner(alls[k])) else []
  }

  /** The interior elements of ALL are those of their threads, and the ends are no thread's. */
  ghost predicate Owned(all: seq<Elem<Tid>>, elem: map<Tid, Elem<Tid>>) {
    && |all| >= 2
    && (forall i :: 0 < i < |all| - 1 ==> all[i].val in elem && elem[all[i].val] == all[i])
    && (forall t :: t in elem ==> elem[t].val == t && elem[t] != all[0] && elem[t] != all[|all| - 1])
  }

  lemma OwnedSize(all: seq<Elem<Tid>>, elem: map<Tid, Elem<Tid>>)
    requires Owned(all, elem)
    ensures |all| >= 2
  {
  }

  /** A thread's element is on the list exactly if the thread is. */
  lemma OnList(all: seq<Elem<Tid>>, elem: map<Tid, Elem<Tid>>, t: Tid)
    requires Owned(all, elem) && t in elem
    ensures elem[t] in all <==> t in Vals(Inner(all))
  {
    var v := Vals(Inner(all));
    if elem[t] in all {
      var i :| 0 <= i < |all| && all[i] == elem[t];
      assert v[i - 1] == t;
    }
    if t in v {
      var i :| 0 <= i < |v| && v[i] == t;
      assert all[i + 1] == elem[t];
    }
  }

  lemma Pushed(all: seq<Elem<Tid>>, elem: map<Tid, Elem<Tid>>, t: Tid)
    requires Owned(all, elem) && t in elem
    ensures var n := |all| - 1;
            var all' := all[..n] + [elem[t]] + all[n..];
            Owned(all', elem)
  {
    var n := |all| - 1;
    InsertedAt(all, n, [elem[t]]);
  }

  lemma Popped(all: seq<Elem<Tid>>, elem: map<Tid, Elem<Tid>>)
    requires Owned(all, elem) && |all| > 2
    ensures Owned(all[..1] + all[2..], elem)
  {
    RemovedAt(all, 1, 2);
  }

  lemma NewElem(all: seq<Elem<Tid>>, elem: map<Tid, Elem<Tid>>, t: Tid, e: Elem<Tid>)
    requires Owned(all, elem) && t !in Vals(Inner(all)) && e !in all && e.val == t
    ensures Owned(all, elem[t := e])
  {
    forall i | 0 < i < |all| - 1 ensures all[i].val != t {
      assert Vals(Inner(all))[i - 1] == all[i].val;
    }
  }

  lemma ApartPushed<E>(a: seq<E>, b: seq<E>, n: nat, x: E)
    requires Apart(a, b) && n <= |a| && x !in b
    ensures Apart(a[..n] + [x] + a[n..], b) && Apart(b, a[..n] + [x] + a[n..])
  {
    InsertedAt(a, n, [x]);
  }

  lemma ApartPopped<E>(a: seq<E>, b: seq<E>)
    requires Apart(a, b) && |a| >= 2
    ensures Apart(a[..1] + a[2..], b) && Apart(b, a[..1] + a[2..])
  {
    RemovedAt(a, 1, 2);
  }

  /** Lists ALLS, sentinels included: threads' elements inside, and no element on two lists. */
  ghost predicate Layout(alls: map<Key, seq<Elem<Tid>>>, elem: map<Tid, Elem<Tid>>) {
    && (forall k :: k in alls ==> Owned(alls[k], elem))
    && (forall j, k :: j in alls && k in alls && j != k ==> Apart(alls[j], alls[k]))
  }

  lemma LayoutPush(alls: map<Key, seq<Elem<Tid>>>, elem: map<Tid, Elem<Tid>>, k: Key, t: Tid)
    requires Layout(alls, elem) && k in alls && t in elem && forall j :: j in alls ==> t !in Vals(Inner(alls[j]))
    ensures var n := |alls[k]| - 1;
            n > 0 && Layout(alls[k := alls[k][..n] + [elem[t]] + alls[k][n..]], elem)
    ensures forall j :: j in alls ==> elem[t] !in alls[j]
  {
    hide Apart, Owned;
    OwnedSize(alls[k], elem);
    forall j | j in alls ensures elem[t] !in alls[j] {
      OnList(alls[j], elem, t);
    }
    Pushed(alls[k], elem, t);
    forall j | j in alls && j != k
      ensures var a := alls[k][..|alls[k]| - 1] + [elem[t]] + alls[k][|alls[k]| - 1..];
              Apart(a, alls[j]) && Apart(alls[j], a)
    {
      ApartPushed(alls[k], alls[j], |alls[k]| - 1, elem[t]);
    }
  }

  lemma LayoutPop(alls: map<Key, seq<Elem<Tid>>>, elem: map<Tid, Elem<Tid>>, k: Key)
    requires Layout(alls, elem) && k in alls && |alls[k]| > 2
    ensures Layout(alls[k := alls[k][..1] + alls[k][2..]], elem)
  {
    hide Owned, Apart;
    Popped(alls[k], elem);
    forall j | j in alls && j != k
      ensures Apart(alls[k][..1] + alls[k][2..], alls[j]) && Apart(alls[j], alls[k][..1] + alls[k][2..])
    {
      ApartPopped(alls[k], alls[j]);
    }
  }

  lemma LayoutNew(alls: map<Key, seq<Elem<Tid>>>, elem: map<Tid, Elem<Tid>>, k: Key, all: seq<Elem<Tid>>)
    requires Layout(alls, elem) && |all| == 2 && forall t :: t in elem ==> elem[t].val == t
    requires forall i :: 0 <= i < 2 ==>
               (forall t :: t in elem ==> elem[t] != all[i]) && (forall j :: j in alls ==> all[i] !in alls[j])
    ensures Layout(alls[k := all], elem)
  {
  }

  lemma LayoutElem(alls: map<Key, seq<Elem<Tid>>>, elem: map<Tid, Elem<Tid>>, t: Tid, e: Elem<Tid>)
    requires Layout(alls, elem) && e.val == t && forall k :: k in alls ==> e !in alls[k] && t !in Vals(Inner(alls[k]))
    ensures Layout(alls, elem[t := e])
  {
    hide Owned;
    forall k | k in alls ensures Owned(alls[k], elem[t := e]) {
      NewElem(alls[k], elem, t, e);
    }
  }

  lemma InnerPush(all: seq<Elem<Tid>>, e: Elem<Tid>)
    requires |all| >= 2
    ensures var n := |all| - 1; Vals(Inner(all[..n] + [e] + all[n..])) == Vals(Inner(all)) + [e.val]
  {
    var n := |all| - 1;
    var r := all[..n] + [e] + all[n..];
    assert r[1..n + 1] == all[1..n] + [e];
  }

  lemma InnerPop(all: seq<Elem<Tid>>)
    requires Vals(Inner(all)) != []
    ensures |all| > 2 && Vals(Inner(all))[0] == all[1].val
    ensures Vals(Inner(all[..1] + all[2..])) == Vals(Inner(all))[1..]
  {
    var n, r := |all| - 1, all[..1] + all[2..];
    assert r[1..n - 1] == all[1..n][1..];
  }

  class Lists {
    var lists: map<Key, List<Tid>>
    var elem: map<Tid, Elem<Tid>>
    ghost var alls: map<Key, seq<Elem<Tid>>>
    ghost var repr: set<object>

    /** List K is linked as ALLS says, within the footprint. */
    ghost predicate Linked(k: Key)
      requires k in lists && k in alls
      reads this, repr
    {
      && lists[k] in repr && lists[k].all == alls[k] && (forall i :: 0 <= i < |alls[k]| ==> alls[k][i] in repr)
      && lists[k].Valid()
    }

    /** The links of every list are consistent, and no element is on two lists. */
    ghost predicate Valid()
      reads this, repr
    {
      && this in repr && (forall t :: t in elem ==> elem[t] in repr && elem[t].val == t)
      && lists.Keys == alls.Keys && Layout(alls, elem)
      && (forall k :: k in lists ==> Linked(k))
      && (forall j, k :: j in lists && k in lists && j != k ==> lists[j] != lists[k])
    }

    /** The threads on list K, in order. */
    ghost function On(k: Key): seq<Tid>
      reads this
    {
      OnOf(alls, k)
    }

    constructor ()
      ensures Valid() && this in repr && lists.Keys == {ReadyList} && On(ReadyList) == [] && elem == map[]
                && fresh(repr)
    {
      var l := new List<Tid>();
      lists, elem, alls := map[ReadyList := l], map[], map[ReadyList := l.all];
      new;
      repr := {this, l, l.all[0], l.all[1]};
    }

    /** list_empty */
    method Empty(k: Key) returns (r: bool)
      requires Valid() && k in lists
      ensures r <==> On(k) == []
    {
      hide Chain, Distinct, Layout;
      assert Linked(k);
      var l := lists[k];
      l.Neighbours(0);
      l.SameIndex(1, |l.all| - 1);
      r := l.head.next == l.tail;
    }

    /** Only list K has changed, as ALLS says. */
    twostate lemma OneChanged(k: Key)
      requires old(Valid()) && k in lists && lists == old(lists) && elem == old(elem) && repr == old(repr)
      requires alls == old(alls)[k := lists[k].all] && Layout(alls, elem) && Linked(k)
      requires forall j :: j in lists && j != k ==>
                 unchanged(lists[j]) && forall i :: 0 <= i < |lists[j].all| ==> unchanged(lists[j].all[i])
      ensures Valid()
    {
      hide Layout, Chain, Distinct;
      forall j | j in lists && j != k ensures Linked(j) {
        assert old(Linked(j));
      }
    }

    lemma InOrder(k: Key, t: Tid)
      requires Valid() && k in lists
      ensures this in repr && Linked(k) && Layout(alls, elem) && alls.Keys == lists.Keys
      ensures t in elem ==> elem[t] in repr && elem[t].val == t
      ensures forall j :: j in lists && j != k ==> lists[j] != lists[k] && lists[j].all == alls[j]
      ensures forall j, i :: j in alls && j != k && 0 <= i < |alls[j]| ==> alls[j][i] !in alls[k]
    {
      hide Chain, Distinct;
      forall j | j in lists && j != k ensures lists[j].all == alls[j] {
        assert Linked(j);
      }
      LayoutApart(k);
    }

    /** list_push_back of a thread that is on no list. */
    method PushBack(k: Key, t: Tid)
      requires Valid() && k in lists && t in elem && forall j :: j in lists ==> t !in On(j)
      modifies repr
      ensures Valid() && lists == old(lists) && elem == old(elem) && repr == old(repr)
      ensures On(k) == old(On(k)) + [t] && forall j :: j in lists && j != k ==> On(j) == old(On(j))
    {
      hide Chain, Distinct, Layout, Vals, Inner, Valid;
      var l, e := lists[k], elem[t];
      InOrder(k, t);
      ghost var all, n := l.all, |l.all| - 1;
      LayoutPush(alls, elem, k, t);
      InnerPush(all, e);
      InsertedAt(all, n, [e]);
      l.Insert(l.tail, e, n);
      alls := alls[k := l.all];
      OneChanged(k);
    }

    /** list_pop_front */
    method PopFront(k: Key) returns (t: Tid)
      requires Valid() && k in lists && On(k) != []
      modifies repr
      ensures Valid() && lists == old(lists) && elem == old(elem) && repr == old(repr)
      ensures t == old(On(k))[0] && On(k) == old(On(k))[1..]
      ensures forall j :: j in lists && j != k ==> On(j) == old(On(j))
    {
      hide Chain, Distinct, Layout, Vals, Inner, Valid;
      var l := lists[k];
      InOrder(k, 0);
      ghost var all := l.all;
      InnerPop(all);
      LayoutPop(alls, elem, k);
      RemovedAt(all, 1, 2);
      l.Neighbours(0);
      var e := l.head.next;
      t := e.val;
      var _ := l.Remove(e, 1);
      alls := alls[k := l.all];
      OneChanged(k);
    }

    /** Elements of other lists are not on list K. */
    lemma LayoutApart(k: Key)
      requires Layout(alls, elem) && k in alls
      ensures forall j, i :: j in alls && j != k && 0 <= i < |alls[j]| ==> alls[j][i] !in alls[k]
    {
    }

    /** list_init of a new list, or of one that is empty. */
    method AddList(k: Key)
      requires Valid() && On(k) == []
      modifies this
      ensures Valid() && this in repr && lists.Keys == old(lists).Keys + {k} && elem == old(elem)
      ensures fresh(repr - old(repr))
      ensures On(k) == [] && forall j :: j in lists && j != k ==> On(j) == old(On(j))
    {
      hide Chain, Distinct, Layout, Linked;
      forall j | j in alls ensures lists[j] in repr && forall i :: 0 <= i < |alls[j]| ==> alls[j][i] in repr {
        InRepr(j);
      }
      var l := new List<Tid>();
      LayoutNew(alls, elem, k, l.all);
      lists, alls := lists[k := l], alls[k := l.all];
      repr := repr + {l, l.all[0], l.all[1]};
      IsLinked(k);
      forall j | j in lists && j != k ensures Linked(j) {
        StillLinked(j);
      }
    }

    lemma InRepr(k: Key)
      requires k in lists && k in alls && Linked(k)
      ensures lists[k] in repr && forall i :: 0 <= i < |alls[k]| ==> alls[k][i] in repr
    {
    }

    lemma IsLinked(k: Key)
      requires k in lists && k in alls && lists[k] in repr && lists[k].all == alls[k] && lists[k].Valid()
      requires forall i :: 0 <= i < |alls[k]| ==> alls[k][i] in repr
      ensures Linked(k)
    {
    }

    /** Lists that were there before are still linked. */
    twostate lemma StillLinked(j: Key)
      requires j in lists && j in alls && old(j in lists && j in alls && Linked(j))
      requires lists[j] == old(lists[j]) && alls[j] == old(alls[j]) && old(repr) <= repr
      requires forall o :: o in old(repr) && o != this ==> unchanged(o)
      ensures Linked(j)
    {
    }

    /** A new thread, or a new element for one that is on no list. */
    method AddThread(t: Tid)
      requires Valid() && forall k :: k in lists ==> t !in On(k)
      modifies this
      ensures Valid() && this in repr && lists == old(lists) && elem.Keys == old(elem).Keys + {t}
      ensures fresh(repr - old(repr))
      ensures forall k :: k in lists ==> On(k) == old(On(k))
    {
      hide Chain, Distinct, Layout, Linked;
      forall j | j in alls ensures lists[j] in repr && forall i :: 0 <= i < |alls[j]| ==> alls[j][i] in repr {
        InRepr(j);
      }
      var e := new Elem<Tid>(t);
      LayoutElem(alls, elem, t, e);
      elem := elem[t := e];
      repr := repr + {e};
      forall k | k in lists ensures Linked(k) {
        StillLinked(k);
      }
    }
  }
}
