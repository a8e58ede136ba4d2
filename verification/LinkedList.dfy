/** The circular doubly linked list of list.c on the heap: every operation is tied to what it
    does to the sequence of data. */
module LinkedList {
  import opened OrderedInsert

  class Link<T> {
    var next: Link?<T>
    var prev: Link?<T>
    const data: T

    constructor (data: T)
      ensures this.data == data && next == null && prev == null
    {
      this.data, next, prev := data, null, null;
    }
  }

  function Succ(i: nat, n: nat): nat
    requires i < n
  {
    if i + 1 < n then i + 1 else 0
  }

  ghost predicate Distinct<T>(ring: seq<Link<T>>) {
    forall i, j :: 0 <= i < |ring| && 0 <= j < |ring| && i != j ==> ring[i] != ring[j]
  }

  ghost predicate Joined<T>(a: Link<T>, b: Link<T>)
    reads a, b
  {
    a.next == b && b.prev == a
  }

  /** The links form a ring in this order, forwards and backwards. */
  ghost predicate Linked<T>(ring: seq<Link<T>>)
    reads ring
  {
    forall i :: 0 <= i < |ring| ==> Joined(ring[i], ring[Succ(i, |ring|)])
  }

  ghost function Datas<T>(nodes: seq<Link<T>>): (s: seq<T>)
    ensures |s| == |nodes| && forall i :: 0 <= i < |s| ==> s[i] == nodes[i].data
  {
    seq(|nodes|, i requires 0 <= i < |nodes| => nodes[i].data)
  }

  class XmlList<T(!new)> {
    const sentinel: Link<T>
    const linkCompare: Comparator<T>
    ghost var nodes: seq<Link<T>>

    ghost function Ring(): seq<Link<T>>
      reads this
    {
      [sentinel] + nodes
    }

    ghost function Links(): set<object>
      reads this
    {
      set x | x in Ring()
    }

    ghost predicate Valid()
      reads this, Links()
    {
      Distinct(Ring()) && Linked(Ring())
    }

    ghost function Contents(): seq<T>
      reads this
    {
      Datas(nodes)
    }

    /** xmlListCreate */
    constructor (compare: Comparator<T>, nil: T)
      ensures Valid() && nodes == [] && linkCompare == compare && fresh(Links())
    {
      var s := new Link<T>(nil);
      sentinel, linkCompare, nodes := s, compare, [];
      new;
      sentinel.next := sentinel;
      sentinel.prev := sentinel;
    }

    /** xmlListLowerSearch: the first link whose data is not less, or the sentinel. */
    method LowerSearch(data: T) returns (lk: Link<T>, ghost k: nat)
      requires Valid()
      ensures k == LowerPos(linkCompare, Contents(), data)
      ensures lk == if k < |nodes| then nodes[k] else sentinel
    {
      ghost var ring, s := Ring(), Contents();
      k := 0;
      assert Joined(ring[0], ring[Succ(0, |ring|)]);
      lk := sentinel.next;
      while lk != sentinel && linkCompare(lk.data, data) < 0
        invariant 0 <= k <= |nodes| && lk == ring[if k < |nodes| then k + 1 else 0]
        invariant forall i :: 0 <= i < k ==> linkCompare(s[i], data) < 0
        decreases |nodes| - k
      {
        assert Joined(ring[k + 1], ring[Succ(k + 1, |ring|)]);
        lk := lk.next;
        k := k + 1;
      }
      assert k < |nodes| ==> ring[k + 1] != ring[0];
      LowerPosIs(linkCompare, s, data, k);
    }

    /** xmlListInsert */
    method InsertData(data: T)
      requires Valid()
      modifies this, Links()
      ensures Valid() && Contents() == Insert(linkCompare, old(Contents()), data)
      ensures fresh(Links() - old(Links()))
    {
      var lk, k := LowerSearch(data);
      hide Linked, Distinct, Datas, LowerPos;
      ghost var ring := Ring();
      var lkNew := new Link<T>(data);
      Before(ring, k, lk);
      LinkIn(ring, k, lk.prev, lkNew);
      NodesInsert(sentinel, nodes, k, lkNew);
      nodes := nodes[..k] + [lkNew] + nodes[k..];
    }

    /** xmlListReverse: the same links in the opposite order, with consistent links both ways. */
    method Reverse()
      requires Valid()
      modifies Links(), this`nodes
      ensures Valid() && nodes == Reversed(old(nodes)) && Contents() == Reversed(old(Contents()))
    {
      ghost var ring, n := Ring(), |nodes| + 1;
      Both(ring);
      ghost var k := 0;
      var lkPrev := sentinel;
      var lk := sentinel.next;
      while lk != sentinel
        invariant nodes == old(nodes) && 0 <= k < n && lkPrev == ring[k] && lk == ring[Succ(k, n)]
        invariant forall i :: 0 <= i < k ==> Swapped(ring, i)
        invariant forall i :: k <= i < n ==> InOrder(ring, i)
        decreases n - k
      {
        assert InOrder(ring, k) && InOrder(ring, k + 1);
        lkPrev.next := lkPrev.prev;
        lkPrev.prev := lk;
        lkPrev := lk;
        k := k + 1;
        lk := lk.next;
      }
      assert InOrder(ring, k);
      lkPrev.next := lkPrev.prev;
      lkPrev.prev := lk;
      SwappedIsReversed(sentinel, nodes);
      nodes := Reversed(nodes);
    }

    /** xmlLinkDeallocator, on the first link. */
    method RemoveFront()
      requires Valid() && nodes != []
      modifies Links(), this`nodes
      ensures Valid() && nodes == old(nodes)[1..] && Links() <= old(Links())
    {
      ghost var ring, n := Ring(), |nodes| + 1;
      Both(ring);
      assert InOrder(ring, 0) && InOrder(ring, 1);
      var lk := sentinel.next;
      lk.prev.next := lk.next;
      lk.next.prev := lk.prev;
      nodes := nodes[1..];
      ghost var ring' := Ring();
      assert forall i :: 0 <= i < |ring'| ==> ring'[i] == ring[if i == 0 then 0 else i + 1];
      forall i | 0 <= i < |ring'|
        ensures Joined(ring'[i], ring'[Succ(i, |ring'|)])
      {
        if i > 0 {
          assert ring'[i] == ring[i + 1] && ring'[Succ(i, |ring'|)] == ring[Succ(i + 1, n)];
          assert old(Joined(ring[i + 1], ring[Succ(i + 1, n)]));
        }
      }
    }

    /** xmlListClear */
    method Clear()
      requires Valid()
      modifies Links(), this`nodes
      ensures Valid() && nodes == [] && Links() <= old(Links())
    {
      var lk := sentinel.next;
      First(Ring());
      while lk != sentinel
        invariant Valid() && lk == Ring()[Succ(0, |nodes| + 1)]
        invariant Links() <= old(Links())
        decreases |nodes|
      {
        assert nodes != [];
        RemoveFront();
        First(Ring());
        lk := sentinel.next;
      }
    }

    /** Insertion leaves another list alone. */
    method InsertBeside(data: T, ghost other: XmlList<T>)
      requires Valid() && other.Valid() && other != this && Links() !! other.Links()
      modifies this, Links()
      ensures Valid() && Contents() == Insert(linkCompare, old(Contents()), data)
      ensures other.Valid() && other.nodes == old(other.nodes) && Links() !! other.Links()
      ensures fresh(Links() - old(Links()))
    {
      hide Distinct, Linked, Datas, Insert;
      InsertData(data);
    }

    /** xmlListCopy: insert the data of another list. */
    method Copy(other: XmlList<T>)
      requires Valid() && other.Valid() && other != this && Links() !! other.Links()
      modifies this, Links()
      ensures Valid() && Contents() == InsertAll(linkCompare, old(Contents()), other.Contents())
      ensures other.Valid() && other.nodes == old(other.nodes) && Links() !! other.Links()
      ensures fresh(Links() - old(Links()))
    {
      ghost var ring, n, s := other.Ring(), |other.nodes| + 1, other.Contents();
      ghost var k := 0;
      hide Distinct, Linked, Datas, Insert, InsertAll;
      First(ring);
      var lk := other.sentinel.next;
      assert s[0..] == s;
      while lk != other.sentinel
        invariant Valid() && other.Valid() && other.Ring() == ring && Links() !! other.Links()
        invariant 0 <= k < n && lk == ring[Succ(k, n)]
        invariant fresh(Links() - old(Links()))
        invariant InsertAll(linkCompare, old(Contents()), s) == InsertAll(linkCompare, Contents(), s[k..])
        decreases n - k
      {
        assert k + 1 < n && s[k] == lk.data && lk in other.Links();
        InsertAllNext(linkCompare, Contents(), s, k);
        InsertBeside(lk.data, other);
        Follow(ring, k + 1);
        lk := lk.next;
        k := k + 1;
      }
      assert s[k..] == [];
      InsertNone(linkCompare, Contents());
    }

    /** xmlListWalk with a walker that takes every element. */
    method Walk() returns (s: seq<T>)
      requires Valid()
      ensures s == Contents()
    {
      ghost var ring, n, all := Ring(), |nodes| + 1, Contents();
      ghost var k := 0;
      s := [];
      First(ring);
      var lk := sentinel.next;
      while lk != sentinel
        invariant 0 <= k < n && lk == ring[Succ(k, n)] && s == all[..k]
        decreases n - k
      {
        assert k + 1 < n && all[k] == lk.data;
        s := s + [lk.data];
        Follow(ring, k + 1);
        lk := lk.next;
        k := k + 1;
      }
      assert all[..k] == all;
    }

    /** xmlListSort: duplicate (which sorts), clear, and merge back (which sorts again). */
    method Sort(nil: T)
      requires Valid()
      modifies this, Links()
      ensures Valid() && Contents() == TwoPasses(linkCompare, old(Contents()))
    {
      hide Distinct, Linked, Datas, InsertAll;
      var empty := IsEmpty();
      if empty {
        NoData(nodes);
        PassesOfNothing(linkCompare);
        return;
      }
      var lTemp := Dup(nil);
      Clear();
      NoData(nodes);
      Copy(lTemp);
      lTemp.Clear();
    }

    /** xmlListEmpty */
    method IsEmpty() returns (e: bool)
      requires Valid()
      ensures e <==> nodes == []
    {
      First(Ring());
      e := sentinel.next == sentinel;
    }

    /** xmlListDup, which inserts in order. */
    method Dup(nil: T) returns (cur: XmlList<T>)
      requires Valid()
      ensures fresh(cur) && cur.Valid() && fresh(cur.Links()) && cur.linkCompare == linkCompare
      ensures cur.Contents() == InsertAll(linkCompare, [], Contents())
    {
      hide Distinct, Linked, Datas, InsertAll;
      cur := new XmlList<T>(linkCompare, nil);
      NoData(cur.nodes);
      cur.Copy(this);
    }
  }

  lemma PassesOfNothing<T>(cmp: Comparator<T>)
    ensures TwoPasses(cmp, []) == []
  {
  }

  lemma InsertAllNext<T>(cmp: Comparator<T>, acc: seq<T>, s: seq<T>, k: nat)
    requires k < |s|
    ensures InsertAll(cmp, acc, s[k..]) == InsertAll(cmp, Insert(cmp, acc, s[k]), s[k + 1..])
  {
    assert s[k..][1..] == s[k + 1..];
  }

  lemma InsertNone<T>(cmp: Comparator<T>, acc: seq<T>)
    ensures InsertAll(cmp, acc, []) == acc
  {
  }

  lemma NoData<T>(nodes: seq<Link<T>>)
    requires nodes == []
    ensures Datas(nodes) == []
  {
  }

  lemma First<T>(ring: seq<Link<T>>)
    requires ring != [] && Linked(ring)
    ensures ring[0].next == ring[Succ(0, |ring|)]
  {
    assert Joined(ring[0], ring[Succ(0, |ring|)]);
  }

  lemma Follow<T>(ring: seq<Link<T>>, k: nat)
    requires k < |ring| && Linked(ring)
    ensures ring[k].next == ring[Succ(k, |ring|)]
  {
    assert Joined(ring[k], ring[Succ(k, |ring|)]);
  }

  function Pred(i: nat, n: nat): nat
    requires i < n
  {
    if i == 0 then n - 1 else i - 1
  }

  ghost predicate InOrder<T>(ring: seq<Link<T>>, i: nat)
    requires i < |ring|
    reads ring[i]
  {
    ring[i].next == ring[Succ(i, |ring|)] && ring[i].prev == ring[Pred(i, |ring|)]
  }

  ghost predicate Swapped<T>(ring: seq<Link<T>>, i: nat)
    requires i < |ring|
    reads ring[i]
  {
    ring[i].next == ring[Pred(i, |ring|)] && ring[i].prev == ring[Succ(i, |ring|)]
  }

  lemma Both<T>(ring: seq<Link<T>>)
    requires Linked(ring)
    ensures forall i :: 0 <= i < |ring| ==> InOrder(ring, i)
  {
    forall i | 0 <= i < |ring|
      ensures InOrder(ring, i)
    {
      var n := |ring|;
      assert Joined(ring[i], ring[Succ(i, n)]) && Joined(ring[Pred(i, n)], ring[Succ(Pred(i, n), n)]);
      assert Succ(Pred(i, n), n) == i;
    }
  }

  lemma {:induction false} ReversedLength<T>(s: seq<T>)
    ensures |Reversed(s)| == |s|
  {
    if s != [] {
      ReversedLength(s[1..]);
    }
  }

  /** What follows an element in the list precedes it in the reversed one. */
  lemma FromTheEnd<T>(s: seq<T>, i: nat)
    requires i < |s|
    ensures |Reversed(s)| == |s| && Reversed(s)[i] == s[|s| - 1 - i]
  {
    var k := |s| - 1 - i;
    ReversedLength(s);
    ReversedLength(s[k + 1..]);
    ReversedConcat(s[..k], s[k..]);
    assert s == s[..k] + s[k..] && s[k..][1..] == s[k + 1..];
  }

  /** Where a link of the ring is after reversing. */
  function Mirror(i: nat, n: nat): (j: nat)
    requires i < n
    ensures j < n
  {
    if i == 0 then 0 else n - i
  }

  lemma MirrorAt<T>(sentinel: Link<T>, nodes: seq<Link<T>>, i: nat)
    requires i <= |nodes|
    ensures var ring, ring' := [sentinel] + nodes, [sentinel] + Reversed(nodes);
            |ring'| == |ring| && ring'[i] == ring[Mirror(i, |ring|)]
  {
    if i > 0 {
      FromTheEnd(nodes, i - 1);
    } else if nodes != [] {
      FromTheEnd(nodes, 0);
    }
  }

  lemma SwappedIsReversed<T>(sentinel: Link<T>, nodes: seq<Link<T>>)
    requires var ring := [sentinel] + nodes; Distinct(ring) && forall i :: 0 <= i < |ring| ==> Swapped(ring, i)
    ensures Distinct([sentinel] + Reversed(nodes)) && Linked([sentinel] + Reversed(nodes))
    ensures Datas(Reversed(nodes)) == Reversed(Datas(nodes))
  {
    hide Reversed;
    var ring, ring' := [sentinel] + nodes, [sentinel] + Reversed(nodes);
    MirrorAt(sentinel, nodes, 0);
    forall i | 0 <= i < |ring|
      ensures ring'[i] == ring[Mirror(i, |ring|)]
    {
      MirrorAt(sentinel, nodes, i);
    }
    MirroredRing(ring, ring');
    DatasReversed(nodes);
  }

  lemma DatasReversed<T>(nodes: seq<Link<T>>)
    ensures Datas(Reversed(nodes)) == Reversed(Datas(nodes))
  {
    if nodes == [] {
      NoData(nodes);
    } else {
      FromTheEnd(nodes, 0);
      FromTheEnd(Datas(nodes), 0);
      forall i | 0 <= i < |nodes|
        ensures Datas(Reversed(nodes))[i] == Reversed(Datas(nodes))[i]
      {
        FromTheEnd(nodes, i);
        FromTheEnd(Datas(nodes), i);
      }
    }
  }

  lemma MirroredRing<T>(ring: seq<Link<T>>, ring': seq<Link<T>>)
    requires |ring'| == |ring| && Distinct(ring) && forall i :: 0 <= i < |ring| ==> Swapped(ring, i)
    requires forall i :: 0 <= i < |ring| ==> ring'[i] == ring[Mirror(i, |ring|)]
    ensures Distinct(ring') && Linked(ring')
  {
    var n := |ring|;
    forall i | 0 <= i < n
      ensures Joined(ring'[i], ring'[Succ(i, n)])
    {
      var j := Mirror(i, n);
      assert Mirror(Succ(i, n), n) == Pred(j, n) && Succ(Pred(j, n), n) == j;
      assert Swapped(ring, j) && Swapped(ring, Pred(j, n));
    }
  }

  lemma NodesInsert<T>(sentinel: Link<T>, nodes: seq<Link<T>>, k: nat, x: Link<T>)
    requires k <= |nodes|
    ensures var ring, nodes' := [sentinel] + nodes, nodes[..k] + [x] + nodes[k..];
            && [sentinel] + nodes' == ring[..k + 1] + [x] + ring[k + 1..]
            && Datas(nodes') == Datas(nodes)[..k] + [x.data] + Datas(nodes)[k..]
  {
  }

  lemma LowerPosIs<T>(cmp: Comparator<T>, s: seq<T>, x: T, k: nat)
    requires k <= |s| && (forall i :: 0 <= i < k ==> cmp(s[i], x) < 0) && (k < |s| ==> cmp(s[k], x) >= 0)
    ensures LowerPos(cmp, s, x) == k
  {
  }

  lemma Before<T>(ring: seq<Link<T>>, k: nat, lk: Link<T>)
    requires Linked(ring) && k < |ring| && lk == ring[Succ(k, |ring|)]
    ensures lk.prev == ring[k]
  {
    assert Joined(ring[k], ring[Succ(k, |ring|)]);
  }

  /** The four pointer assignments that link a new element in behind ring[k]. */
  method LinkIn<T>(ghost ring: seq<Link<T>>, ghost k: nat, place: Link<T>, lkNew: Link<T>)
    requires Distinct(ring) && Linked(ring) && k < |ring| && place == ring[k] && lkNew !in ring
    modifies lkNew, ring
    ensures var ring' := ring[..k + 1] + [lkNew] + ring[k + 1..];
            Distinct(ring') && Linked(ring')
  {
    ghost var n := |ring|;
    assert Joined(ring[k], ring[Succ(k, n)]);
    lkNew.next := place.next;
    place.next.prev := lkNew;
    place.next := lkNew;
    lkNew.prev := place;
    ghost var ring' := ring[..k + 1] + [lkNew] + ring[k + 1..];
    forall i | 0 <= i < n && i != k
      ensures Joined(ring[i], ring[Succ(i, n)])
    {
      assert old(Joined(ring[i], ring[Succ(i, n)]));
      assert ring[i] != ring[k] && ring[Succ(i, n)] != ring[Succ(k, n)];
    }
    RingWith(ring, k, lkNew);
  }

  lemma RingWith<T>(ring: seq<Link<T>>, k: nat, x: Link<T>)
    requires Distinct(ring) && k < |ring| && x !in ring
    requires forall i :: 0 <= i < |ring| && i != k ==> Joined(ring[i], ring[Succ(i, |ring|)])
    requires Joined(ring[k], x) && Joined(x, ring[Succ(k, |ring|)])
    ensures Distinct(With(ring, k, x)) && Linked(With(ring, k, x))
  {
    var n, ring' := |ring|, With(ring, k, x);
    forall i | 0 <= i < |ring'|
      ensures Joined(ring'[i], ring'[Succ(i, n + 1)])
    {
      WithAt(ring, k, x, i);
      WithAt(ring, k, x, Succ(i, n + 1));
      var j := if i <= k then i else i - 1;
      assert j != k ==> Joined(ring[j], ring[Succ(j, n)]);
    }
    forall i, j | 0 <= i < |ring'| && 0 <= j < |ring'| && i != j
      ensures ring'[i] != ring'[j]
    {
      WithAt(ring, k, x, i);
      WithAt(ring, k, x, j);
    }
  }

  /** The ring with a link behind the k-th one. */
  ghost function With<T>(ring: seq<Link<T>>, k: nat, x: Link<T>): (r: seq<Link<T>>)
    requires k < |ring|
    ensures |r| == |ring| + 1
  {
    ring[..k + 1] + [x] + ring[k + 1..]
  }

  lemma WithAt<T>(ring: seq<Link<T>>, k: nat, x: Link<T>, i: nat)
    requires k < |ring| && i <= |ring|
    ensures With(ring, k, x)[i] == if i <= k then ring[i] else if i == k + 1 then x else ring[i - 1]
  {
  }
}
