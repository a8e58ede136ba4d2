/** What list.c's ordered insertion does to the sequence of data: insertion before the first
    element that is not less, repeated. Sorting twice this way is stable, and for a strict
    order the result does not depend on the order of the input. */
module OrderedInsert {
  type Comparator<!T> = (T, T) -> int

  /** A total preorder: signs are opposite when swapped, and "not greater" is transitive. */
  ghost predicate TotalPreorder<T(!new)>(cmp: Comparator<T>) {
    && (forall a, b :: cmp(a, b) <= 0 <==> cmp(b, a) >= 0)
    && (forall a, b, c :: cmp(a, b) <= 0 && cmp(b, c) <= 0 ==> cmp(a, c) <= 0)
  }

  ghost predicate Sorted<T>(cmp: Comparator<T>, s: seq<T>) {
    forall i, j :: 0 <= i < j < |s| ==> cmp(s[i], s[j]) <= 0
  }

  /** xmlListLowerSearch: the first position whose element is not less than x. */
  function LowerPos<T>(cmp: Comparator<T>, s: seq<T>, x: T): (k: nat)
    ensures k <= |s| && (forall i :: 0 <= i < k ==> cmp(s[i], x) < 0) && (k < |s| ==> cmp(s[k], x) >= 0)
  {
    if s == [] || cmp(s[0], x) >= 0 then 0 else 1 + LowerPos(cmp, s[1..], x)
  }

  /** xmlListInsert */
  function Insert<T>(cmp: Comparator<T>, s: seq<T>, x: T): (r: seq<T>)
    ensures |r| == |s| + 1
  {
    var k := LowerPos(cmp, s, x);
    s[..k] + [x] + s[k..]
  }

  /** xmlListCopy: insert the elements of s one by one. */
  function InsertAll<T>(cmp: Comparator<T>, acc: seq<T>, s: seq<T>): (r: seq<T>)
    decreases |s|
  {
    if s == [] then acc else InsertAll(cmp, Insert(cmp, acc, s[0]), s[1..])
  }

  lemma InsertBag<T>(cmp: Comparator<T>, s: seq<T>, x: T)
    ensures multiset(Insert(cmp, s, x)) == multiset(s) + multiset{x}
  {
    var k := LowerPos(cmp, s, x);
    assert s == s[..k] + s[k..];
  }

  lemma {:induction false} InsertAllBag<T>(cmp: Comparator<T>, acc: seq<T>, s: seq<T>)
    ensures multiset(InsertAll(cmp, acc, s)) == multiset(acc) + multiset(s)
    decreases |s|
  {
    if s != [] {
      InsertBag(cmp, acc, s[0]);
      InsertAllBag(cmp, Insert(cmp, acc, s[0]), s[1..]);
      assert s == [s[0]] + s[1..];
    }
  }

  lemma InsertSorted<T(!new)>(cmp: Comparator<T>, s: seq<T>, x: T)
    requires TotalPreorder(cmp) && Sorted(cmp, s)
    ensures Sorted(cmp, Insert(cmp, s, x))
  {
    hide TotalPreorder;
    var k := LowerPos(cmp, s, x);
    forall j | k <= j < |s|
      ensures cmp(x, s[j]) <= 0
    {
      NotGreater(cmp, x, s[k], s[j]);
    }
    var r := Insert(cmp, s, x);
    forall i, j | 0 <= i < j < |r|
      ensures cmp(r[i], r[j]) <= 0
    {
      assert r[i] == if i < k then s[i] else if i == k then x else s[i - 1];
      assert r[j] == if j < k then s[j] else if j == k then x else s[j - 1];
    }
  }

  lemma NotGreater<T(!new)>(cmp: Comparator<T>, x: T, a: T, b: T)
    requires TotalPreorder(cmp) && cmp(a, x) >= 0 && (a == b || cmp(a, b) <= 0)
    ensures cmp(x, b) <= 0
  {
    assert cmp(x, a) <= 0;
  }

  lemma {:induction false} InsertAllSorted<T(!new)>(cmp: Comparator<T>, acc: seq<T>, s: seq<T>)
    requires TotalPreorder(cmp) && Sorted(cmp, acc)
    ensures Sorted(cmp, InsertAll(cmp, acc, s))
    decreases |s|
  {
    if s != [] {
      InsertSorted(cmp, acc, s[0]);
      InsertAllSorted(cmp, Insert(cmp, acc, s[0]), s[1..]);
    }
  }

  // --- Stability --------------------------------------------------------------------------

  /** The elements of s that compare equal to x, in order. */
  ghost function EqualTo<T>(cmp: Comparator<T>, s: seq<T>, x: T): seq<T> {
    if s == [] then []
    else if cmp(s[0], x) == 0 then [s[0]] + EqualTo(cmp, s[1..], x) else EqualTo(cmp, s[1..], x)
  }

  ghost function Reversed<T>(s: seq<T>): seq<T> {
    if s == [] then [] else Reversed(s[1..]) + [s[0]]
  }

  lemma {:induction false} EqualToConcat<T>(cmp: Comparator<T>, a: seq<T>, b: seq<T>, x: T)
    ensures EqualTo(cmp, a + b, x) == EqualTo(cmp, a, x) + EqualTo(cmp, b, x)
  {
    if a == [] {
      assert a + b == b;
    } else {
      assert (a + b)[1..] == a[1..] + b;
      EqualToConcat(cmp, a[1..], b, x);
    }
  }

  lemma {:induction false} EqualToNone<T>(cmp: Comparator<T>, s: seq<T>, x: T)
    requires forall i :: 0 <= i < |s| ==> cmp(s[i], x) != 0
    ensures EqualTo(cmp, s, x) == []
  {
    if s != [] {
      EqualToNone(cmp, s[1..], x);
    }
  }

  /** Insertion puts an element in front of those equal to it, and moves no other. */
  lemma InsertInFront<T(!new)>(cmp: Comparator<T>, s: seq<T>, y: T, x: T)
    requires TotalPreorder(cmp)
    ensures EqualTo(cmp, Insert(cmp, s, y), x) ==
            (if cmp(y, x) == 0 then [y] else []) + EqualTo(cmp, s, x)
  {
    hide TotalPreorder, EqualTo;
    var k := LowerPos(cmp, s, y);
    if cmp(y, x) == 0 {
      NoneEqualBefore(cmp, s, y, x);
    }
    InsertParts(cmp, s[..k], s[k..], y, x);
    assert s == s[..k] + s[k..];
  }

  lemma InsertParts<T>(cmp: Comparator<T>, a: seq<T>, b: seq<T>, y: T, x: T)
    requires cmp(y, x) == 0 ==> EqualTo(cmp, a, x) == []
    ensures EqualTo(cmp, a + [y] + b, x) == (if cmp(y, x) == 0 then [y] else []) + EqualTo(cmp, a + b, x)
  {
    EqualToConcat(cmp, a + [y], b, x);
    EqualToConcat(cmp, a, [y], x);
    EqualToConcat(cmp, a, b, x);
    assert [y][1..] == [];
  }

  lemma NoneEqualBefore<T(!new)>(cmp: Comparator<T>, s: seq<T>, y: T, x: T)
    requires TotalPreorder(cmp) && cmp(y, x) == 0
    ensures EqualTo(cmp, s[..LowerPos(cmp, s, y)], x) == []
  {
    var k := LowerPos(cmp, s, y);
    forall i | 0 <= i < k
      ensures cmp(s[..k][i], x) != 0
    {
      if cmp(s[i], x) == 0 {
        EqualNotLess(cmp, s[i], y, x);
      }
    }
    EqualToNone(cmp, s[..k], x);
  }

  lemma EqualNotLess<T(!new)>(cmp: Comparator<T>, a: T, y: T, x: T)
    requires TotalPreorder(cmp) && cmp(y, x) == 0 && cmp(a, x) == 0
    ensures cmp(a, y) >= 0
  {
    assert cmp(x, a) <= 0 && cmp(y, x) <= 0;
    assert cmp(y, a) <= 0;
  }

  /** A pass of insertions reverses runs of equal elements. */
  lemma {:induction false} PassReverses<T(!new)>(cmp: Comparator<T>, acc: seq<T>, s: seq<T>, x: T)
    requires TotalPreorder(cmp)
    ensures EqualTo(cmp, InsertAll(cmp, acc, s), x) == Reversed(EqualTo(cmp, s, x)) + EqualTo(cmp, acc, x)
    decreases |s|
  {
    hide TotalPreorder, Insert;
    if s != [] {
      InsertInFront(cmp, acc, s[0], x);
      PassReverses(cmp, Insert(cmp, acc, s[0]), s[1..], x);
      if cmp(s[0], x) == 0 {
        assert ([s[0]] + EqualTo(cmp, s[1..], x))[1..] == EqualTo(cmp, s[1..], x);
      }
    }
  }

  lemma {:induction false} ReversedConcat<T>(a: seq<T>, b: seq<T>)
    ensures Reversed(a + b) == Reversed(b) + Reversed(a)
  {
    if a == [] {
      assert a + b == b;
    } else {
      assert (a + b)[1..] == a[1..] + b;
      ReversedConcat(a[1..], b);
    }
  }

  lemma {:induction false} ReversedTwice<T>(s: seq<T>)
    ensures Reversed(Reversed(s)) == s
  {
    if s != [] {
      ReversedConcat(Reversed(s[1..]), [s[0]]);
      ReversedTwice(s[1..]);
    }
  }

  /** Two passes of xmlListSort: into a copy, and back. */
  function TwoPasses<T>(cmp: Comparator<T>, s: seq<T>): seq<T> {
    InsertAll(cmp, [], InsertAll(cmp, [], s))
  }

  /** xmlListSort yields a sorted stable permutation: elements that compare equal keep their
      order, because each of the two passes reverses it. */
  lemma TwoPassesSortStably<T(!new)>(cmp: Comparator<T>, s: seq<T>)
    requires TotalPreorder(cmp)
    ensures Sorted(cmp, TwoPasses(cmp, s)) && multiset(TwoPasses(cmp, s)) == multiset(s)
    ensures forall x :: EqualTo(cmp, TwoPasses(cmp, s), x) == EqualTo(cmp, s, x)
  {
    hide TotalPreorder, InsertAll;
    var once := InsertAll(cmp, [], s);
    assert Sorted(cmp, []);
    InsertAllSorted(cmp, [], once);
    InsertAllBag(cmp, [], s);
    InsertAllBag(cmp, [], once);
    forall x
      ensures EqualTo(cmp, TwoPasses(cmp, s), x) == EqualTo(cmp, s, x)
    {
      EqualToTwice(cmp, s, x);
    }
  }

  lemma EqualToTwice<T(!new)>(cmp: Comparator<T>, s: seq<T>, x: T)
    requires TotalPreorder(cmp)
    ensures EqualTo(cmp, TwoPasses(cmp, s), x) == EqualTo(cmp, s, x)
  {
    hide TotalPreorder, InsertAll;
    var once := InsertAll(cmp, [], s);
    PassReverses(cmp, [], s, x);
    PassReverses(cmp, [], once, x);
    assert EqualTo(cmp, [], x) == [];
    assert EqualTo(cmp, once, x) == Reversed(EqualTo(cmp, s, x));
    ReversedTwice(EqualTo(cmp, s, x));
  }

  /** One pass alone is not stable: two equal elements change places. */
  lemma OnePassIsNotStable<T>(cmp: Comparator<T>, a: T, b: T)
    requires cmp(a, b) == 0
    ensures InsertAll(cmp, [], [a, b]) == [b, a]
  {
    assert [a, b][1..] == [b] && [b][1..] == [];
    assert LowerPos(cmp, [], a) == 0 && LowerPos(cmp, [a], b) == 0;
    assert Insert(cmp, [], a) == [a] && Insert(cmp, [a], b) == [b, a];
    assert InsertAll(cmp, [b, a], []) == [b, a];
    assert InsertAll(cmp, [a], [b]) == InsertAll(cmp, [b, a], []);
  }

  // --- Independence of the input order ------------------------------------------------------

  /** Different elements of `bag` never compare equal, and their order is consistent. */
  ghost predicate StrictOrderOn<T(!new)>(cmp: Comparator<T>, bag: multiset<T>) {
    && (forall a :: bag[a] <= 1)
    && (forall a, b :: a in bag && b in bag && a != b ==> (cmp(a, b) < 0 <==> cmp(b, a) > 0) && cmp(a, b) != 0)
    && (forall a, b, c :: a in bag && b in bag && c in bag && Less(cmp, a, b) && Less(cmp, b, c) ==> Less(cmp, a, c))
  }

  ghost predicate Less<T>(cmp: Comparator<T>, a: T, b: T) {
    a != b && cmp(a, b) < 0
  }

  ghost predicate StrictlySorted<T>(cmp: Comparator<T>, s: seq<T>) {
    forall i, j :: 0 <= i < j < |s| ==> Less(cmp, s[i], s[j])
  }

  lemma InsertStrictly<T(!new)>(cmp: Comparator<T>, bag: multiset<T>, s: seq<T>, x: T)
    requires StrictOrderOn(cmp, bag) && StrictlySorted(cmp, s)
    requires forall y :: y in s ==> y in bag && y != x
    requires x in bag
    ensures StrictlySorted(cmp, Insert(cmp, s, x))
  {
    hide StrictOrderOn, Less;
    var k := LowerPos(cmp, s, x);
    forall j | 0 <= j < |s|
      ensures if j < k then Less(cmp, s[j], x) else Less(cmp, x, s[j])
    {
      assert s[j] in s;
      if j < k {
        LessIs(cmp, s[j], x);
      } else {
        assert s[k] in s;
        LessThan(cmp, bag, x, s[k], s[j]);
      }
    }
    var r := Insert(cmp, s, x);
    forall i, j | 0 <= i < j < |r|
      ensures Less(cmp, r[i], r[j])
    {
      assert r[i] == if i < k then s[i] else if i == k then x else s[i - 1];
      assert r[j] == if j < k then s[j] else if j == k then x else s[j - 1];
    }
  }

  lemma LessIs<T>(cmp: Comparator<T>, a: T, b: T)
    requires a != b && cmp(a, b) < 0
    ensures Less(cmp, a, b)
  {
  }

  lemma LessThan<T(!new)>(cmp: Comparator<T>, bag: multiset<T>, x: T, a: T, b: T)
    requires StrictOrderOn(cmp, bag) && x in bag && a in bag && b in bag && a != x && cmp(a, x) >= 0
    requires a == b || Less(cmp, a, b)
    ensures Less(cmp, x, b)
  {
    assert Less(cmp, x, a);
  }

  lemma {:induction false} InsertAllStrictly<T(!new)>(cmp: Comparator<T>, bag: multiset<T>, acc: seq<T>, s: seq<T>)
    requires StrictOrderOn(cmp, bag) && StrictlySorted(cmp, acc) && multiset(acc) + multiset(s) == bag
    ensures StrictlySorted(cmp, InsertAll(cmp, acc, s))
    decreases |s|
  {
    hide StrictlySorted, Insert;
    if s != [] {
      var x := s[0];
      assert s == [x] + s[1..];
      assert bag[x] == multiset(acc)[x] + multiset(s[1..])[x] + 1;
      forall y | y in acc
        ensures y in bag && y != x
      {
        assert y in multiset(acc);
      }
      InsertStrictly(cmp, bag, acc, x);
      InsertBag(cmp, acc, x);
      InsertAllStrictly(cmp, bag, Insert(cmp, acc, x), s[1..]);
    }
  }

  /** There is only one strictly sorted arrangement. */
  lemma {:induction false} SortedUnique<T(!new)>(cmp: Comparator<T>, bag: multiset<T>, s: seq<T>, t: seq<T>)
    requires StrictOrderOn(cmp, bag) && StrictlySorted(cmp, s) && StrictlySorted(cmp, t)
    requires multiset(s) == multiset(t) <= bag
    ensures s == t
    decreases |s|
  {
    hide StrictOrderOn, StrictlySorted, Less;
    assert |multiset(s)| == |s| && |multiset(t)| == |t|;
    if s != [] {
      SameMembers(s, t);
      FirstIsLeast(cmp, s, t[0]);
      FirstIsLeast(cmp, t, s[0]);
      NotBoth(cmp, bag, s[0], t[0]);
      TailBags(s, t);
      TailSorted(cmp, s);
      TailSorted(cmp, t);
      SortedUnique(cmp, bag, s[1..], t[1..]);
    }
  }

  lemma SameMembers<T>(s: seq<T>, t: seq<T>)
    requires s != [] && t != [] && multiset(s) == multiset(t)
    ensures s[0] in t && t[0] in s && s[0] in multiset(s) && t[0] in multiset(t)
  {
    assert s[0] in multiset(t) && t[0] in multiset(s);
  }

  lemma TailBags<T>(s: seq<T>, t: seq<T>)
    requires s != [] && t != [] && s[0] == t[0] && multiset(s) == multiset(t)
    ensures multiset(s[1..]) == multiset(t[1..]) <= multiset(s)
  {
    assert s == [s[0]] + s[1..] && t == [t[0]] + t[1..];
    assert multiset(s[1..]) == multiset(s) - multiset{s[0]};
    assert multiset(t[1..]) == multiset(t) - multiset{t[0]};
  }

  lemma NotBoth<T(!new)>(cmp: Comparator<T>, bag: multiset<T>, a: T, b: T)
    requires StrictOrderOn(cmp, bag) && a in bag && b in bag
    ensures !(Less(cmp, a, b) && Less(cmp, b, a))
  {
  }

  lemma TailSorted<T>(cmp: Comparator<T>, s: seq<T>)
    requires s != [] && StrictlySorted(cmp, s)
    ensures StrictlySorted(cmp, s[1..])
  {
  }

  lemma FirstIsLeast<T>(cmp: Comparator<T>, s: seq<T>, x: T)
    requires s != [] && StrictlySorted(cmp, s) && x in s
    ensures x == s[0] || Less(cmp, s[0], x)
  {
  }

  /** When the comparator is a strict order on the elements, permuting them changes nothing. */
  lemma OrderDoesNotMatter<T(!new)>(cmp: Comparator<T>, s: seq<T>, t: seq<T>)
    requires multiset(s) == multiset(t) && StrictOrderOn(cmp, multiset(s))
    ensures InsertAll(cmp, [], s) == InsertAll(cmp, [], t)
    ensures StrictlySorted(cmp, InsertAll(cmp, [], s))
  {
    hide InsertAll, StrictOrderOn;
    InsertAllStrictly(cmp, multiset(s), [], s);
    InsertAllStrictly(cmp, multiset(t), [], t);
    InsertAllBag(cmp, [], s);
    InsertAllBag(cmp, [], t);
    SortedUnique(cmp, multiset(s), InsertAll(cmp, [], s), InsertAll(cmp, [], t));
  }
}
