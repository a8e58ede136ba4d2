/** The comparators of c14n.c and what they make of the order of attributes and of namespace
    declarations in the canonical form. */
module C14nOrder {
  import opened Bytes
  import opened OrderedInsert

  /** xmlStrcmp on zero-terminated strings: the difference of the first bytes that differ. */
  function StrCmp(a: seq<byte>, b: seq<byte>): int
    decreases |a|
  {
    if a == [] && b == [] then 0
    else if a == [] then -b[0]
    else if b == [] then a[0]
    else if a[0] != b[0] then a[0] - b[0]
    else StrCmp(a[1..], b[1..])
  }

  /** Strings without a zero byte, as C strings are. */
  type CString = s: seq<byte> | 0 !in s witness []

  lemma {:induction false} StrCmpEqual(a: CString, b: CString)
    ensures StrCmp(a, b) == 0 <==> a == b
    decreases |a|
  {
    if a != [] && b != [] && a[0] == b[0] {
      StrCmpEqual(a[1..], b[1..]);
      assert a == [a[0]] + a[1..] && b == [b[0]] + b[1..];
    }
  }

  lemma {:induction false} StrCmpSwaps(a: CString, b: CString)
    ensures StrCmp(a, b) < 0 <==> StrCmp(b, a) > 0
    decreases |a|
  {
    if a != [] && b != [] && a[0] == b[0] {
      StrCmpSwaps(a[1..], b[1..]);
    }
  }

  lemma {:induction false} StrCmpTransitive(a: CString, b: CString, c: CString)
    requires StrCmp(a, b) <= 0 && StrCmp(b, c) <= 0
    ensures StrCmp(a, c) <= 0
    ensures StrCmp(a, b) < 0 || StrCmp(b, c) < 0 ==> StrCmp(a, c) < 0
    decreases |a|
  {
    if a != [] && b != [] && c != [] && a[0] == b[0] == c[0] {
      StrCmpTransitive(a[1..], b[1..], c[1..]);
    }
  }

  /** The order of bytes: at the first place where the strings differ, the one that ends there or has
      the smaller byte comes first. */
  ghost predicate ByteBefore(a: seq<byte>, b: seq<byte>) {
    exists k: nat :: DiffersAt(a, b, k) && (k == |a| || a[k] < b[k])
  }

  ghost predicate DiffersAt(a: seq<byte>, b: seq<byte>, k: nat) {
    k <= |a| && k < |b| && a[..k] == b[..k]
  }

  lemma {:induction false} StrCmpIsByteOrder(a: CString, b: CString)
    ensures StrCmp(a, b) < 0 <==> ByteBefore(a, b)
    decreases |a|
  {
    if a == [] {
      if b != [] {
        assert DiffersAt(a, b, 0);
      }
    } else if b != [] && a[0] == b[0] {
      StrCmpIsByteOrder(a[1..], b[1..]);
      assert a == [a[0]] + a[1..] && b == [b[0]] + b[1..];
      if ByteBefore(a[1..], b[1..]) {
        var k: nat :| DiffersAt(a[1..], b[1..], k) && (k == |a[1..]| || a[1..][k] < b[1..][k]);
        assert a[..k + 1] == [a[0]] + a[1..][..k] && b[..k + 1] == [b[0]] + b[1..][..k];
        assert DiffersAt(a, b, k + 1);
      }
      if ByteBefore(a, b) {
        var k: nat :| DiffersAt(a, b, k) && (k == |a| || a[k] < b[k]);
        assert k > 0 && a[1..][..k - 1] == a[..k][1..] == b[..k][1..] == b[1..][..k - 1];
        assert DiffersAt(a[1..], b[1..], k - 1);
      }
    } else if b != [] {
      if a[0] < b[0] {
        assert DiffersAt(a, b, 0);
      } else if ByteBefore(a, b) {
        var k: nat :| DiffersAt(a, b, k) && (k == |a| || a[k] < b[k]);
        assert k > 0 ==> a[..k][0] == b[..k][0];
      }
    }
  }

  // --- Namespace declarations ---------------------------------------------------------------

  /** A namespace declaration; an empty prefix stands for the default namespace. */
  datatype NsDef = NsDef(prefix: CString, href: CString)

  /** xmlC14NNsCompare on two different declarations. */
  function NsCompare(a: NsDef, b: NsDef): int {
    StrCmp(a.prefix, b.prefix)
  }

  lemma NsStrict(bag: multiset<NsDef>)
    requires forall a :: bag[a] <= 1
    requires forall a, b :: a in bag && b in bag && a.prefix == b.prefix ==> a == b
    ensures StrictOrderOn(NsCompare, bag)
  {
    forall a, b | a in bag && b in bag && a != b
      ensures (NsCompare(a, b) < 0 <==> NsCompare(b, a) > 0) && NsCompare(a, b) != 0
    {
      StrCmpSwaps(a.prefix, b.prefix);
      StrCmpEqual(a.prefix, b.prefix);
    }
    forall a, b, c | a in bag && b in bag && c in bag && Less(NsCompare, a, b) && Less(NsCompare, b, c)
      ensures Less(NsCompare, a, c)
    {
      StrCmpTransitive(a.prefix, b.prefix, c.prefix);
      StrCmpEqual(a.prefix, c.prefix);
    }
  }

  // --- Attributes ---------------------------------------------------------------------------

  /** A namespace as attributes point to it; `id` is its address, and the prefix may be NULL. */
  datatype Ns = Ns(id: nat, prefix: Option<CString>, href: CString)

  /** An attribute node; `id` is its address. */
  datatype Attr = Attr(id: nat, ns: Option<Ns>, name: CString, value: seq<byte>)

  /** xmlC14NAttrsCompare */
  function AttrsCompare(a: Attr, b: Attr): int {
    if a == b then 0
    else if a.ns == b.ns then StrCmp(a.name, b.name)
    else if a.ns.None? then -1
    else if b.ns.None? then 1
    else if a.ns.value.prefix.None? then -1
    else if b.ns.value.prefix.None? then 1
    else
      var r := StrCmp(a.ns.value.href, b.ns.value.href);
      if r == 0 then StrCmp(a.name, b.name) else r
  }

  /** The rank that the comparator gives to kinds of attributes. */
  function Rank(a: Attr): nat {
    match a.ns
    case None => 0
    case Some(ns) => if ns.prefix.None? then 1 else 2
  }

  function Href(a: Attr): CString {
    match a.ns
    case None => []
    case Some(ns) => ns.href
  }

  /** Two attributes of one element: addresses identify nodes and namespaces, and no two have
      the same expanded name. */
  ghost predicate WellFormedPair(a: Attr, b: Attr) {
    && (a.id == b.id ==> a == b)
    && (a.ns.Some? && b.ns.Some? && a.ns.value.id == b.ns.value.id ==> a.ns == b.ns)
    && (a != b ==> a.name != b.name || a.ns.Some? != b.ns.Some? || Href(a) != Href(b))
  }

  /** They are in different namespaces, both without a prefix. */
  predicate Clash(a: Attr, b: Attr) {
    Rank(a) == 1 && Rank(b) == 1 && a.ns != b.ns
  }

  /** Without a clash the comparator is the lexicographic order of rank, URI and local name. */
  lemma AttrsCompareIs(a: Attr, b: Attr)
    requires a != b && WellFormedPair(a, b) && !Clash(a, b)
    ensures AttrsCompare(a, b) < 0 <==>
            Rank(a) < Rank(b) || (Rank(a) == Rank(b) &&
                                  (StrCmp(Href(a), Href(b)) < 0 || (Href(a) == Href(b) && StrCmp(a.name, b.name) < 0)))
    ensures AttrsCompare(a, b) != 0
  {
    StrCmpEqual(Href(a), Href(b));
    StrCmpEqual(a.name, b.name);
  }

  ghost predicate WellFormed(bag: multiset<Attr>) {
    && (forall a :: bag[a] <= 1)
    && forall a, b :: a in bag && b in bag ==> WellFormedPair(a, b)
  }

  ghost predicate NoClash(bag: multiset<Attr>) {
    forall a, b :: a in bag && b in bag ==> !Clash(a, b)
  }

  lemma AttrsStrict(bag: multiset<Attr>)
    requires WellFormed(bag) && NoClash(bag)
    ensures StrictOrderOn(AttrsCompare, bag)
  {
    forall a, b | a in bag && b in bag && a != b
      ensures (AttrsCompare(a, b) < 0 <==> AttrsCompare(b, a) > 0) && AttrsCompare(a, b) != 0
    {
      AttrsSwap(a, b);
    }
    forall a, b, c | a in bag && b in bag && c in bag && Less(AttrsCompare, a, b) && Less(AttrsCompare, b, c)
      ensures Less(AttrsCompare, a, c)
    {
      AttrsTransitive(a, b, c);
    }
  }

  lemma AttrsSwap(a: Attr, b: Attr)
    requires a != b && WellFormedPair(a, b) && WellFormedPair(b, a) && !Clash(a, b) && !Clash(b, a)
    ensures AttrsCompare(a, b) < 0 <==> AttrsCompare(b, a) > 0
    ensures AttrsCompare(a, b) != 0
  {
    hide StrCmp;
    AttrsCompareIs(a, b);
    AttrsCompareIs(b, a);
    StrCmpSwaps(Href(a), Href(b));
    StrCmpSwaps(Href(b), Href(a));
    StrCmpSwaps(a.name, b.name);
    StrCmpSwaps(b.name, a.name);
    StrCmpEqual(Href(a), Href(b));
    StrCmpEqual(a.name, b.name);
    StrCmpEqual(b.name, a.name);
  }

  lemma AttrsTransitive(a: Attr, b: Attr, c: Attr)
    requires WellFormedPair(a, b) && WellFormedPair(b, c) && WellFormedPair(a, c) && WellFormedPair(c, a)
    requires !Clash(a, b) && !Clash(b, c) && !Clash(a, c)
    requires Less(AttrsCompare, a, b) && Less(AttrsCompare, b, c)
    ensures Less(AttrsCompare, a, c)
  {
    hide StrCmp, AttrsCompare;
    AttrsCompareIs(a, b);
    AttrsCompareIs(b, c);
    StrCmpEqual(Href(a), Href(b));
    StrCmpEqual(Href(b), Href(c));
    StrCmpEqual(a.name, b.name);
    if StrCmp(Href(a), Href(b)) <= 0 && StrCmp(Href(b), Href(c)) <= 0 {
      StrCmpTransitive(Href(a), Href(b), Href(c));
    }
    if StrCmp(a.name, b.name) <= 0 && StrCmp(b.name, c.name) <= 0 {
      StrCmpTransitive(a.name, b.name, c.name);
    }
    StrCmpSwaps(Href(a), Href(a));
    StrCmpEqual(Href(a), Href(a));
    StrCmpEqual(a.name, a.name);
    if a != c {
      AttrsCompareIs(a, c);
    }
  }

  /** The attributes of an element in the order in which they are written. */
  function AttrAxis(attrs: seq<Attr>): seq<Attr> {
    InsertAll(AttrsCompare, [], attrs)
  }

  /** The document order of attributes in canonical XML: those without a namespace first, by name;
      then by URI and local name, those whose namespace has no prefix in front. */
  ghost predicate AttrBefore(a: Attr, b: Attr) {
    if a.ns.None? then b.ns.Some? || ByteBefore(a.name, b.name)
    else
      && b.ns.Some?
      && var m, n := a.ns.value, b.ns.value;
         if m.prefix.None? != n.prefix.None? then m.prefix.None?
         else ByteBefore(m.href, n.href) || (m.href == n.href && ByteBefore(a.name, b.name))
  }

  lemma LessIsBefore(a: Attr, b: Attr)
    requires a != b && WellFormedPair(a, b) && !Clash(a, b) && AttrsCompare(a, b) < 0
    ensures AttrBefore(a, b)
  {
    hide StrCmp, ByteBefore;
    AttrsCompareIs(a, b);
    StrCmpIsByteOrder(Href(a), Href(b));
    StrCmpIsByteOrder(a.name, b.name);
    if a.ns.Some? && b.ns.Some? {
      StrCmpIsByteOrder(a.ns.value.href, b.ns.value.href);
    }
  }

  /** The attributes are written in that order, whatever the order in which they are stored. */
  lemma AxisInOrder(attrs: seq<Attr>)
    requires WellFormed(multiset(attrs)) && NoClash(multiset(attrs))
    ensures multiset(AttrAxis(attrs)) == multiset(attrs)
    ensures forall i, j :: 0 <= i < j < |AttrAxis(attrs)| ==> AttrBefore(AttrAxis(attrs)[i], AttrAxis(attrs)[j])
  {
    hide AttrsCompare, AttrBefore, Clash, WellFormedPair;
    var bag, axis := multiset(attrs), AttrAxis(attrs);
    AttrsStrict(bag);
    assert multiset([]) + bag == bag;
    InsertAllStrictly(AttrsCompare, bag, [], attrs);
    AxisBag(attrs);
    forall i, j | 0 <= i < j < |axis|
      ensures AttrBefore(axis[i], axis[j])
    {
      assert axis[i] in multiset(axis) && axis[j] in multiset(axis) && Less(AttrsCompare, axis[i], axis[j]);
      TwiceCounts(axis, i, j);
      assert bag[axis[i]] <= 1;
      LessIsBefore(axis[i], axis[j]);
    }
  }

  /** The order in which the attributes are stored does not show in the canonical form. */
  ghost predicate OrderIndependent(bag: multiset<Attr>) {
    forall s, t :: multiset(s) == bag && multiset(t) == bag ==> AttrAxis(s) == AttrAxis(t)
  }

  /** For attributes with distinct expanded names, this holds exactly when no two of them are in
      different namespaces without a prefix: for such a pair the comparator calls each one
      smaller than the other. */
  lemma AttrOrderIff(bag: multiset<Attr>)
    requires WellFormed(bag)
    ensures OrderIndependent(bag) <==> NoClash(bag)
  {
    if NoClash(bag) {
      forall s, t | multiset(s) == bag && multiset(t) == bag
        ensures AttrAxis(s) == AttrAxis(t)
      {
        AttrsStrict(bag);
        OrderDoesNotMatter(AttrsCompare, s, t);
      }
    } else {
      var a, b :| a in bag && b in bag && Clash(a, b);
      var rest := ClashShows(bag, a, b);
    }
  }

  /** Two attributes that clash are written in the order in which they are stored, if they come
      first, and so the stored order shows. */
  lemma ClashShows(bag: multiset<Attr>, a: Attr, b: Attr) returns (rest: seq<Attr>)
    requires (forall x :: bag[x] <= 1) && a in bag && b in bag && Clash(a, b)
    ensures multiset([a, b] + rest) == bag == multiset([b, a] + rest)
    ensures Precedes(AttrAxis([a, b] + rest), a, b) && Precedes(AttrAxis([b, a] + rest), b, a)
    ensures !OrderIndependent(bag)
  {
    hide AttrAxis, Precedes;
    rest := SeqOf(bag - multiset{a, b});
    var s, t := [a, b] + rest, [b, a] + rest;
    assert multiset(s) == multiset{a, b} + (bag - multiset{a, b}) == bag;
    assert multiset(t) == multiset(s);
    TwoFirst(a, b, rest);
    TwoFirst(b, a, rest);
    AxisBag(s);
    NotBothOrders(AttrAxis(s), a, b);
    assert AttrAxis(s) != AttrAxis(t);
  }

  lemma AxisBag(s: seq<Attr>)
    ensures multiset(AttrAxis(s)) == multiset(s)
  {
    InsertAllBag(AttrsCompare, [], s);
  }

  /** x comes before y. */
  ghost predicate Precedes<T>(s: seq<T>, x: T, y: T) {
    exists i, j :: 0 <= i < j < |s| && s[i] == x && s[j] == y
  }

  lemma TwoFirst(a: Attr, b: Attr, rest: seq<Attr>)
    requires Clash(a, b)
    ensures Precedes(AttrAxis([a, b] + rest), a, b)
  {
    var s := [a, b] + rest;
    assert s[1..] == [b] + rest && s[1..][1..] == rest;
    assert LowerPos(AttrsCompare, [], a) == 0 && Insert(AttrsCompare, [], a) == [a];
    assert [a][1..] == [] && LowerPos(AttrsCompare, [a], b) == 1;
    assert Insert(AttrsCompare, [a], b) == [a, b];
    assert InsertAll(AttrsCompare, [], s) == InsertAll(AttrsCompare, [a], s[1..]) ==
           InsertAll(AttrsCompare, [a, b], rest);
    var two := [a, b];
    assert two[0] == a && two[1] == b;
    KeepsOrder(AttrsCompare, two, rest, a, b);
  }

  /** Insertion never changes the order of what is already in the list. */
  lemma {:induction false} KeepsOrder<T>(cmp: Comparator<T>, acc: seq<T>, s: seq<T>, x: T, y: T)
    requires Precedes(acc, x, y)
    ensures Precedes(InsertAll(cmp, acc, s), x, y)
    decreases |s|
  {
    if s != [] {
      var i, j :| 0 <= i < j < |acc| && acc[i] == x && acc[j] == y;
      var k, r := LowerPos(cmp, acc, s[0]), Insert(cmp, acc, s[0]);
      assert r[if i < k then i else i + 1] == x && r[if j < k then j else j + 1] == y;
      KeepsOrder(cmp, r, s[1..], x, y);
    }
  }

  lemma NotBothOrders<T>(s: seq<T>, x: T, y: T)
    requires Precedes(s, x, y) && multiset(s)[x] <= 1 && multiset(s)[y] <= 1
    ensures !Precedes(s, y, x)
  {
    var i, j :| 0 <= i < j < |s| && s[i] == x && s[j] == y;
    forall k, l | 0 <= k < l < |s|
      ensures !(s[k] == y && s[l] == x)
    {
      if i < l { TwiceCounts(s, i, l); } else if l < i { TwiceCounts(s, l, i); }
      if j < k { TwiceCounts(s, j, k); } else if k < j { TwiceCounts(s, k, j); }
    }
  }

  lemma TwiceCounts<T>(s: seq<T>, i: nat, j: nat)
    requires i < j < |s|
    ensures s[i] == s[j] ==> multiset(s)[s[i]] >= 2
  {
    assert s == s[..i] + [s[i]] + s[i + 1..j] + [s[j]] + s[j + 1..];
  }

  lemma {:induction false} SeqOf<T>(bag: multiset<T>) returns (s: seq<T>)
    ensures multiset(s) == bag
    decreases |bag|
  {
    s := [];
    if |bag| > 0 {
      var x :| x in bag;
      var r := SeqOf(bag - multiset{x});
      s := [x] + r;
    }
  }
}
