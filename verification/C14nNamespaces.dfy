/** Inclusive canonicalization of namespaces (c14n.c) with every node visible: the stack of
    rendered namespaces with its three indices, the namespace axis, and the tree walk. */
module C14nNamespaces {
  import opened Bytes
  import opened OrderedInsert
  import opened LinkedList
  import opened C14nOrder
  import opened C14nScope

  /** xmlC14NVisibleNsStackSave and Restore work on these three indices. */
  datatype Indices = Indices(nsCurEnd: nat, nsPrevStart: nat, nsPrevEnd: nat)

  /** `xmlns=""` */
  const EMPTY_DEFAULT: NsDef := NsDef([], [])

  /** The last entry of a prefix in tab[start..end]. */
  ghost function Nearest(tab: seq<NsDef>, start: nat, end: nat, prefix: CString): (r: Option<CString>)
    requires start <= end <= |tab|
    decreases end - start
  {
    if start == end then None
    else if tab[end - 1].prefix == prefix then Some(tab[end - 1].href)
    else Nearest(tab, start, end - 1, prefix)
  }

  /** The entries of a segment of the stack are exactly the bindings in scope. */
  ghost predicate Covers(seg: seq<NsDef>, path: Path) {
    && (forall k :: 0 <= k < |seg| ==> InScope(path, seg[k].prefix) && Bound(path, seg[k].prefix) == seg[k].href)
    && (forall p: CString :: InScope(path, p) ==> NsDef(p, Bound(path, p)) in seg)
  }

  /** The state of the stack when a child of the elements `up` is about to be processed: the
      indices delimit the parent's bindings, and below them there is no default namespace
      unless the parent has one. */
  ghost predicate StackFor(tab: seq<NsDef>, ix: Indices, up: Path) {
    && ix.nsPrevStart <= ix.nsPrevEnd == ix.nsCurEnd <= |tab|
    && Covers(tab[ix.nsPrevStart..ix.nsCurEnd], up)
    && (!InScope(up, []) ==> forall k :: 0 <= k < ix.nsCurEnd ==> tab[k].prefix != [])
  }

  class VisibleNsStack {
    var nsCurEnd: nat
    var nsPrevStart: nat
    var nsPrevEnd: nat
    var nsTab: seq<NsDef>

    constructor ()
      ensures Ix() == Indices(0, 0, 0) && nsTab == []
    {
      nsCurEnd, nsPrevStart, nsPrevEnd, nsTab := 0, 0, 0, [];
    }

    function Ix(): Indices
      reads this
    {
      Indices(nsCurEnd, nsPrevStart, nsPrevEnd)
    }

    /** xmlC14NVisibleNsStackAdd: entries behind nsCurEnd are left over from earlier elements. */
    method Add(ns: NsDef)
      requires nsCurEnd <= |nsTab|
      modifies this
      ensures nsCurEnd == old(nsCurEnd) + 1 <= |nsTab| && nsPrevStart == old(nsPrevStart) && nsPrevEnd == old(nsPrevEnd)
      ensures nsTab[..nsCurEnd] == old(nsTab[..nsCurEnd]) + [ns]
    {
      if |nsTab| <= nsCurEnd {
        nsTab := nsTab + [ns];
      } else {
        nsTab := nsTab[nsCurEnd := ns];
      }
      nsCurEnd := nsCurEnd + 1;
    }

    /** xmlC14NVisibleNsStackSave */
    method Save() returns (state: Indices)
      ensures state == Ix()
    {
      state := Indices(nsCurEnd, nsPrevStart, nsPrevEnd);
    }

    /** xmlC14NVisibleNsStackRestore */
    method Restore(state: Indices)
      modifies this`nsCurEnd, this`nsPrevStart, this`nsPrevEnd
      ensures Ix() == state
    {
      nsCurEnd, nsPrevStart, nsPrevEnd := state.nsCurEnd, state.nsPrevStart, state.nsPrevEnd;
    }

    /** xmlC14NVisibleNsStackShift */
    method Shift()
      modifies this`nsPrevStart, this`nsPrevEnd
      ensures Ix() == Indices(old(nsCurEnd), old(nsPrevEnd), old(nsCurEnd))
    {
      nsPrevStart := nsPrevEnd;
      nsPrevEnd := nsCurEnd;
    }

    /** xmlC14NVisibleNsStackFind */
    method Find(ns: NsDef) returns (r: bool)
      requires nsPrevStart <= nsCurEnd <= |nsTab|
      ensures var empty := ns.prefix == [] && ns.href == [];
              r == match Nearest(nsTab, if empty then 0 else nsPrevStart, nsCurEnd, ns.prefix)
                   case Some(h) => h == ns.href
                   case None => empty
    {
      var hasEmptyNs := ns.prefix == [] && ns.href == [];
      var start := if hasEmptyNs then 0 else nsPrevStart;
      var i := nsCurEnd;
      while i > start
        invariant start <= i <= nsCurEnd &&
                  Nearest(nsTab, start, nsCurEnd, ns.prefix) == Nearest(nsTab, start, i, ns.prefix)
      {
        i := i - 1;
        if nsTab[i].prefix == ns.prefix {
          return nsTab[i].href == ns.href;
        }
      }
      r := hasEmptyNs;
    }
  }

  lemma {:induction false} NearestIs(tab: seq<NsDef>, start: nat, end: nat, prefix: CString)
    requires start <= end <= |tab|
    ensures Nearest(tab, start, end, prefix).None? <==> forall k :: start <= k < end ==> tab[k].prefix != prefix
    ensures Nearest(tab, start, end, prefix).Some? ==>
              exists k :: start <= k < end && tab[k].prefix == prefix &&
                tab[k].href == Nearest(tab, start, end, prefix).value &&
                          forall j :: k < j < end ==> tab[j].prefix != prefix
    decreases end - start
  {
    if start < end && tab[end - 1].prefix != prefix {
      NearestIs(tab, start, end - 1, prefix);
    }
  }

  /** While an element is processed, the nearest entry of a prefix that the element has not
      added yet is the parent's binding. */
  lemma NearestIsParents(tab: seq<NsDef>, ix: Indices, end: nat, up: Path, prefix: CString, start: nat)
    requires StackFor(tab, ix, up) && ix.nsCurEnd <= end <= |tab|
    requires forall k :: ix.nsCurEnd <= k < end ==> tab[k].prefix != prefix
    requires start == ix.nsPrevStart || (start == 0 && prefix == [])
    ensures Nearest(tab, start, end, prefix) == if InScope(up, prefix) then Some(Bound(up, prefix)) else None
  {
    hide Nearest, SearchNs, Bound;
    NearestIs(tab, start, end, prefix);
    var r := Nearest(tab, start, end, prefix);
    if InScope(up, prefix) {
      InSegment(tab, ix, up, prefix);
    }
    if r.Some? {
      var k :| start <= k < end && tab[k].prefix == prefix && tab[k].href == r.value &&
               forall j :: k < j < end ==> tab[j].prefix != prefix;
      EntryIsParents(tab, ix, up, k);
    }
  }

  lemma EntryIsParents(tab: seq<NsDef>, ix: Indices, up: Path, k: nat)
    requires StackFor(tab, ix, up) && k < ix.nsCurEnd
    ensures k >= ix.nsPrevStart ==> InScope(up, tab[k].prefix) && Bound(up, tab[k].prefix) == tab[k].href
    ensures tab[k].prefix == [] ==> InScope(up, [])
  {
    hide SearchNs, Bound;
    if k >= ix.nsPrevStart {
      assert tab[ix.nsPrevStart..ix.nsCurEnd][k - ix.nsPrevStart] == tab[k];
    }
  }

  /** So finding a declaration is comparing it with the parent's scope. */
  lemma FindMeans(tab: seq<NsDef>, ix: Indices, end: nat, up: Path, ns: NsDef)
    requires StackFor(tab, ix, up) && ix.nsCurEnd <= end <= |tab|
    requires forall k :: ix.nsCurEnd <= k < end ==> tab[k].prefix != ns.prefix
    ensures var empty := ns.prefix == [] && ns.href == [];
            (match Nearest(tab, if empty then 0 else ix.nsPrevStart, end, ns.prefix)
             case Some(h) => h == ns.href
             case None => empty) <==> Denotes(up, ns.prefix) == Meaning(ns)
  {
    hide Nearest, SearchNs, Bound, StackFor;
    var empty := ns.prefix == [] && ns.href == [];
    NearestIsParents(tab, ix, end, up, ns.prefix, if empty then 0 else ix.nsPrevStart);
  }

  lemma InSegment(tab: seq<NsDef>, ix: Indices, up: Path, prefix: CString)
    requires StackFor(tab, ix, up) && InScope(up, prefix)
    ensures exists k :: ix.nsPrevStart <= k < ix.nsCurEnd && tab[k].prefix == prefix
  {
    hide SearchNs, Bound;
    var seg, d := tab[ix.nsPrevStart..ix.nsCurEnd], NsDef(prefix, Bound(up, prefix));
    assert d in seg;
    var k :| 0 <= k < |seg| && seg[k] == d;
    assert tab[ix.nsPrevStart + k] == d;
  }

  lemma StackKept(tab: seq<NsDef>, tab': seq<NsDef>, ix: Indices, up: Path)
    requires StackFor(tab, ix, up) && ix.nsCurEnd <= |tab'| && tab'[..ix.nsCurEnd] == tab[..ix.nsCurEnd]
    ensures StackFor(tab', ix, up)
  {
    assert forall k :: 0 <= k < ix.nsCurEnd ==> tab'[k] == tab'[..ix.nsCurEnd][k] == tab[k];
    assert tab'[ix.nsPrevStart..ix.nsCurEnd] == tab[ix.nsPrevStart..ix.nsCurEnd];
  }

  // --- The namespace axis ---------------------------------------------------------------------

  /** A declaration that the axis loop, now at `level` and `i`, has passed. */
  predicate Before(p: Position, level: nat, i: nat) {
    p.level < level || (p.level == level && p.index < i)
  }

  /** The loop has added exactly the bindings in scope whose declarations it has passed. */
  ghost predicate Added(added: seq<NsDef>, path: Path, level: nat, i: nat) {
    && (forall k :: 0 <= k < |added| ==>
          InScope(path, added[k].prefix) && Bound(path, added[k].prefix) == added[k].href &&
          Before(SearchNs(path, added[k].prefix).value, level, i))
    && (forall p: CString :: InScope(path, p) && Before(SearchNs(path, p).value, level, i) ==>
          NsDef(p, Bound(path, p)) in added)
  }

  /** And listed, sorted, those that say something new. */
  ghost predicate Listed(list: seq<NsDef>, added: seq<NsDef>, path: Path)
    requires path != []
  {
    && StrictlySorted(NsCompare, list)
    && forall d :: d in list <==> d in added && Denotes(path[1..], d.prefix) != Meaning(d)
  }

  lemma InsertNs(list: seq<NsDef>, ns: NsDef)
    requires StrictlySorted(NsCompare, list) && forall d :: d in list ==> d.prefix != ns.prefix
    ensures StrictlySorted(NsCompare, Insert(NsCompare, list, ns))
    ensures forall d :: d in Insert(NsCompare, list, ns) <==> d in list || d == ns
  {
    var bag := multiset(list) + multiset{ns};
    assert StrictOrderOn(NsCompare, bag) by {
      SortedOnce(list);
      NsStrict(bag);
    }
    InsertStrictly(NsCompare, bag, list, ns);
    InsertBag(NsCompare, list, ns);
    forall d
      ensures d in Insert(NsCompare, list, ns) <==> d in list || d == ns
    {
      assert d in Insert(NsCompare, list, ns) <==> d in multiset(Insert(NsCompare, list, ns));
      assert d in list <==> d in multiset(list);
    }
  }

  /** In a strictly sorted list nothing occurs twice, not even a prefix. */
  lemma SortedOnce(list: seq<NsDef>)
    requires StrictlySorted(NsCompare, list)
    ensures forall d :: multiset(list)[d] <= 1
    ensures forall d, e :: d in list && e in list && d.prefix == e.prefix ==> d == e
  {
    forall d, e | d in list && e in list && d.prefix == e.prefix
      ensures d == e
    {
      var i :| 0 <= i < |list| && list[i] == d;
      var j :| 0 <= j < |list| && list[j] == e;
      if i < j { PrefixesDiffer(list, i, j); } else if j < i { PrefixesDiffer(list, j, i); }
    }
    AtMostOnce(list);
  }

  lemma PrefixesDiffer(list: seq<NsDef>, i: nat, j: nat)
    requires StrictlySorted(NsCompare, list) && i < j < |list|
    ensures list[i].prefix != list[j].prefix
  {
    assert Less(NsCompare, list[i], list[j]);
    StrCmpEqual(list[i].prefix, list[j].prefix);
  }

  lemma {:induction false} AtMostOnce(list: seq<NsDef>)
    requires StrictlySorted(NsCompare, list)
    ensures forall d :: multiset(list)[d] <= 1
  {
    if list != [] {
      AtMostOnce(list[1..]);
      assert list == [list[0]] + list[1..];
      assert list[0] !in list[1..];
    }
  }

  /** One declaration passed that is not the nearest of its prefix, or one that is. */
  lemma PassDef(added: seq<NsDef>, path: Path, level: nat, i: nat)
    requires level < |path| && i < |path[level].nsDef| && Added(added, path, level, i)
    ensures var ns := path[level].nsDef[i];
            if SearchNs(path, ns.prefix) == Some(Position(level, i))
            then
              && Added(added + [ns], path, level, i + 1)
              && forall k :: 0 <= k < |added| ==> added[k].prefix != ns.prefix
            else Added(added, path, level, i + 1)
  {
    var ns, here := path[level].nsDef[i], Position(level, i);
    forall p: CString | InScope(path, p) && Before(SearchNs(path, p).value, level, i + 1) &&
      !Before(SearchNs(path, p).value, level, i)
      ensures p == ns.prefix && SearchNs(path, p) == Some(here)
    {
    }
    if SearchNs(path, ns.prefix) == Some(here) {
      var added' := added + [ns];
      forall k | 0 <= k < |added'|
        ensures InScope(path, added'[k].prefix) && Bound(path, added'[k].prefix) == added'[k].href &&
                Before(SearchNs(path, added'[k].prefix).value, level, i + 1)
      {
      }
    }
  }

  lemma PassLevel(added: seq<NsDef>, path: Path, level: nat)
    requires level < |path| && Added(added, path, level, |path[level].nsDef|)
    ensures Added(added, path, level + 1, 0)
  {
  }

  lemma AllAdded(added: seq<NsDef>, path: Path)
    requires Added(added, path, |path|, 0)
    ensures Covers(added, path)
  {
  }

  /** One declaration of the axis (c14n.c:603-619). */
  method VisitDef(stack: VisibleNsStack, list: XmlList<NsDef>, path: Path, level: nat, i: nat, ghost ix: Indices)
    returns (isEmpty: bool)
    requires level < |path| && i < |path[level].nsDef|
    requires list.Valid() && list.linkCompare == NsCompare && stack !in list.Links()
    requires ix.nsPrevStart <= ix.nsCurEnd <= stack.nsCurEnd <= |stack.nsTab| && stack.nsPrevStart == ix.nsPrevStart
    requires StackFor(stack.nsTab, ix, path[1..])
    requires Added(stack.nsTab[ix.nsCurEnd..stack.nsCurEnd], path, level, i)
    requires Listed(list.Contents(), stack.nsTab[ix.nsCurEnd..stack.nsCurEnd], path)
    modifies stack, list, list.Links()
    ensures list.Valid() && fresh(list.Links() - old(list.Links()))
    ensures ix.nsCurEnd <= stack.nsCurEnd <= |stack.nsTab|
    ensures stack.nsPrevStart == old(stack.nsPrevStart) && stack.nsPrevEnd == old(stack.nsPrevEnd)
    ensures StackFor(stack.nsTab, ix, path[1..])
    ensures stack.nsTab[..ix.nsCurEnd] == old(stack.nsTab[..ix.nsCurEnd])
    ensures Added(stack.nsTab[ix.nsCurEnd..stack.nsCurEnd], path, level, i + 1)
    ensures Listed(list.Contents(), stack.nsTab[ix.nsCurEnd..stack.nsCurEnd], path)
    ensures HasDefault(stack.nsTab[ix.nsCurEnd..stack.nsCurEnd]) <==>
              HasDefault(old(stack.nsTab[ix.nsCurEnd..stack.nsCurEnd])) || isEmpty
  {
    hide Added, StackFor, Listed, SearchNs, StrictlySorted, Denotes, Meaning, HasDefault;
    isEmpty := false;
    var ns := path[level].nsDef[i];
    ghost var tab, base, end := stack.nsTab, ix.nsCurEnd, stack.nsCurEnd;
    ghost var added := tab[base..end];
    PassDef(added, path, level, i);
    if SearchNs(path, ns.prefix) == Some(Position(level, i)) {
      assert forall k :: base <= k < end ==> tab[k] == added[k - base];
      FindMeans(tab, ix, end, path[1..], ns);
      var alreadyRendered := stack.Find(ns);
      stack.Add(ns);
      Extended(tab, stack.nsTab, base, end, ns);
      StackKept(tab, stack.nsTab, ix, path[1..]);
      ListGrows(list.Contents(), added, path, ns);
      if !alreadyRendered {
        list.InsertData(ns);
      }
      DefaultAdded(added, ns);
      isEmpty := |ns.prefix| == 0;
    }
  }

  lemma Extended(tab: seq<NsDef>, tab': seq<NsDef>, base: nat, end: nat, ns: NsDef)
    requires base <= end <= |tab| && end + 1 <= |tab'| && tab'[..end + 1] == tab[..end] + [ns]
    ensures tab'[base..end + 1] == tab[base..end] + [ns] && tab'[..base] == tab[..base]
  {
    assert tab'[base..end + 1] == tab'[..end + 1][base..];
    assert tab'[..base] == tab'[..end + 1][..base];
  }

  lemma ListGrows(list: seq<NsDef>, added: seq<NsDef>, path: Path, ns: NsDef)
    requires path != [] && Listed(list, added, path) && forall k :: 0 <= k < |added| ==> added[k].prefix != ns.prefix
    ensures if Denotes(path[1..], ns.prefix) == Meaning(ns) then Listed(list, added + [ns], path)
            else Listed(Insert(NsCompare, list, ns), added + [ns], path)
  {
    hide Denotes, StrictlySorted;
    InsertNs(list, ns);
  }

  /** The element has a declaration without a prefix in scope. */
  ghost predicate HasDefault(added: seq<NsDef>) {
    exists k :: 0 <= k < |added| && added[k].prefix == []
  }

  lemma DefaultAdded(added: seq<NsDef>, ns: NsDef)
    ensures HasDefault(added + [ns]) <==> HasDefault(added) || ns.prefix == []
  {
    assert (added + [ns])[|added|] == ns;
    if HasDefault(added) {
      var k :| 0 <= k < |added| && added[k].prefix == [];
      assert (added + [ns])[k].prefix == [];
    }
  }

  /** xmlC14NProcessNamespacesAxis: the declarations written for an element are exactly those in
      force that say something new. */
  method ProcessNamespacesAxis(stack: VisibleNsStack, path: Path) returns (decls: seq<NsDef>)
    requires path != [] && StackFor(stack.nsTab, stack.Ix(), path[1..])
    modifies stack
    ensures old(stack.nsCurEnd) <= stack.nsCurEnd <= |stack.nsTab|
    ensures stack.nsPrevStart == old(stack.nsPrevStart) && stack.nsPrevEnd == old(stack.nsPrevEnd)
    ensures stack.nsTab[..old(stack.nsCurEnd)] == old(stack.nsTab[..stack.nsCurEnd])
    ensures Covers(stack.nsTab[old(stack.nsCurEnd)..stack.nsCurEnd], path)
    ensures DeclsOk(decls, path)
  {
    ghost var ix, base := stack.Ix(), stack.nsCurEnd;
    var list := new XmlList<NsDef>(NsCompare, NsDef([], []));
    NothingYet(path);
    assert ix.nsPrevStart <= ix.nsCurEnd && stack.nsTab[base..base] == [];
    var level, hasEmptyNs := 0, false;
    hide Added, StackFor, Listed, SearchNs, StrictlySorted, Denotes, Meaning, Covers, DeclsOk, HasDefault, Nearest;
    while level < |path|
      invariant 0 <= level <= |path|
      invariant AxisState(stack, list, path, ix, level, 0, hasEmptyNs)
      invariant stack.nsPrevEnd == ix.nsPrevEnd && stack.nsTab[..base] == old(stack.nsTab[..stack.nsCurEnd])
      invariant fresh(list) && fresh(list.Links())
    {
      hasEmptyNs := ScanLevel(stack, list, path, level, ix, hasEmptyNs);
      level := level + 1;
    }
    decls := PrintList(stack, list, path, ix, hasEmptyNs);
  }

  /** The declarations of one ancestor, or of the element itself (c14n.c:602-620). */
  method ScanLevel(stack: VisibleNsStack, list: XmlList<NsDef>, path: Path, level: nat, ghost ix: Indices, seen: bool)
    returns (hasEmptyNs: bool)
    requires level < |path| && stack !in list.Links() && AxisState(stack, list, path, ix, level, 0, seen)
    modifies stack, list, list.Links()
    ensures AxisState(stack, list, path, ix, level + 1, 0, hasEmptyNs) && fresh(list.Links() - old(list.Links()))
    ensures stack.nsPrevEnd == old(stack.nsPrevEnd) && stack.nsTab[..ix.nsCurEnd] == old(stack.nsTab[..ix.nsCurEnd])
  {
    hide AxisState, SearchNs, Covers;
    AxisBounds(stack, list, path, ix, level, 0, seen);
    ghost var tab := stack.nsTab;
    hasEmptyNs := seen;
    var i := 0;
    while i < |path[level].nsDef|
      invariant 0 <= i <= |path[level].nsDef|
      invariant AxisState(stack, list, path, ix, level, i, hasEmptyNs) && stack.nsPrevEnd == old(stack.nsPrevEnd)
      invariant ix.nsCurEnd <= |stack.nsTab| && stack.nsTab[..ix.nsCurEnd] == tab[..ix.nsCurEnd]
      invariant stack !in list.Links() && fresh(list.Links() - old(list.Links()))
    {
      hasEmptyNs := VisitNext(stack, list, path, level, i, ix, hasEmptyNs);
      i := i + 1;
    }
    LevelPassed(stack, list, path, ix, level, hasEmptyNs);
  }

  method VisitNext(stack: VisibleNsStack, list: XmlList<NsDef>, path: Path, level: nat, i: nat, ghost ix: Indices,
                   seen: bool)
    returns (hasEmptyNs: bool)
    requires level < |path| && i < |path[level].nsDef| && stack !in list.Links()
    requires AxisState(stack, list, path, ix, level, i, seen)
    modifies stack, list, list.Links()
    ensures AxisState(stack, list, path, ix, level, i + 1, hasEmptyNs) && ix.nsCurEnd <= |stack.nsTab|
    ensures stack !in list.Links() && fresh(list.Links() - old(list.Links()))
    ensures stack.nsPrevEnd == old(stack.nsPrevEnd) && stack.nsTab[..ix.nsCurEnd] == old(stack.nsTab[..ix.nsCurEnd])
  {
    hide Added, StackFor, Listed, SearchNs, HasDefault;
    var isEmpty := VisitDef(stack, list, path, level, i, ix);
    hasEmptyNs := seen || isEmpty;
  }

  lemma AxisBounds(stack: VisibleNsStack, list: XmlList<NsDef>, path: Path, ix: Indices, level: nat, i: nat,
                   hasEmptyNs: bool)
    requires AxisState(stack, list, path, ix, level, i, hasEmptyNs)
    ensures ix.nsCurEnd <= |stack.nsTab|
  {
  }

  lemma LevelPassed(stack: VisibleNsStack, list: XmlList<NsDef>, path: Path, ix: Indices, level: nat, hasEmptyNs: bool)
    requires level < |path| && AxisState(stack, list, path, ix, level, |path[level].nsDef|, hasEmptyNs)
    ensures AxisState(stack, list, path, ix, level + 1, 0, hasEmptyNs)
  {
    hide Added, StackFor, Listed, SearchNs, HasDefault;
    PassLevel(stack.nsTab[ix.nsCurEnd..stack.nsCurEnd], path, level);
  }

  /** The end of the axis: the extra `xmlns=""`, then the list (c14n.c:632-645). */
  method PrintList(stack: VisibleNsStack, list: XmlList<NsDef>, path: Path, ghost ix: Indices, hasEmptyNs: bool)
    returns (decls: seq<NsDef>)
    requires path != [] && AxisState(stack, list, path, ix, |path|, 0, hasEmptyNs)
    ensures Covers(stack.nsTab[ix.nsCurEnd..stack.nsCurEnd], path)
    ensures DeclsOk(decls, path)
  {
    hide Added, StackFor, Listed, SearchNs, Covers, DeclsOk, HasDefault, Nearest;
    ghost var added := stack.nsTab[ix.nsCurEnd..stack.nsCurEnd];
    AllAdded(added, path);
    decls := [];
    if !hasEmptyNs {
      NoDefaultInScope(stack.nsTab, ix, stack.nsCurEnd, path);
      var found := stack.Find(EMPTY_DEFAULT);
      if !found {
        decls := [EMPTY_DEFAULT];
      }
    }
    var rest := list.Walk();
    decls := decls + rest;
    assert decls == rest;
    ListIsDecls(rest, added, path);
  }

  /** What the loops of the axis keep. */
  ghost predicate AxisState(stack: VisibleNsStack, list: XmlList<NsDef>, path: Path, ix: Indices, level: nat, i: nat,
                            hasEmptyNs: bool)
    reads stack, list, list.Links()
  {
    && path != [] && list.Valid() && list.linkCompare == NsCompare
    && ix.nsPrevStart <= ix.nsCurEnd <= stack.nsCurEnd <= |stack.nsTab| && stack.nsPrevStart == ix.nsPrevStart
    && StackFor(stack.nsTab, ix, path[1..])
    && Added(stack.nsTab[ix.nsCurEnd..stack.nsCurEnd], path, level, i)
    && Listed(list.Contents(), stack.nsTab[ix.nsCurEnd..stack.nsCurEnd], path)
    && (hasEmptyNs <==> HasDefault(stack.nsTab[ix.nsCurEnd..stack.nsCurEnd]))
  }

  lemma NothingYet(path: Path)
    requires path != []
    ensures Added([], path, 0, 0) && Listed([], [], path) && !HasDefault([])
  {
  }

  /** With every node visible, the extra `xmlns=""` is never written: without a default
      namespace in scope no ancestor has one either. */
  lemma NoDefaultInScope(tab: seq<NsDef>, ix: Indices, end: nat, path: Path)
    requires path != [] && StackFor(tab, ix, path[1..]) && ix.nsCurEnd <= end <= |tab|
    requires Covers(tab[ix.nsCurEnd..end], path) && !HasDefault(tab[ix.nsCurEnd..end])
    ensures !InScope(path, []) && Nearest(tab, 0, end, []).None?
    ensures forall k :: 0 <= k < end ==> tab[k].prefix != []
  {
    var added := tab[ix.nsCurEnd..end];
    assert InScope(path, []) ==> NsDef([], Bound(path, [])) in added;
    if InScope(path[1..], []) {
      ScopeInherits(path, []);
    }
    forall k | 0 <= k < end
      ensures tab[k].prefix != []
    {
      if k >= ix.nsCurEnd {
        assert added[k - ix.nsCurEnd] == tab[k];
      }
    }
    NearestIs(tab, 0, end, []);
  }

  lemma ListIsDecls(list: seq<NsDef>, added: seq<NsDef>, path: Path)
    requires path != [] && Covers(added, path) && Listed(list, added, path)
    ensures DeclsOk(list, path)
  {
    hide SearchNs, StrictlySorted, Meaning;
    forall d
      ensures d in added <==> InScope(path, d.prefix) && Bound(path, d.prefix) == d.href
    {
      if d in added {
        var k :| 0 <= k < |added| && added[k] == d;
      }
    }
  }

  /** After the axis and the shift, the indices delimit this element's own bindings. */
  lemma ShiftedStack(tab: seq<NsDef>, tab': seq<NsDef>, ix: Indices, end: nat, path: Path)
    requires path != [] && StackFor(tab, ix, path[1..]) && ix.nsCurEnd <= end <= |tab'|
    requires tab'[..ix.nsCurEnd] == tab[..ix.nsCurEnd] && Covers(tab'[ix.nsCurEnd..end], path)
    ensures StackFor(tab', Indices(end, ix.nsPrevEnd, end), path)
  {
    if !InScope(path, []) {
      var added := tab'[ix.nsCurEnd..end];
      assert !HasDefault(added);
      StackKept(tab, tab', ix, path[1..]);
      NoDefaultInScope(tab', ix, end, path);
    }
  }

  // --- The tree walk --------------------------------------------------------------------------

  /** xmlC14NProcessElementNode with every node visible: exactly the new declarations are
      written at every element of the tree, and the stack is as before. */
  method ProcessElementNode(stack: VisibleNsStack, elem: Element, up: Path) returns (out: Rendered)
    requires StackFor(stack.nsTab, stack.Ix(), up)
    modifies stack
    ensures stack.Ix() == old(stack.Ix()) && stack.nsCurEnd <= |stack.nsTab|
    ensures stack.nsTab[..stack.nsCurEnd] == old(stack.nsTab[..stack.nsCurEnd])
    ensures Minimal(out, elem, up)
    decreases elem
  {
    var state := stack.Save();
    var path := [elem] + up;
    assert path[1..] == up;
    ghost var tab := stack.nsTab;
    assert state.nsCurEnd <= |tab|;
    hide StackFor, Covers, DeclsOk;
    var decls := ProcessNamespacesAxis(stack, path);
    ShiftedStack(tab, stack.nsTab, state, stack.nsCurEnd, path);
    stack.Shift();
    ghost var tab1, ix1 := stack.nsTab, stack.Ix();
    assert tab1[..state.nsCurEnd] == tab[..state.nsCurEnd];
    var children: seq<Rendered> := [];
    for i := 0 to |elem.children|
      invariant stack.Ix() == ix1 && state.nsCurEnd <= ix1.nsCurEnd <= |stack.nsTab| && ix1.nsCurEnd <= |tab1|
      invariant stack.nsTab[..ix1.nsCurEnd] == tab1[..ix1.nsCurEnd]
      invariant |children| == i && forall k :: 0 <= k < i ==> Minimal(children[k], elem.children[k], path)
    {
      StackKept(tab1, stack.nsTab, ix1, path);
      var child := ProcessElementNode(stack, elem.children[i], path);
      children := children + [child];
    }
    assert stack.nsTab[..state.nsCurEnd] == stack.nsTab[..ix1.nsCurEnd][..state.nsCurEnd] ==
           tab1[..ix1.nsCurEnd][..state.nsCurEnd];
    stack.Restore(state);
    out := Rendered(decls, children);
  }

  /** A whole document, from the empty stack: reading the emitted declarations top-down gives
      every element its original namespaces, and none of them repeats what the parent says. */
  method Canonicalize(root: Element) returns (out: Rendered)
    ensures KeepsMeaning(out, map[], root)
    ensures Preserves(out, map[], root, []) && Minimal(out, root, [])
  {
    var stack := new VisibleNsStack();
    out := ProcessElementNode(stack, root, []);
    MinimalPreserves(out, map[], root, []);
    PreservesKeepsMeaning(out, map[], root, []);
  }

  // --- Independence of the order of declarations ------------------------------------------------

  /** Two documents that differ only in the order of namespace declarations whose prefixes are
      distinct. */
  ghost predicate SameUpToOrder(a: Element, b: Element)
    decreases a
  {
    && a.name == b.name
    && multiset(a.nsDef) == multiset(b.nsDef)
    && (forall i, j :: 0 <= i < j < |a.nsDef| ==> a.nsDef[i].prefix != a.nsDef[j].prefix)
    && |a.children| == |b.children|
    && forall i :: 0 <= i < |a.children| ==> SameUpToOrder(a.children[i], b.children[i])
  }

  ghost predicate SameScope(p: Path, q: Path) {
    forall prefix: CString :: InScope(p, prefix) == InScope(q, prefix) &&
      (InScope(p, prefix) ==> Bound(p, prefix) == Bound(q, prefix))
  }

  lemma FoundIn(a: seq<NsDef>, b: seq<NsDef>, prefix: CString)
    requires multiset(a) == multiset(b) && IndexOf(a, prefix).Some?
    ensures IndexOf(b, prefix).Some? && exists k :: 0 <= k < |b| && b[k] == a[IndexOf(a, prefix).value]
  {
    hide IndexOf;
    var d := a[IndexOf(a, prefix).value];
    assert d in multiset(b);
    assert d in b;
  }

  lemma IndexOfPermuted(a: seq<NsDef>, b: seq<NsDef>, prefix: CString)
    requires multiset(a) == multiset(b)
    requires forall i, j :: 0 <= i < j < |a| ==> a[i].prefix != a[j].prefix
    ensures IndexOf(a, prefix).Some? <==> IndexOf(b, prefix).Some?
    ensures IndexOf(a, prefix).Some? ==> a[IndexOf(a, prefix).value] == b[IndexOf(b, prefix).value]
  {
    hide IndexOf;
    var i, j := IndexOf(a, prefix), IndexOf(b, prefix);
    if i.Some? {
      FoundIn(a, b, prefix);
    }
    if j.Some? {
      FoundIn(b, a, prefix);
    }
  }

  lemma SameScopeBelow(a: Element, b: Element, up: Path, up': Path)
    requires SameUpToOrder(a, b) && SameScope(up, up')
    ensures SameScope([a] + up, [b] + up')
  {
    var p, q := [a] + up, [b] + up';
    assert p[1..] == up && q[1..] == up';
    forall prefix: CString
      ensures InScope(p, prefix) == InScope(q, prefix)
      ensures InScope(p, prefix) ==> Bound(p, prefix) == Bound(q, prefix)
    {
      IndexOfPermuted(a.nsDef, b.nsDef, prefix);
      assert InScope(up, prefix) == InScope(up', prefix);
    }
  }

  /** The declarations written at an element are determined by the scopes alone. */
  lemma DeclsDetermined(ds: seq<NsDef>, es: seq<NsDef>, p: Path, q: Path)
    requires p != [] && q != [] && SameScope(p, q) && SameScope(p[1..], q[1..])
    requires DeclsOk(ds, p) && DeclsOk(es, q)
    ensures ds == es
  {
    forall d
      ensures d in ds <==> d in es
    {
      assert InScope(p, d.prefix) == InScope(q, d.prefix);
      assert InScope(p[1..], d.prefix) == InScope(q[1..], d.prefix);
      assert IsNew(d, p) == IsNew(d, q);
    }
    SameDecls(ds, es);
  }

  lemma SameDecls(ds: seq<NsDef>, es: seq<NsDef>)
    requires StrictlySorted(NsCompare, ds) && StrictlySorted(NsCompare, es)
    requires forall d :: d in ds <==> d in es
    ensures ds == es
  {
    SortedOnce(ds);
    SortedOnce(es);
    forall d
      ensures multiset(ds)[d] == multiset(es)[d]
    {
      assert d in ds <==> d in multiset(ds);
      assert d in es <==> d in multiset(es);
    }
    assert multiset(ds) == multiset(es);
    NsStrict(multiset(ds));
    SortedUnique(NsCompare, multiset(ds), ds, es);
  }

  /** Canonical output does not depend on the order of namespace declarations. */
  lemma {:induction false} OutputIgnoresNsOrder(a: Element, b: Element, up: Path, up': Path, out: Rendered,
                                                out': Rendered)
    requires SameUpToOrder(a, b) && SameScope(up, up')
    requires Minimal(out, a, up) && Minimal(out', b, up')
    ensures out == out'
    decreases a
  {
    var p, q := [a] + up, [b] + up';
    assert p[1..] == up && q[1..] == up';
    SameScopeBelow(a, b, up, up');
    DeclsDetermined(out.decls, out'.decls, p, q);
    forall i | 0 <= i < |a.children|
      ensures out.children[i] == out'.children[i]
    {
      OutputIgnoresNsOrder(a.children[i], b.children[i], p, q, out.children[i], out'.children[i]);
    }
    assert out.children == out'.children;
  }
}
