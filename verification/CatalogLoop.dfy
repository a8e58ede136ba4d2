/** A list of catalog entries whose next catalog is itself: one identifier that is not found silences
    the list for good. */
module CatalogLoop {
  import opened Bytes
  import opened CatalogUrn
  import opened CatalogQuery
  import opened CatalogStore
  import opened CatalogRules
  import opened CatalogResolve
  import opened CatalogLimits
  import opened CatalogEndless

  /** A catalog `d` with the list `n`, `x`: a next catalog, which is `d` again, and an exact entry. */
  ghost predicate Loop(C: State, n: Entry, x: Entry, d: Entry) {
    && n.next == x && x.next == null && x.rank < n.rank && d.next == null
    && KindIn(C.kinds, n) == NextCatalog && KindIn(C.kinds, x) == System && KindIn(C.kinds, d) == CatalogList
    && ChildIn(C, n) == d && ChildIn(C, d) == n
  }

  const FULL: nat := MAX_CATAL_DEPTH + 1

  /** The counter of the list is over the limit, and the list was left that often without the counter
      being taken back. */
  ghost function Exhausted(C: State, n: Entry): State
    requires DepthIn(C, n) <= FULL
  {
    if DepthIn(C, n) == FULL then C
    else C.(depth := C.depth[n := FULL], leaked := C.leaked[n := LeaksIn(C, n) + FULL - DepthIn(C, n)])
  }

  lemma ExhaustedDeeper(C: State, n: Entry)
    requires DepthIn(C, n) < FULL
    ensures Leaked(Exhausted(Entered(C, n), n), n) == Exhausted(C, n)
    ensures Fires(Guarded, Exhausted(Entered(C, n), n), n)
  {
    var C1, rest := Entered(C, n), FULL - DepthIn(C, n);
    assert C1.depth[n := FULL] == C.depth[n := FULL];
    assert C.leaked[n := LeaksIn(C, n) + rest - 1][n := LeaksIn(C, n) + rest] == C.leaked[n := LeaksIn(C, n) + rest];
  }

  lemma LoopChains(C: State, n: Entry, x: Entry, d: Entry)
    requires Loop(C, n, x, d)
    ensures Chain(n) == [n, x] && Chain(d) == [d]
    ensures Loop(Entered(C, n), n, x, d)
  {
  }

  /** The way once around. */
  lemma Around(docs: Docs, C: State, n: Entry, x: Entry, d: Entry, q: Query, F: State)
    requires Loop(C, n, x, d) && q.External? && Canonical(q) && q != External(None, None)
    requires Ends(Guarded, docs, C, InList(n, q), Outcome(NotFound, false, F)) && Fires(Guarded, F, n)
    ensures Ends(Guarded, docs, C, InNext(n, Chain(n), q), Outcome(NotFound, true, F))
  {
    hide Canonical, Canon, Fires, Ends, Leads;
    LoopChains(C, n, x, d);
    CanonOfCanonical(q);
    hide Chain, Loop;
    AtHead(docs, C, n, x, d, q);
    Combine(docs, C, InLists([d], q), C, InList(n, q), Some(n), false, InLists([], q), Outcome(NotFound, false, F));
    Combine(docs, C, InNext(n, [n, x], q), C, ListsJob(d, q), Some(n), true, InNext(n, [x], q),
            Outcome(NotFound, false, F));
  }

  lemma AtHead(docs: Docs, C: State, n: Entry, x: Entry, d: Entry, q: Query)
    requires Loop(C, n, x, d) && q.External? && Canon(q) == q && q != External(None, None)
    ensures PlanFor(docs, C, InLists([d], q)) == First(C, InList(n, q), Some(n), false, InLists([], q))
    ensures PlanFor(docs, C, InNext(n, [n, x], q)) == First(C, ListsJob(d, q), Some(n), true, InNext(n, [x], q))
    ensures ListsJob(d, q) == InLists([d], q)
  {
    hide Canon;
    assert [d][1..] == [] && [n, x][1..] == [x];
  }

  /** A query of which the list says nothing goes around until the limit, and every round leaks. */
  lemma {:induction false} LoopLeaks(docs: Docs, C: State, n: Entry, x: Entry, d: Entry, q: Query)
    requires Loop(C, n, x, d) && q.External? && Canonical(q) && q != External(None, None)
    requires Decided(C.kinds, Chain(n), Halves(q)) == Silent && DepthIn(C, n) <= FULL
    ensures Ends(Guarded, docs, C, InList(n, q), Outcome(NotFound, false, Exhausted(C, n)))
    decreases FULL - DepthIn(C, n)
  {
    hide Canonical, Canon, Ends, Leads, Decided, Halves;
    ListCheck(docs, C, n, q);
    if DepthIn(C, n) == FULL {
      hide PlanFor;
      FailCheck(docs, C, InList(n, q), n, true, Inside(n, q));
    } else {
      var C1 := Entered(C, n);
      LoopChains(C, n, x, d);
      ExhaustedDeeper(C, n);
      LoopLeaks(docs, C1, n, x, d, q);
      Around(docs, C1, n, x, d, q, Exhausted(C1, n));
      ListPlanDecides(C1, n, Halves(q), q);
      assert PlanFor(docs, C1, Inside(n, q)) == Instead(C1, InNext(n, Chain(n), q));
      hide PlanFor, Loop, Chain, Exhausted;
      Skip(docs, C1, Inside(n, q), C1, InNext(n, Chain(n), q));
      LeadsTo(docs, C1, Inside(n, q), C1, InNext(n, Chain(n), q), Outcome(NotFound, true, Exhausted(C1, n)));
      PassCheck(docs, C, InList(n, q), n, true, Inside(n, q), Outcome(NotFound, true, Exhausted(C1, n)));
    }
  }

  lemma LoopIsClosed(docs: Docs, C: State, n: Entry, x: Entry, d: Entry)
    requires Loop(C, n, x, d) && ChildIn(C, x) == null
    ensures Closed(docs, C, {n, x, d})
  {
  }

  /** Without the counters, such a query would go around for ever. */
  lemma LoopIsEndless(k: nat, docs: Docs, C: State, n: Entry, x: Entry, d: Entry, q: Query)
    requires Loop(C, n, x, d) && ChildIn(C, x) == null && q.External? && Canonical(q) && q != External(None, None)
    requires Decided(C.kinds, Chain(n), Halves(q)) == Silent && Calm(C, {n, x, d}, MAX_CATAL_DEPTH - ENTRANCES)
    ensures Exec(k, Unguarded, docs, C, ListsJob(d, q)).None?
  {
    hide Canonical, Canon, Ends, Decided, Halves, Exec, Closed, Leads, Loaded;
    LoopChains(C, n, x, d);
    CanonOfCanonical(q);
    AtHead(docs, C, n, x, d, q);
    LoopLeaks(docs, C, n, x, d, q);
    hide Loop, Chain, PlanFor;
    Combine(docs, C, ListsJob(d, q), C, InList(n, q), Some(n), false, InLists([], q),
            Outcome(NotFound, false, Exhausted(C, n)));
    if Exec(k, Unguarded, docs, C, ListsJob(d, q)).Some? {
      LoopIsClosed(docs, C, n, x, d);
      EndingIsNeverStopped(k, docs, C, d, q, {n, x, d});
      CountersDoNotMatter(docs, C, ListsJob(d, q), Outcome(NotFound, false, Exhausted(C, n)), n);
    }
  }

  /** What the list says of a system identifier. */
  lemma LoopSays(C: State, n: Entry, x: Entry, d: Entry, id: seq<byte>)
    requires Loop(C, n, x, d)
    ensures var v := Decided(C.kinds, Chain(n), Halves(External(None, Some(id))));
            v == if x.name == Some(id) then Answer(Dup(x.url)) else Silent
  {
    LoopChains(C, n, x, d);
    hide Chain;
    var K, c := C.kinds, [n, x];
    var h := Halves(External(None, Some(id)));
    assert h == [(BySystem, id)] && h[1..] == [];
    assert c[1..] == [x] && c[1..][1..] == [];
    assert FirstExact(K, c[1..][1..], System, id) == None;
    assert FirstExact(K, c[1..], System, id) == if x.name == Some(id) then Some(x) else None;
    assert LongestRule(K, c, 0, RewriteSystem, id) == LongestRule(K, c, 1, RewriteSystem, id) ==
           LongestRule(K, c, 2, RewriteSystem, id) == None;
    assert !HasDelegate(K, c, BySystem, id);
    assert Decided(K, c, h[1..]) == Silent;
  }

  /** An exact entry answers, and nothing changes. */
  lemma LoopAnswers(docs: Docs, C: State, n: Entry, x: Entry, d: Entry, id: seq<byte>)
    requires Loop(C, n, x, d) && x.name == Some(id) && n in C.depth && DepthIn(C, n) < FULL
    ensures Ends(Guarded, docs, C, InList(n, External(None, Some(id))), Outcome(Dup(x.url), false, C))
  {
    hide Ends, Decided, Halves, Chain;
    var C1, q := Entered(C, n), External(None, Some(id));
    LoopChains(C, n, x, d);
    LoopSays(C, n, x, d, id);
    ListPlanDecides(C1, n, Halves(q), q);
    ListCheck(docs, C, n, q);
    assert PlanFor(docs, C1, Inside(n, q)) == Instead(C1, Return(Dup(x.url)));
    hide PlanFor, Loop;
    Finish(docs, C1, Inside(n, q), Dup(x.url));
    PassCheck(docs, C, InList(n, q), n, true, Inside(n, q), Outcome(Dup(x.url), false, C1));
    assert Left(C1, n) == C;
  }

  lemma PlainName(id: seq<byte>)
    requires !HasPrefix(id, URN_PUBID)
    ensures Canonical(External(None, Some(id)))
  {
  }

  lemma ExhaustedIs(C: State, n: Entry)
    requires DepthIn(C, n) == 0
    ensures DepthIn(Exhausted(C, n), n) == FULL
  {
  }

  method MakeLoop(name: seq<byte>, uri: seq<byte>) returns (w: Catalogs, list: Entry, ghost x: Entry, ghost d: Entry)
    ensures w.Valid() && fresh(w) && fresh(w.Objects()) && list in w.entries && list.depth == 0
    ensures Loop(w.Now(), list, x, d) && x.name == Some(name) && x.url == Some(uri)
  {
    var exact := new Entry(System, Some(name), Some(uri), PreferNone, null);
    list := new Entry(NextCatalog, None, None, PreferNone, exact);
    var catalog := new Entry(CatalogList, None, None, PreferNone, null);
    x, d := exact, catalog;
    list.children, catalog.children := catalog, list;
    ghost var es := [list, exact, catalog];
    InThree(es);
    hide ListsStayIn;
    w := new Catalogs(es, map[]);
    LoopMade(w, list, exact, catalog);
  }

  lemma InThree(es: seq<Entry>)
    requires |es| == 3
    ensures forall e :: e in es ==> e == es[0] || e == es[1] || e == es[2]
  {
  }

  lemma LoopMade(w: Catalogs, n: Entry, x: Entry, d: Entry)
    requires n in w.entries && x in w.entries && d in w.entries
    requires n.next == x && x.next == null && x.rank < n.rank && d.next == null && n.children == d && d.children == n
    requires n.kind == NextCatalog && x.kind == System && d.kind == CatalogList
    ensures Loop(w.Now(), n, x, d)
  {
    hide w.Now, KindIn, ChildIn;
    w.Seen(n);
    w.Seen(x);
    w.Seen(d);
  }

  /** A lookup of the name that the list knows. */
  method LookKnown(w: Catalogs, list: Entry, name: seq<byte>, ghost x: Entry, ghost d: Entry) returns (ret: Found)
    requires w.Valid() && list in w.entries && Loop(w.Now(), list, x, d) && x.name == Some(name)
    requires !HasPrefix(name, URN_PUBID)
    modifies w, w.Objects()
    ensures w.Valid()
    ensures old(list.depth) <= MAX_CATAL_DEPTH ==> ret == Dup(x.url) && w.Now() == old(w.Now())
    ensures old(list.depth) > MAX_CATAL_DEPTH ==> ret == NotFound && w.Now() == old(w.Now())
  {
    ghost var C, q := w.Now(), External(None, Some(name));
    w.Seen(list);
    assert list in C.depth;
    hide w.Valid, w.Now, Loop, Ends, DepthIn, Canonical, Dup, HasPrefix;
    PlainName(name);
    ret := XMLResolve(w, list, None, Some(name));
    if DepthIn(C, list) <= MAX_CATAL_DEPTH {
      LoopAnswers(w.docs, C, list, x, d, name);
      EndsOne(Guarded, w.docs, C, InList(list, q), Outcome(ret, false, w.Now()), Outcome(Dup(x.url), false, C));
    } else {
      ListDecides(w.docs, C, list, q, Outcome(ret, false, w.Now()));
    }
  }

  /** A lookup of a name that the list does not know. */
  method LookUnknown(w: Catalogs, list: Entry, unknown: seq<byte>, ghost x: Entry, ghost d: Entry) returns (ret: Found)
    requires w.Valid() && list in w.entries && Loop(w.Now(), list, x, d) && x.name != Some(unknown)
    requires !HasPrefix(unknown, URN_PUBID)
    modifies w, w.Objects()
    ensures w.Valid() && ret == NotFound
    ensures DepthIn(old(w.Now()), list) <= FULL && w.Now() == Exhausted(old(w.Now()), list)
  {
    ghost var C, q := w.Now(), External(None, Some(unknown));
    w.Seen(list);
    w.DepthBound(list);
    assert DepthIn(C, list) <= FULL;
    hide w.Valid, w.Now, Loop, Ends, DepthIn, Canonical, HasPrefix, Exhausted, Decided, Halves, Chain;
    PlainName(unknown);
    LoopSays(C, list, x, d, unknown);
    LoopLeaks(w.docs, C, list, x, d, q);
    ret := XMLResolve(w, list, None, Some(unknown));
    EndsOne(Guarded, w.docs, C, InList(list, q), Outcome(ret, false, w.Now()),
            Outcome(NotFound, false, Exhausted(C, list)));
  }

  /** The code on such catalogs: a name that the list knows is found; after one lookup of a name that
      it does not know, its counter is over the limit, and the name is no longer found. */
  method SilenceList(name: seq<byte>, uri: seq<byte>, unknown: seq<byte>)
    returns (w: Catalogs, list: Entry, first: Found, missed: Found, second: Found)
    requires name != unknown && !HasPrefix(name, URN_PUBID) && !HasPrefix(unknown, URN_PUBID)
    ensures w.Valid() && list in w.entries && list.depth == 51
    ensures first == Resolved(uri) && missed == NotFound && second == NotFound
  {
    ghost var x, d;
    w, list, x, d := MakeLoop(name, uri);
    w.Seen(list);
    hide w.Valid, w.Now, HasPrefix;
    first := LookKnown(w, list, name, x, d);
    ghost var C := w.Now();
    w.Seen(list);
    missed := LookUnknown(w, list, unknown, x, d);
    ExhaustedIs(C, list);
    w.Seen(list);
    second := LookKnown(w, list, name, x, d);
    w.Seen(list);
  }
}
