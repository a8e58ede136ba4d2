/** A catalog that delegates an identifier to another catalog, which resolves it. */
module CatalogDelegation {
  import opened Bytes
  import opened CatalogQuery
  import opened CatalogStore
  import opened CatalogRules
  import opened CatalogResolve
  import opened CatalogLimits
  import opened CatalogEndless
  import opened CatalogDelegates

  /** A catalog `top` with one entry `del`, which delegates to the catalog `cat` with one entry `x`. */
  ghost predicate Chained(C: State, top: Entry, del: Entry, cat: Entry, x: Entry) {
    && top.next == null && del.next == null && cat.next == null && x.next == null
    && ChildIn(C, top) == del && ChildIn(C, del) == cat && ChildIn(C, cat) == x && ChildIn(C, x) == null
    && Has(C.kinds, top, CatalogList) && Has(C.kinds, cat, CatalogList)
  }

  /** The delegate and the exact entry for system identifiers, or for public ones. */
  ghost predicate ForMode(C: State, del: Entry, x: Entry, mode: Mode) {
    match mode
    case BySystem => Has(C.kinds, del, DelegateSystem) && Has(C.kinds, x, System)
    case ByPublic => Has(C.kinds, del, DelegatePublic) && del.prefer == PreferPublic && Has(C.kinds, x, Public)
    case ByUri => false
  }

  lemma ChainedIsClosed(docs: Docs, C: State, top: Entry, del: Entry, cat: Entry, x: Entry, mode: Mode)
    requires Chained(C, top, del, cat, x) && ForMode(C, del, x, mode)
    ensures Closed(docs, C, {top, del, cat, x})
    ensures Chain(top) == [top] && Chain(del) == [del] && Chain(cat) == [cat] && Chain(x) == [x]
  {
  }

  lemma ChainedIsAcyclic(C: State, top: Entry, del: Entry, cat: Entry, x: Entry, mode: Mode)
    requires Chained(C, top, del, cat, x) && ForMode(C, del, x, mode) && C.files == map[]
    requires DepthIn(C, top) == 0 && DepthIn(C, del) == 0 && DepthIn(C, cat) == 0 && DepthIn(C, x) == 0
    ensures var lv := map[top := 3, del := 2, cat := 1, x := 0];
            Acyclic(map[], C, lv) && Idle(C, lv, lv[top] + 1)
  {
    AllDiffer(C, top, del, cat, x, mode);
    var lv := map[top := 3, del := 2, cat := 1, x := 0];
    forall e | e in lv
      ensures Levelled(map[], C, lv, e)
    {
      assert e == top || e == del || e == cat || e == x;
    }
  }

  lemma AllDiffer(C: State, top: Entry, del: Entry, cat: Entry, x: Entry, mode: Mode)
    requires Chained(C, top, del, cat, x) && ForMode(C, del, x, mode)
    ensures top != del && top != cat && top != x && del != cat && del != x && cat != x
  {
  }

  /** The search of a list of one catalog. */
  lemma OneCatalog(docs: Docs, C: State, top: Entry, child: Entry, q: Query)
    requires Chain(top) == [top] && Has(C.kinds, top, CatalogList) && ChildIn(C, top) == child
    requires Canonical(q) && q.External? && q != External(None, None)
    ensures ListsJob(top, q) == InLists([top], q)
    ensures PlanFor(docs, C, InLists([top], q)) == First(C, InList(child, q), Some(child), false, InLists([], q))
  {
    hide Canon;
    CanonOfCanonical(q);
    assert [top][1..] == [];
  }

  /** The inner catalog finds the identifier. */
  lemma InnerFinds(docs: Docs, C: State, del: Entry, cat: Entry, x: Entry, mode: Mode, id: seq<byte>, uri: seq<byte>)
    requires Chain(cat) == [cat] && Has(C.kinds, cat, CatalogList) && ChildIn(C, cat) == x && ChildIn(C, del) == cat
    requires Chain(x) == [x] && ExactEntry(C.kinds, x, mode, id) && x.url == Some(uri)
    requires Canonical(QueryOf(mode, id)) && mode != ByUri
    ensures Finds(docs, C, del, mode, id, Resolved(uri))
  {
    hide Canonical, Exec, Chain, ExactEntry, Entered, Leaving;
    var q, C1 := QueryOf(mode, id), Entered(C, x);
    OneCatalog(docs, C, cat, x, q);
    ExactPlan(docs, C1, x, mode, id, uri) by { KindsKept(C, x); }
    assert PlanFor(docs, C, InList(x, q)) == Checked(x, true, Inside(x, q));
    hide PlanFor;
    Returned(0, docs, C1, Resolved(uri));
    StepInstead(1, docs, C1, Inside(x, q), Return(Resolved(uri)));
    StepChecked(2, docs, C, InList(x, q), x, true, Inside(x, q));
    LeavingRet(x, Outcome(Resolved(uri), false, C1));
    StepFirst(3, docs, C, InLists([cat], q), InList(x, q), Some(x), false, InLists([], q));
    assert FindsWithin(3, docs, C, cat, mode, id, Resolved(uri));
  }

  lemma KindsKept(C: State, e: Entry)
    ensures Entered(C, e).kinds == C.kinds
  {
  }

  lemma LeavingRet(e: Entry, o: Outcome)
    ensures Leaving(e, true, o).ret == o.ret
  {
  }

  lemma ExactPlan(docs: Docs, C: State, x: Entry, mode: Mode, id: seq<byte>, uri: seq<byte>)
    requires Chain(x) == [x] && ExactEntry(C.kinds, x, mode, id) && x.url == Some(uri)
    ensures PlanFor(docs, C, Inside(x, QueryOf(mode, id))) == Instead(C, Return(Resolved(uri)))
  {
    hide SaysBy, Chain, ExactEntry;
    assert FirstExactAt(C.kinds, [x], mode, id, 0);
    ExactSays(C.kinds, [x], mode, id, 0);
    IdPlan(docs, C, x, mode, id);
  }

  /** The delegate decides. */
  lemma OuterDelegates(docs: Docs, C: State, del: Entry, cat: Entry, x: Entry, mode: Mode, id: seq<byte>,
                       uri: seq<byte>)
    requires Begins(del.name, id) && ForMode(C, del, x, mode) && Finds(docs, C, del, mode, id, Resolved(uri))
    ensures DelegatesIt(C.kinds, [del], mode, id) && DecidesAt(docs, C, [del], mode, id, [], 0, Resolved(uri))
  {
    hide Finds, Begins;
    assert DelegateEntry(C.kinds, [del][0], mode, id);
  }

  /** What resolution without limits finds in these catalogs. */
  lemma ChainedFinds(n: nat, docs: Docs, C: State, top: Entry, del: Entry, cat: Entry, x: Entry, mode: Mode,
                     id: seq<byte>, uri: seq<byte>)
    requires Chained(C, top, del, cat, x) && ForMode(C, del, x, mode) && Canonical(QueryOf(mode, id))
    requires Begins(del.name, id) && x.name == Some(id) && x.url == Some(uri)
    requires Exec(n, Unguarded, docs, C, ListsJob(top, QueryOf(mode, id))).Some?
    ensures Exec(n, Unguarded, docs, C, ListsJob(top, QueryOf(mode, id))).value.ret == Resolved(uri)
  {
    var R, q := {top, del, cat, x}, QueryOf(mode, id);
    ChainedIsClosed(docs, C, top, del, cat, x, mode);
    assert ExactEntry(C.kinds, x, mode, id) && AsksFirst(q, mode, id);
    hide Exec, Chain, Canonical, Closed, Finds, DelegatesIt, DecidesAt, AsksFirst, Begins;
    InnerFinds(docs, C, del, cat, x, mode, id, uri);
    OuterDelegates(docs, C, del, cat, x, mode, id, uri);
    OneCatalog(docs, C, top, del, q);
    hide PlanFor, Chained, ForMode;
    TakesSteps(n, docs, C, InLists([top], q));
    StepFirst(n, docs, C, InLists([top], q), InList(del, q), Some(del), false, InLists([], q));
    ListDelegates(n - 1, docs, C, del, q, mode, id, R);
  }

  method MakeChain(mode: Mode, prefix: seq<byte>, id: seq<byte>, uri: seq<byte>)
    returns (w: Catalogs, top: Entry, ghost del: Entry, ghost cat: Entry, ghost x: Entry)
    requires mode != ByUri
    ensures w.Valid() && fresh(w) && w.entries == [top, del, cat, x] && w.docs == map[] && w.files == map[]
    ensures fresh(top) && fresh(del) && fresh(cat) && fresh(x)
    ensures Chained(w.Now(), top, del, cat, x) && ForMode(w.Now(), del, x, mode)
    ensures del.name == Some(prefix) && x.name == Some(id) && x.url == Some(uri)
    ensures top.depth == 0 && del.depth == 0 && cat.depth == 0 && x.depth == 0
  {
    hide w.Valid, w.Now, w.Objects, Chained, ForMode, ListsStayIn;
    var exact := new Entry(if mode == BySystem then System else Public, Some(id), Some(uri), PreferPublic, null);
    var inner := new Entry(CatalogList, None, None, PreferPublic, null);
    var delegate := new Entry(if mode == BySystem then DelegateSystem else DelegatePublic, Some(prefix), None,
                              PreferPublic, null);
    top := new Entry(CatalogList, None, None, PreferPublic, null);
    inner.children, delegate.children, top.children := exact, inner, delegate;
    del, cat, x := delegate, inner, exact;
    w := Gather(top, delegate, inner, exact);
    ChainMade(w, top, delegate, inner, exact, mode);
  }

  method Gather(top: Entry, del: Entry, cat: Entry, x: Entry) returns (w: Catalogs)
    requires top.next == null && del.next == null && cat.next == null && x.next == null
    requires top.children == del && del.children == cat && cat.children == x && x.children == null
    requires top.depth == 0 && del.depth == 0 && cat.depth == 0 && x.depth == 0
    ensures w.Valid() && fresh(w) && w.entries == [top, del, cat, x] && w.docs == map[] && w.files == map[]
  {
    ghost var es := [top, del, cat, x];
    InFour(es);
    w := new Catalogs(es, map[]);
  }

  lemma ObjectsAre(w: Catalogs, top: Entry, del: Entry, cat: Entry, x: Entry)
    requires w.entries == [top, del, cat, x]
    ensures w.Objects() == {top, del, cat, x}
  {
    InFour(w.entries);
  }

  lemma InFour(es: seq<Entry>)
    requires |es| == 4
    ensures forall e :: e in es ==> e == es[0] || e == es[1] || e == es[2] || e == es[3]
  {
  }

  lemma ChainMade(w: Catalogs, top: Entry, del: Entry, cat: Entry, x: Entry, mode: Mode)
    requires top in w.entries && del in w.entries && cat in w.entries && x in w.entries && mode != ByUri
    requires top.next == null && del.next == null && cat.next == null && x.next == null
    requires top.children == del && del.children == cat && cat.children == x && x.children == null
    requires top.kind == CatalogList && cat.kind == CatalogList && del.prefer == PreferPublic
    requires del.kind == if mode == BySystem then DelegateSystem else DelegatePublic
    requires x.kind == if mode == BySystem then System else Public
    ensures Chained(w.Now(), top, del, cat, x) && ForMode(w.Now(), del, x, mode)
  {
    assert w.Kinds()[top] == top.kind && w.Kinds()[del] == del.kind && w.Kinds()[cat] == cat.kind &&
           w.Kinds()[x] == x.kind;
    hide KindIn, ChildIn;
    w.Seen(top);
    w.Seen(del);
    w.Seen(cat);
    w.Seen(x);
  }

  /** The code on such catalogs: the identifier is resolved through the delegate, whose name is a prefix of
      it. */
  method ResolveByDelegate(mode: Mode, prefix: seq<byte>, id: seq<byte>, uri: seq<byte>) returns (ret: Found)
    requires mode != ByUri && Canonical(QueryOf(mode, id)) && |prefix| <= |id| && id[..|prefix|] == prefix
    ensures ret == Resolved(uri)
  {
    ghost var del, cat, x;
    var w, top;
    w, top, del, cat, x := MakeChain(mode, prefix, id, uri);
    ObjectsAre(w, top, del, cat, x);
    ghost var C, q, lv := w.Now(), QueryOf(mode, id), map[top := 3, del := 2, cat := 1, x := 0];
    w.Seen(top);
    w.Seen(del);
    w.Seen(cat);
    w.Seen(x);
    hide w.Valid, Canonical, Chained, ForMode, Ends, ListsJob;
    ChainedIsAcyclic(C, top, del, cat, x, mode);
    hide Acyclic, Idle, w.Now;
    var pub, sys: Id := if mode == ByPublic then Some(id) else None, if mode == BySystem then Some(id) else None;
    ret := ListXMLResolve(w, top, pub, sys);
    ghost var o := Outcome(ret, false, w.Now());
    AcyclicNeverStops(w.docs, C, top, q, lv, o);
    CountersDoNotMatter(w.docs, C, ListsJob(top, q), o, top);
    EndsResolved(w.docs, C, top, del, cat, x, mode, id, uri, o);
  }

  lemma EndsResolved(docs: Docs, C: State, top: Entry, del: Entry, cat: Entry, x: Entry, mode: Mode, id: seq<byte>,
                     uri: seq<byte>, o: Outcome)
    requires Chained(C, top, del, cat, x) && ForMode(C, del, x, mode) && Canonical(QueryOf(mode, id))
    requires Begins(del.name, id) && x.name == Some(id) && x.url == Some(uri)
    requires Ends(Unguarded, docs, C, ListsJob(top, QueryOf(mode, id)), o)
    ensures o.ret == Resolved(uri)
  {
    hide Exec, Chained, ForMode, Canonical, ListsJob;
    var n: nat :| Exec(n, Unguarded, docs, C, ListsJob(top, QueryOf(mode, id))) == Some(o);
    ChainedFinds(n, docs, C, top, del, cat, x, mode, id, uri);
  }
}
