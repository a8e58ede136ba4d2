/** Resolution of identifiers in XML catalogs (catalog.c): mutually recursive lookups over lists
    of entries that may refer to each other in cycles. Each ends, with exactly the outcome of the
    machine that has the same depth counters. */
module CatalogResolve {
  import opened Bytes
  import opened CatalogUrn
  import opened CatalogQuery
  import opened CatalogStore
  import opened CatalogRules

  // --- The scan of a list -----------------------------------------------------------------------------

  /** The loop over a list that looks for exact entries, rules, delegates and next catalogs
      (catalog.c:1616-1661, 1712-1738, 1848-1888). */
  method Scan(w: Catalogs, catal: Entry, exact: Kind, rewrite: Option<Kind>, mode: Mode, id: seq<byte>,
              ghost c: seq<Entry>, ghost K: Kinds)
    returns (answer: Option<Found>, haveDelegate: bool, haveNext: bool)
    requires IsList(w.entries, c, catal) && Search(exact, rewrite, mode) && K == w.Kinds()
    ensures answer == Direct(K, c, exact, rewrite, id)
    ensures answer.None? ==> (haveDelegate <==> HasDelegate(K, c, mode, id))
    ensures answer.None? ==> (haveNext <==> HasNext(K, c))
  {
    haveDelegate, haveNext := false, false;
    var rule: Entry?, lenrewrite: nat, cur: Entry? := null, 0, catal;
    ghost var i := 0;
    NextInList(w.entries, c, catal, 0);
    NothingScanned(K, c, exact, rewrite, mode, id);
    hide ScanState, Direct, HasDelegate, HasNext, HasPrefix, Announces, Search, IsList, KindIn, Dup, w.Kinds,
         FirstExact, Classify, NameLength;
    while cur != null
      invariant 0 <= i <= |c| && cur == if i < |c| then c[i] else null
      invariant ScanState(K, c, i, exact, rewrite, mode, id, rule, lenrewrite, haveDelegate, haveNext)
      decreases |c| - i
    {
      NextInList(w.entries, c, catal, i);
      w.Seen(cur);
      ScanStep(K, c, i, exact, rewrite, mode, id, rule, lenrewrite, haveDelegate, haveNext, cur.kind);
      match Classify(cur, cur.kind, exact, rewrite, mode, id, lenrewrite) {
        case Exact => return Some(Dup(cur.url)), haveDelegate, haveNext;
        case Better => rule, lenrewrite := cur, NameLength(cur);
        case Delegate => haveDelegate := true;
        case Next => haveNext := true;
        case Other =>
      }
      cur := cur.next;
      i := i + 1;
    }
    AllScanned(K, c, exact, rewrite, mode, id, rule, lenrewrite, haveDelegate, haveNext);
    answer := None;
    if rule != null {
      answer := Some(if rule.url.None? then NotFound else Resolved(rule.url.value + id[lenrewrite..]));
    }
  }

  /** What the scan knows after the first `n` entries. */
  ghost predicate ScanState(K: Kinds, c: seq<Entry>, n: nat, exact: Kind, rewrite: Option<Kind>, mode: Mode,
                            id: seq<byte>, rule: Entry?, lenrewrite: nat,
                            haveDelegate: bool, haveNext: bool)
    requires n <= |c|
  {
    && FirstExact(K, c, exact, id) == FirstExact(K, c[n..], exact, id)
    && RuleSoFar(K, c, n, rewrite, id, rule, lenrewrite)
    && SeenTo(K, c, n, mode, id, haveDelegate, haveNext)
  }

  /** What an entry is to the scan: an exact match, a longer rule, a delegate, a next catalog, or
      none of these. */
  datatype Class = Exact | Better | Delegate | Next | Other

  function Classify(e: Entry, kind: Kind, exact: Kind, rewrite: Option<Kind>, mode: Mode, id: seq<byte>,
                    lenrewrite: nat): Class {
    if kind == exact && e.name == Some(id) then Exact
    else if rewrite == Some(kind) then
      if NameLength(e) > lenrewrite && Starts(id, e.name) then Better else Other
    else if Announces(e, kind, mode, id) then Delegate
    else if kind == NextCatalog then Next
    else Other
  }

  /** xmlStrlen of the entry's name */
  function NameLength(e: Entry): nat { if e.name.None? then 0 else |e.name.value| }

  lemma ScanStep(K: Kinds, c: seq<Entry>, n: nat, exact: Kind, rewrite: Option<Kind>, mode: Mode, id: seq<byte>,
                 rule: Entry?, lenrewrite: nat,
                 haveDelegate: bool, haveNext: bool, kind: Kind)
    requires n < |c| && ScanState(K, c, n, exact, rewrite, mode, id, rule, lenrewrite, haveDelegate, haveNext)
    requires kind == KindIn(K, c[n]) && Search(exact, rewrite, mode)
    ensures var k := Classify(c[n], kind, exact, rewrite, mode, id, lenrewrite);
            if k == Exact then Direct(K, c, exact, rewrite, id) == Some(Dup(c[n].url))
            else ScanState(K, c, n + 1, exact, rewrite, mode, id, if k == Better then c[n] else rule,
                           if k == Better then NameLength(c[n])
                             else lenrewrite, haveDelegate || k == Delegate, haveNext || k == Next)
  {
    ClassMeans(c[n], kind, exact, rewrite, mode, id, lenrewrite);
    hide FirstExact, SeenTo, RuleSoFar, Direct, HasPrefix, Announces, Search, KindIn, Dup, Classify, NameLength;
    ExactStep(K, c[n..], exact, id);
    ExactAnswers(K, c, exact, rewrite, id);
    RuleStep(K, c, n, rewrite, id, rule, lenrewrite, kind);
    SeenStep(K, c, n, mode, id, haveDelegate, haveNext);
    assert c[n..][1..] == c[n + 1..];
  }

  lemma ClassMeans(e: Entry, kind: Kind, exact: Kind, rewrite: Option<Kind>, mode: Mode, id: seq<byte>, lenrewrite: nat)
    requires Search(exact, rewrite, mode)
    ensures var k := Classify(e, kind, exact, rewrite, mode, id, lenrewrite);
            && (k == Exact <==> kind == exact && e.name == Some(id))
            && (k == Better <==> rewrite == Some(kind) && NameLength(e) > lenrewrite && Starts(id, e.name))
            && (k != Exact ==>
                  (k == Delegate <==> Announces(e, kind, mode, id)) && (k == Next <==> kind == NextCatalog))
  {
    KindsDiffer(e, kind, exact, rewrite, mode, id);
  }

  lemma ExactAnswers(K: Kinds, c: seq<Entry>, exact: Kind, rewrite: Option<Kind>, id: seq<byte>)
    ensures FirstExact(K, c, exact, id).Some? ==>
              Direct(K, c, exact, rewrite, id) == Some(Dup(FirstExact(K, c, exact, id).value.url))
  {
  }

  lemma KindsDiffer(e: Entry, kind: Kind, exact: Kind, rewrite: Option<Kind>, mode: Mode, id: seq<byte>)
    requires Search(exact, rewrite, mode)
    ensures Announces(e, kind, mode, id) ==> kind != exact && rewrite != Some(kind) && kind != NextCatalog
    ensures rewrite != Some(NextCatalog) && exact != NextCatalog && rewrite != Some(exact)
  {
  }

  /** What the scan knows of the first `n` entries. */
  ghost predicate RuleSoFar(K: Kinds, c: seq<Entry>, n: nat, rewrite: Option<Kind>, id: seq<byte>, rule: Entry?,
                            lenrewrite: nat)
    requires n <= |c|
  {
    if rewrite.None? then rule == null
    else match LongestRule(K, c, n, rewrite.value, id)
      case None => rule == null && lenrewrite == 0
      case Some(b) => rule == c[b] && lenrewrite == |c[b].name.value|
  }

  ghost predicate SeenTo(K: Kinds, c: seq<Entry>, n: nat, mode: Mode, id: seq<byte>, haveDelegate: bool, haveNext: bool)
    requires n <= |c|
  {
    && (haveDelegate <==> exists k :: 0 <= k < n && Announces(c[k], KindIn(K, c[k]), mode, id))
    && (haveNext <==> exists k :: 0 <= k < n && KindIn(K, c[k]) == NextCatalog)
  }

  lemma NothingScanned(K: Kinds, c: seq<Entry>, exact: Kind, rewrite: Option<Kind>, mode: Mode, id: seq<byte>)
    ensures ScanState(K, c, 0, exact, rewrite, mode, id, null, 0, false, false)
  {
    assert c[0..] == c;
  }

  lemma ExactStep(K: Kinds, c: seq<Entry>, exact: Kind, id: seq<byte>)
    requires c != []
    ensures FirstExact(K, c, exact, id) ==
            if IsExact(K, c[0], exact, id) then Some(c[0]) else FirstExact(K, c[1..], exact, id)
  {
  }

  lemma RuleStep(K: Kinds, c: seq<Entry>, n: nat, rewrite: Option<Kind>, id: seq<byte>, rule: Entry?, lenrewrite: nat,
                 kind: Kind)
    requires n < |c| && RuleSoFar(K, c, n, rewrite, id, rule, lenrewrite) && kind == KindIn(K, c[n])
    ensures if rewrite == Some(kind) && NameLength(c[n]) > lenrewrite && Starts(id, c[n].name)
            then RuleSoFar(K, c, n + 1, rewrite, id, c[n], NameLength(c[n]))
            else RuleSoFar(K, c, n + 1, rewrite, id, rule, lenrewrite)
  {
  }

  lemma SeenStep(K: Kinds, c: seq<Entry>, n: nat, mode: Mode, id: seq<byte>, haveDelegate: bool, haveNext: bool)
    requires n < |c| && SeenTo(K, c, n, mode, id, haveDelegate, haveNext)
    ensures SeenTo(K, c, n + 1, mode, id, haveDelegate || Announces(c[n], KindIn(K, c[n]), mode, id),
                   haveNext || KindIn(K, c[n]) == NextCatalog)
  {
  }

  lemma AllScanned(K: Kinds, c: seq<Entry>, exact: Kind, rewrite: Option<Kind>, mode: Mode, id: seq<byte>,
                   rule: Entry?, lenrewrite: nat,
                   haveDelegate: bool, haveNext: bool)
    requires ScanState(K, c, |c|, exact, rewrite, mode, id, rule, lenrewrite, haveDelegate, haveNext)
    ensures rule != null ==> rule.name.Some? && lenrewrite <= |id|
    ensures rule != null ==>
              Direct(K, c, exact, rewrite, id) ==
                Some(if rule.url.None? then NotFound else Resolved(rule.url.value + id[lenrewrite..]))
    ensures rule == null ==> Direct(K, c, exact, rewrite, id) == None
    ensures haveDelegate <==> HasDelegate(K, c, mode, id)
    ensures haveNext <==> HasNext(K, c)
  {
  }

  // --- Steps of the machine ---------------------------------------------------------------------------

  /** Whatever the one job ends with, the other ends with, some steps later. */
  ghost predicate Leads(docs: Docs, C0: State, t0: Job, C: State, t: Job) {
    exists k: nat :: LeadsBy(k, docs, C0, t0, C, t)
  }

  ghost predicate LeadsBy(k: nat, docs: Docs, C0: State, t0: Job, C: State, t: Job) {
    forall n: nat :: Exec(n, Guarded, docs, C, t).Some? ==>
      Exec(n + k, Guarded, docs, C0, t0) == Exec(n, Guarded, docs, C, t)
  }

  lemma LeadsHere(docs: Docs, C: State, t: Job)
    ensures Leads(docs, C, t, C, t)
  {
    assert LeadsBy(0, docs, C, t, C, t);
  }

  lemma LeadsOn(docs: Docs, C0: State, t0: Job, C1: State, t1: Job, C2: State, t2: Job)
    requires Leads(docs, C0, t0, C1, t1) && Leads(docs, C1, t1, C2, t2)
    ensures Leads(docs, C0, t0, C2, t2)
  {
    hide Exec, LeadsBy;
    var a: nat :| LeadsBy(a, docs, C0, t0, C1, t1);
    var b: nat :| LeadsBy(b, docs, C1, t1, C2, t2);
    LeadsSum(a, b, docs, C0, t0, C1, t1, C2, t2);
  }

  lemma LeadsSum(a: nat, b: nat, docs: Docs, C0: State, t0: Job, C1: State, t1: Job, C2: State, t2: Job)
    requires LeadsBy(a, docs, C0, t0, C1, t1) && LeadsBy(b, docs, C1, t1, C2, t2)
    ensures LeadsBy(a + b, docs, C0, t0, C2, t2)
  {
    hide Exec;
    forall n: nat | Exec(n, Guarded, docs, C2, t2).Some?
      ensures Exec(n + (a + b), Guarded, docs, C0, t0) == Exec(n, Guarded, docs, C2, t2)
    {
      LeadsSumAt(a, b, docs, C0, t0, C1, t1, C2, t2, n);
    }
  }

  lemma LeadsSumAt(a: nat, b: nat, docs: Docs, C0: State, t0: Job, C1: State, t1: Job, C2: State, t2: Job, n: nat)
    requires LeadsBy(a, docs, C0, t0, C1, t1) && LeadsBy(b, docs, C1, t1, C2, t2)
    requires Exec(n, Guarded, docs, C2, t2).Some?
    ensures Exec(n + (a + b), Guarded, docs, C0, t0) == Exec(n, Guarded, docs, C2, t2)
  {
    hide Exec, LeadsBy;
    LeadsAt(b, docs, C1, t1, C2, t2, n);
    LeadsAt(a, docs, C0, t0, C1, t1, n + b);
    assert n + b + a == n + (a + b);
  }

  lemma LeadsAt(k: nat, docs: Docs, C0: State, t0: Job, C: State, t: Job, n: nat)
    requires LeadsBy(k, docs, C0, t0, C, t) && Exec(n, Guarded, docs, C, t).Some?
    ensures Exec(n + k, Guarded, docs, C0, t0) == Exec(n, Guarded, docs, C, t)
  {
  }

  lemma LeadsTo(docs: Docs, C0: State, t0: Job, C: State, t: Job, o: Outcome)
    requires Leads(docs, C0, t0, C, t) && Ends(Guarded, docs, C, t, o)
    ensures Ends(Guarded, docs, C0, t0, o)
  {
    hide Exec;
    var k: nat :| LeadsBy(k, docs, C0, t0, C, t);
    var n: nat :| Exec(n, Guarded, docs, C, t) == Some(o);
    assert Exec(n + k, Guarded, docs, C0, t0) == Some(o);
  }

  /** The next step, if the plan is another job. */
  lemma Skip(docs: Docs, C: State, t: Job, C1: State, t1: Job)
    requires !t.Return? && PlanFor(docs, C, t) == Instead(C1, t1)
    ensures Leads(docs, C, t, C1, t1)
  {
    hide PlanFor;
    assert LeadsBy(1, docs, C, t, C1, t1);
  }

  lemma Finish(docs: Docs, C: State, t: Job, r: Found)
    requires !t.Return? && PlanFor(docs, C, t) == Instead(C, Return(r))
    ensures Ends(Guarded, docs, C, t, Outcome(r, false, C))
  {
    hide PlanFor;
    assert Exec(1, Guarded, docs, C, t) == Exec(0, Guarded, docs, C, Return(r));
  }

  /** The step of a plan whose first job has ended. */
  lemma Combine(docs: Docs, C: State, t: Job, C1: State, sub: Job, stop: Option<Entry>, leak: bool, next: Job,
                o: Outcome)
    requires !t.Return? && PlanFor(docs, C, t) == First(C1, sub, stop, leak, next)
    requires Ends(Guarded, docs, C1, sub, o)
    ensures o.ret != NotFound ==> Ends(Guarded, docs, C, t, Outcome(o.ret, false, o.state))
    ensures o.ret == NotFound && stop.Some? && Fires(Guarded, o.state, stop.value) ==>
              Ends(Guarded, docs, C, t, Outcome(NotFound, leak, o.state))
    ensures o.ret == NotFound && !(stop.Some? && Fires(Guarded, o.state, stop.value)) ==>
              Leads(docs, C, t, o.state, next)
  {
    hide PlanFor, Fires;
    var m: nat :| Exec(m, Guarded, docs, C1, sub) == Some(o);
    if o.ret == NotFound && !(stop.Some? && Fires(Guarded, o.state, stop.value)) {
      forall n: nat | Exec(n, Guarded, docs, o.state, next).Some?
        ensures Exec(n + (m + 1), Guarded, docs, C, t) == Exec(n, Guarded, docs, o.state, next)
      {
        ExecMore(m, n + m, Guarded, docs, C1, sub);
        ExecMore(n, n + m, Guarded, docs, o.state, next);
      }
      assert LeadsBy(m + 1, docs, C, t, o.state, next);
    } else {
      assert Exec(m + 1, Guarded, docs, C, t).Some?;
    }
  }

  /** A list behind its depth check. */
  lemma PassCheck(docs: Docs, C: State, t: Job, e: Entry, enter: bool, body: Job, o: Outcome)
    requires !t.Return? && PlanFor(docs, C, t) == Checked(e, enter, body) && !Fires(Guarded, C, e)
    requires Ends(Guarded, docs, if enter then Entered(C, e) else C, body, o)
    ensures Ends(Guarded, docs, C, t, Leaving(e, enter, o))
  {
    hide PlanFor, Fires, Leaving;
    var m: nat :| Exec(m, Guarded, docs, if enter then Entered(C, e) else C, body) == Some(o);
    assert Exec(m + 1, Guarded, docs, C, t) == Some(Leaving(e, enter, o));
  }

  lemma FailCheck(docs: Docs, C: State, t: Job, e: Entry, enter: bool, body: Job)
    requires !t.Return? && PlanFor(docs, C, t) == Checked(e, enter, body) && Fires(Guarded, C, e)
    ensures Ends(Guarded, docs, C, t, Outcome(NotFound, false, C))
  {
    hide PlanFor, Fires;
    assert Exec(1, Guarded, docs, C, t).Some?;
  }

  // --- Plans at the place of a loop -------------------------------------------------------------------

  lemma DelegatePlan(docs: Docs, C: State, c: seq<Entry>, i: nat, mode: Mode, id: seq<byte>, tried: seq<Id>)
    requires i <= |c|
    ensures var p := PlanFor(docs, C, InDelegates(c[i..], mode, id, tried));
            && (i == |c| ==> p == Instead(C, Return(NotFound)))
            && (i < |c| && !TriesDelegate(C, c[i], mode, id, tried) ==>
                  p == Instead(C, InDelegates(c[i + 1..], mode, id, tried)))
            && (i < |c| && TriesDelegate(C, c[i], mode, id, tried) ==>
                  var C1, next := Loaded(docs, C, c[i]), InDelegates(c[i + 1..], mode, id, Remember(tried, c[i].url));
                  p == if ChildIn(C1, c[i]) == null then Instead(C1, next)
                       else First(C1, ListsJob(ChildIn(C1, c[i]), QueryOf(mode, id)), None, false, next))
  {
    hide TriesDelegate, Loaded, ListsJob;
    if i < |c| {
      assert c[i..][1..] == c[i + 1..];
    }
  }

  lemma NextPlan(docs: Docs, C: State, catal: Entry, c: seq<Entry>, i: nat, q: Query)
    requires i <= |c|
    ensures var p := PlanFor(docs, C, InNext(catal, c[i..], q));
            && (i == |c| ==> p == Instead(C, Return(NotFound)))
            && (i < |c| && KindIn(C.kinds, c[i]) != NextCatalog ==> p == Instead(C, InNext(catal, c[i + 1..], q)))
            && (i < |c| && KindIn(C.kinds, c[i]) == NextCatalog ==>
                  var C1, next := Loaded(docs, C, c[i]), InNext(catal, c[i + 1..], q);
                  p == if ChildIn(C1, c[i]) == null then Instead(C1, next)
                       else First(C1, ListsJob(ChildIn(C1, c[i]), q), if q.External? then Some(catal) else None, true,
                                  next))
  {
    hide Loaded, ListsJob;
    if i < |c| {
      assert c[i..][1..] == c[i + 1..];
    }
  }

  lemma ListsPlan(docs: Docs, C: State, c: seq<Entry>, i: nat, q: Query)
    requires i <= |c|
    ensures var p := PlanFor(docs, C, InLists(c[i..], q));
            && (i == |c| ==> p == Instead(C, Return(NotFound)))
            && (i < |c| && KindIn(C.kinds, c[i]) != CatalogList ==> p == Instead(C, InLists(c[i + 1..], q)))
            && (i < |c| && KindIn(C.kinds, c[i]) == CatalogList ==>
                  var C1, next := Loaded(docs, C, c[i]), InLists(c[i + 1..], q);
                  var child := ChildIn(C1, c[i]);
                  p == if child == null then Instead(C1, next)
                       else First(C1, InList(child, q), if q.External? then Some(child) else None, false, next))
  {
    hide Loaded;
    if i < |c| {
      assert c[i..][1..] == c[i + 1..];
    }
  }

  // --- The mutually recursive lookups -------------------------------------------------------------------

  /** The list behind an entry was loaded and, if there is one, searched with this result. */
  ghost predicate Visited(docs: Docs, C: State, cur: Entry, q: Query, present: bool, ret: Found, C': State) {
    var C1 := Loaded(docs, C, cur);
    && (present <==> ChildIn(C1, cur) != null)
    && (!present ==> ret == NotFound && C' == C1)
    && (present ==> Ends(Guarded, docs, C1, ListsJob(ChildIn(C1, cur), q), Outcome(ret, false, C')))
  }

  /** The same for the list of entries behind a catalog. */
  ghost predicate Headed(docs: Docs, C: State, cur: Entry, q: Query, child: Entry?, ret: Found, C': State) {
    var C1 := Loaded(docs, C, cur);
    && child == ChildIn(C1, cur)
    && (child == null ==> ret == NotFound && C' == C1)
    && (child != null ==> Ends(Guarded, docs, C1, InList(child, q), Outcome(ret, false, C')))
  }

  /** The step of a loop after a visit. */
  lemma AfterVisit(docs: Docs, C: State, t: Job, cur: Entry, q: Query, stop: Option<Entry>, leak: bool, next: Job,
                   present: bool, ret: Found, C': State)
    requires Visited(docs, C, cur, q, present, ret, C') && !t.Return?
    requires var C1 := Loaded(docs, C, cur);
             PlanFor(docs, C, t) == if ChildIn(C1, cur) == null then Instead(C1, next)
                                    else First(C1, ListsJob(ChildIn(C1, cur), q), stop, leak, next)
    ensures ret != NotFound ==> Ends(Guarded, docs, C, t, Outcome(ret, false, C'))
    ensures ret == NotFound && present && stop.Some? && Fires(Guarded, C', stop.value) ==>
              Ends(Guarded, docs, C, t, Outcome(NotFound, leak, C'))
    ensures ret == NotFound && !(present && stop.Some? && Fires(Guarded, C', stop.value)) ==>
              Leads(docs, C, t, C', next)
  {
    hide PlanFor, Fires, Loaded, ListsJob, Leads, Ends;
    var C1 := Loaded(docs, C, cur);
    if present {
      Combine(docs, C, t, C1, ListsJob(ChildIn(C1, cur), q), stop, leak, next, Outcome(ret, false, C'));
    } else {
      Skip(docs, C, t, C1, next);
    }
  }

  lemma AfterHead(docs: Docs, C: State, t: Job, cur: Entry, q: Query, next: Job, child: Entry?, ret: Found, C': State)
    requires Headed(docs, C, cur, q, child, ret, C') && !t.Return?
    requires var C1 := Loaded(docs, C, cur);
             PlanFor(docs, C, t) == if child == null then Instead(C1, next)
                                    else First(C1, InList(child, q), if q.External? then Some(child) else None, false,
                                               next)
    ensures ret != NotFound ==> Ends(Guarded, docs, C, t, Outcome(ret, false, C'))
    ensures ret == NotFound && child != null && q.External? && Fires(Guarded, C', child) ==>
              Ends(Guarded, docs, C, t, Outcome(NotFound, false, C'))
    ensures ret == NotFound && !(child != null && q.External? && Fires(Guarded, C', child)) ==>
              Leads(docs, C, t, C', next)
  {
    hide PlanFor, Fires, Loaded, Leads, Ends;
    var C1 := Loaded(docs, C, cur);
    if child != null {
      var stop := if q.External? then Some(child) else None;
      Combine(docs, C, t, C1, InList(child, q), stop, false, next, Outcome(ret, false, C'));
    } else {
      Skip(docs, C, t, C1, next);
    }
  }

  /** The list behind an entry, searched if it is there. */
  method Visit(w: Catalogs, cur: Entry, q: Query) returns (present: bool, ret: Found)
    requires w.Valid() && Canonical(q) && cur in w.entries
    modifies w, w.Objects()
    ensures w.Valid() && AtLeast(old(w.Depths()), w.Depths())
    ensures Visited(w.docs, old(w.Now()), cur, q, present, ret, w.Now())
    decreases w.Budget(), QueryMeasure(q), 3
  {
    hide Canon, QueryMeasure, Reduce, HasUrn, DepthsOf, Remaining, Chain, w.Valid, Ends, Loaded, w.Now;
    CanonOfCanonical(q);
    SameDepths(w.Depths());
    var child := w.ChildOf(cur);
    present, ret := child != null, NotFound;
    if child != null {
      match q {
        case External(pub, sys) => ret := ListXMLResolve(w, child, pub, sys);
        case Reference(u) => ret := ListXMLResolveURI(w, child, u);
      }
    }
  }

  /** The loop over the delegates of a list (catalog.c:1662-1701, 1739-1780, 1889-1926): the
      first fifty URLs are remembered and not tried twice. */
  method TryDelegates(w: Catalogs, catal: Entry, mode: Mode, id: seq<byte>) returns (ret: Found)
    requires w.Valid() && catal in w.entries && Canonical(QueryOf(mode, id))
    modifies w, w.Objects()
    ensures w.Valid() && AtLeast(old(w.Depths()), w.Depths())
    ensures Ends(Guarded, w.docs, old(w.Now()), InDelegates(Chain(catal), mode, id, []), Outcome(ret, false, w.Now()))
    decreases w.Budget(), QueryMeasure(QueryOf(mode, id)), 4
  {
    hide Canon, QueryMeasure, Reduce, HasUrn, DepthsOf, Remaining, Chain, IsList, w.Valid, Ends, Visited, PlanFor,
         Delegates, Leads, w.Now, Loaded, ListsJob;
    ghost var docs, C0, c, i, before := w.docs, w.Now(), Chain(catal), 0, w.Depths();
    ghost var t0 := InDelegates(c, mode, id, []);
    var delegates: seq<Id>, cur: Entry? := [], catal;
    ChainIsList(w, catal);
    NextInList(w.entries, c, catal, 0);
    LeadsHere(docs, C0, t0);
    SameDepths(before);
    assert c[0..] == c;
    while cur != null
      invariant 0 <= i <= |c| && cur == if i < |c| then c[i] else null
      invariant w.Valid() && AtLeast(before, w.Depths())
      invariant Leads(docs, C0, t0, w.Now(), InDelegates(c[i..], mode, id, delegates))
      decreases |c| - i
    {
      NextInList(w.entries, c, catal, i);
      w.Seen(cur);
      ghost var C, tried, during := w.Now(), delegates, w.Depths();
      ghost var t := InDelegates(c[i..], mode, id, tried);
      DelegatePlan(docs, C, c, i, mode, id, tried);
      if Delegates(cur, cur.kind, mode, id) && cur.url !in delegates {
        if |delegates| < MAX_DELEGATE {
          delegates := delegates + [cur.url];
        }
        RemainingShrinks(before, during);
        var present;
        present, ret := Visit(w, cur, AsQuery(mode, id));
        StillAtLeast(before, during, w.Depths());
        AfterVisit(docs, C, t, cur, QueryOf(mode, id), None, false, InDelegates(c[i + 1..], mode, id, delegates),
                   present, ret, w.Now());
        if ret != NotFound {
          LeadsTo(docs, C0, t0, C, t, Outcome(ret, false, w.Now()));
          return;
        }
      } else {
        Skip(docs, C, t, C, InDelegates(c[i + 1..], mode, id, tried));
      }
      LeadsOn(docs, C0, t0, C, t, w.Now(), InDelegates(c[i + 1..], mode, id, delegates));
      cur := cur.next;
      i := i + 1;
    }
    ret := NotFound;
    DelegatePlan(docs, w.Now(), c, |c|, mode, id, delegates);
    Finish(docs, w.Now(), InDelegates(c[i..], mode, id, delegates), NotFound);
    LeadsTo(docs, C0, t0, w.Now(), InDelegates(c[i..], mode, id, delegates), Outcome(ret, false, w.Now()));
  }

  function AsQuery(mode: Mode, id: seq<byte>): (q: Query)
    ensures q == QueryOf(mode, id)
  {
    match mode
    case BySystem => External(None, Some(id))
    case ByPublic => External(Some(id), None)
    case ByUri => Reference(id)
  }

  lemma StillAtLeast(a: seq<nat>, b: seq<nat>, c: seq<nat>)
    requires AtLeast(a, b) && AtLeast(b, c)
    ensures AtLeast(a, c)
  {
  }

  /** The loop over the next catalogs of a list (catalog.c:1787-1806, 1932-1947). */
  method TryNext(w: Catalogs, catal: Entry, q: Query) returns (ret: Found, limit: bool)
    requires w.Valid() && catal in w.entries && Canonical(q)
    modifies w, w.Objects()
    ensures w.Valid() && AtLeast(old(w.Depths()), w.Depths()) && (limit ==> q.External? && ret == NotFound)
    ensures Ends(Guarded, w.docs, old(w.Now()), InNext(catal, Chain(catal), q), Outcome(ret, limit, w.Now()))
    decreases w.Budget(), QueryMeasure(q), 4
  {
    hide Canon, QueryMeasure, Reduce, HasUrn, DepthsOf, Remaining, Chain, IsList, w.Valid, Ends, Visited, PlanFor,
         Leads,
         w.Now, Loaded, ListsJob;
    ghost var docs, C0, c, i, before := w.docs, w.Now(), Chain(catal), 0, w.Depths();
    ghost var t0 := InNext(catal, c, q);
    var cur: Entry? := catal;
    limit := false;
    ChainIsList(w, catal);
    NextInList(w.entries, c, catal, 0);
    LeadsHere(docs, C0, t0);
    SameDepths(before);
    assert c[0..] == c;
    while cur != null
      invariant 0 <= i <= |c| && cur == if i < |c| then c[i] else null
      invariant w.Valid() && AtLeast(before, w.Depths())
      invariant Leads(docs, C0, t0, w.Now(), InNext(catal, c[i..], q))
      decreases |c| - i
    {
      NextInList(w.entries, c, catal, i);
      w.Seen(cur);
      ghost var C, during, t, next := w.Now(), w.Depths(), InNext(catal, c[i..], q), InNext(catal, c[i + 1..], q);
      NextPlan(docs, C, catal, c, i, q);
      if cur.kind == NextCatalog {
        RemainingShrinks(before, during);
        var present;
        present, ret := Visit(w, cur, q);
        w.Seen(catal);
        StillAtLeast(before, during, w.Depths());
        AfterVisit(docs, C, t, cur, q, if q.External? then Some(catal) else None, true, next, present, ret, w.Now());
        if present {
          if ret != NotFound {
            LeadsTo(docs, C0, t0, C, t, Outcome(ret, false, w.Now()));
            return;
          } else if q.External? && catal.depth > MAX_CATAL_DEPTH {
            LeadsTo(docs, C0, t0, C, t, Outcome(NotFound, true, w.Now()));
            return ret, true;
          }
        } else {
          AbsentIsNothing(docs, C, cur, q, present, ret, w.Now());
        }
      } else {
        Skip(docs, C, t, C, next);
      }
      LeadsOn(docs, C0, t0, C, t, w.Now(), next);
      cur := cur.next;
      i := i + 1;
    }
    ret := NotFound;
    NextPlan(docs, w.Now(), catal, c, |c|, q);
    Finish(docs, w.Now(), InNext(catal, c[i..], q), NotFound);
    LeadsTo(docs, C0, t0, w.Now(), InNext(catal, c[i..], q), Outcome(ret, false, w.Now()));
  }

  lemma AbsentIsNothing(docs: Docs, C: State, cur: Entry, q: Query, present: bool, ret: Found, C': State)
    requires Visited(docs, C, cur, q, present, ret, C') && !present
    ensures ret == NotFound
  {
  }

  // --- One list -----------------------------------------------------------------------------------------

  function ExactKind(mode: Mode): Kind {
    match mode case BySystem => System case ByPublic => Public case ByUri => Uri
  }

  function RewriteKind(mode: Mode): Option<Kind> {
    match mode case BySystem => Some(RewriteSystem) case ByPublic => None case ByUri => Some(RewriteUri)
  }

  /** One identifier in one list: what the list itself says of it, then its delegates and the
      cut (catalog.c:1616-1706, 1711-1785, 1848-1931). */
  method TryId(w: Catalogs, catal: Entry, mode: Mode, id: seq<byte>) returns (done: bool, ret: Found, haveNext: bool)
    requires w.Valid() && catal in w.entries && Canonical(QueryOf(mode, id))
    modifies w, w.Objects()
    ensures w.Valid() && AtLeast(old(w.Depths()), w.Depths())
    ensures done <==> SaysBy(old(w.Now()).kinds, Chain(catal), mode, id) != Silent
    ensures done ==> Ends(Guarded, w.docs, old(w.Now()), Inside(catal, QueryOf(mode, id)), Outcome(ret, false, w.Now()))
    ensures !done ==> w.Now() == old(w.Now()) && w.Depths() == old(w.Depths())
    ensures !done ==> haveNext == HasNext(w.Now().kinds, Chain(catal))
    decreases w.Budget(), QueryMeasure(QueryOf(mode, id)), 5
  {
    hide Canon, QueryMeasure, Reduce, HasUrn, DepthsOf, Remaining, Direct, HasDelegate, IsList, Chain, HasNext, Ends,
         PlanFor, w.Valid, Leads, w.Kinds, SaysBy;
    ghost var C, c, t, K := w.Now(), Chain(catal), Inside(catal, QueryOf(mode, id)), w.Kinds();
    hide w.Now;
    ChainIsList(w, catal);
    SameDepths(w.Depths());
    IdPlan(w.docs, C, catal, mode, id);
    var answer, haveDelegate, next := Scan(w, catal, ExactKind(mode), RewriteKind(mode), mode, id, c, K);
    done, ret, haveNext := answer.Some? || haveDelegate, NotFound, next;
    if answer.Some? {
      ret := answer.value;
      Finish(w.docs, C, t, ret);
    } else if haveDelegate {
      ret := TryDelegates(w, catal, mode, id);
      Combine(w.docs, C, t, C, InDelegates(c, mode, id, []), None, false, Return(Break), Outcome(ret, false, w.Now()));
      if ret == NotFound {
        ret := Break;
        Returns(w.docs, w.Now(), Break);
        LeadsTo(w.docs, C, t, w.Now(), Return(Break), Outcome(Break, false, w.Now()));
      }
    }
  }

  lemma Returns(docs: Docs, C: State, r: Found)
    ensures Ends(Guarded, docs, C, Return(r), Outcome(r, false, C))
  {
    assert Exec(0, Guarded, docs, C, Return(r)) == Some(Outcome(r, false, C));
  }

  /** The plan for a query of one identifier. */
  lemma IdPlan(docs: Docs, C: State, catal: Entry, mode: Mode, id: seq<byte>)
    ensures var c, q := Chain(catal), QueryOf(mode, id);
            var v, p := SaysBy(C.kinds, c, mode, id), PlanFor(docs, C, Inside(catal, q));
            && (v.Answer? ==> p == Instead(C, Return(v.found)))
            && (v.Delegated? ==> p == First(C, InDelegates(c, mode, id, []), None, false, Return(Break)))
            && (v.Silent? ==> p == Instead(C, InNext(catal, c, q)))
    ensures SaysBy(C.kinds, Chain(catal), mode, id) ==
            SaysOf(C.kinds, Chain(catal), ExactKind(mode), RewriteKind(mode), mode, id)
    ensures Search(ExactKind(mode), RewriteKind(mode), mode)
  {
    hide SaysOf, Chain;
    var q := QueryOf(mode, id);
    assert Halves(q) == [(mode, id)] && Halves(q)[1..] == [];
    assert ListPlan(C, catal, Halves(q)[1..], q) == Instead(C, InNext(catal, Chain(catal), q));
  }

  /** The plan for an external identifier: the system identifier decides, then the public one, then
      the next catalogs. */
  lemma ExternalPlan(docs: Docs, C: State, catal: Entry, pub: Id, sys: Id)
    ensures var K, c, p := C.kinds, Chain(catal), PlanFor(docs, C, Inside(catal, External(pub, sys)));
            var bySys := sys.Some? && SaysBy(K, c, BySystem, sys.value) != Silent;
            var byPub := pub.Some? && SaysBy(K, c, ByPublic, pub.value) != Silent;
            && (bySys ==> p == PlanFor(docs, C, Inside(catal, External(None, sys))))
            && (!bySys && byPub ==> p == PlanFor(docs, C, Inside(catal, External(pub, None))))
            && (!bySys && !byPub ==>
                  p == Instead(C, if sys.None? && pub.None? then Return(NotFound)
                               else InNext(catal, c, External(pub, sys))))
  {
    hide SaysBy, Chain;
    var c, q := Chain(catal), External(pub, sys);
    var second := if pub.Some? then [(ByPublic, pub.value)] else [];
    assert second == Halves(External(pub, None)) && ListPlan(C, catal, [], q) == Instead(C, InNext(catal, c, q));
    if sys.Some? {
      assert Halves(q) == [(BySystem, sys.value)] + second &&
             Halves(External(None, sys)) == [(BySystem, sys.value)] + [];
      PlanHead(C, catal, BySystem, sys.value, second, q);
      PlanHead(C, catal, BySystem, sys.value, [], External(None, sys));
    } else {
      assert Halves(q) == second;
    }
    if pub.Some? {
      assert second == [(ByPublic, pub.value)] + [];
      PlanHead(C, catal, ByPublic, pub.value, [], q);
      PlanHead(C, catal, ByPublic, pub.value, [], External(pub, None));
    }
    hide ListPlan;
  }

  lemma PlanHead(C: State, catal: Entry, mode: Mode, id: seq<byte>, rest: seq<(Mode, seq<byte>)>, q: Query)
    ensures var v, p := SaysBy(C.kinds, Chain(catal), mode, id), ListPlan(C, catal, [(mode, id)] + rest, q);
            && (v.Answer? ==> p == Instead(C, Return(v.found)))
            && (v.Delegated? ==> p == First(C, InDelegates(Chain(catal), mode, id, []), None, false, Return(Break)))
            && (v.Silent? ==> p == ListPlan(C, catal, rest, q))
  {
    hide SaysBy, Chain;
    assert ([(mode, id)] + rest)[1..] == rest;
  }

  /** Jobs with the same plan have the same outcome. */
  lemma SamePlan(docs: Docs, C: State, t: Job, t': Job, o: Outcome)
    requires !t.Return? && !t'.Return? && Ends(Guarded, docs, C, t, o) && PlanFor(docs, C, t') == PlanFor(docs, C, t)
    ensures Ends(Guarded, docs, C, t', o)
  {
    hide PlanFor;
    var n: nat :| Exec(n, Guarded, docs, C, t) == Some(o);
    assert Exec(n, Guarded, docs, C, t') == Some(o);
  }

  lemma {:induction false} NoNext(docs: Docs, C: State, catal: Entry, c: seq<Entry>, i: nat, q: Query)
    requires i <= |c| && !HasNext(C.kinds, c)
    ensures Ends(Guarded, docs, C, InNext(catal, c[i..], q), Outcome(NotFound, false, C))
    decreases |c| - i
  {
    hide PlanFor, Ends, Leads;
    NextPlan(docs, C, catal, c, i, q);
    if i < |c| {
      Skip(docs, C, InNext(catal, c[i..], q), C, InNext(catal, c[i + 1..], q));
      NoNext(docs, C, catal, c, i + 1, q);
      LeadsTo(docs, C, InNext(catal, c[i..], q), C, InNext(catal, c[i + 1..], q), Outcome(NotFound, false, C));
    } else {
      Finish(docs, C, InNext(catal, c[i..], q), NotFound);
    }
  }

  /** Nothing is decided by the list, and there are no next catalogs. */
  lemma NothingFound(docs: Docs, C: State, catal: Entry, q: Query)
    requires PlanFor(docs, C, Inside(catal, q)) == Instead(C, Return(NotFound)) ||
             (PlanFor(docs, C, Inside(catal, q)) == Instead(C, InNext(catal, Chain(catal), q)) &&
              !HasNext(C.kinds, Chain(catal)))
    ensures Ends(Guarded, docs, C, Inside(catal, q), Outcome(NotFound, false, C))
  {
    hide PlanFor, HasNext, Chain, Ends, Leads;
    var t, c := Inside(catal, q), Chain(catal);
    if PlanFor(docs, C, t) == Instead(C, Return(NotFound)) {
      Finish(docs, C, t, NotFound);
    } else {
      Skip(docs, C, t, C, InNext(catal, c, q));
      NoNext(docs, C, catal, c, 0, q);
      assert c[0..] == c;
      LeadsTo(docs, C, t, C, InNext(catal, c, q), Outcome(NotFound, false, C));
    }
  }

  /** What follows the check of the depth counter in xmlCatalogXMLResolve. */
  method InsideList(w: Catalogs, catal: Entry, pubID: Id, sysID: Id) returns (ret: Found, limit: bool)
    requires w.Valid() && catal in w.entries && Canonical(External(pubID, sysID))
    modifies w, w.Objects()
    ensures w.Valid() && AtLeast(old(w.Depths()), w.Depths())
    ensures Ends(Guarded, w.docs, old(w.Now()), Inside(catal, External(pubID, sysID)), Outcome(ret, limit, w.Now()))
    decreases w.Budget(), QueryMeasure(External(pubID, sysID)), 6
  {
    ghost var docs, C, q := w.docs, w.Now(), External(pubID, sysID);
    ghost var t, next := Inside(catal, q), InNext(catal, Chain(catal), q);
    hide Canon, QueryMeasure, Reduce, HasUrn, DepthsOf, Remaining, SaysBy, Chain, HasNext, Ends, PlanFor, w.Valid,
         w.Now, w.Kinds, Leads;
    CanonicalParts(pubID, sysID);
    PartsMeasure(pubID, sysID);
    ExternalPlan(docs, C, catal, pubID, sysID);
    SameDepths(w.Depths());
    var done, haveNext := false, false;
    ret, limit := NotFound, false;
    if sysID.Some? {
      done, ret, haveNext := TryId(w, catal, BySystem, sysID.value);
      if done {
        SamePlan(docs, C, Inside(catal, External(None, sysID)), t, Outcome(ret, false, w.Now()));
        return;
      }
    }
    if pubID.Some? {
      var next;
      done, ret, next := TryId(w, catal, ByPublic, pubID.value);
      if done {
        SamePlan(docs, C, Inside(catal, External(pubID, None)), t, Outcome(ret, false, w.Now()));
        return;
      }
      haveNext := haveNext || (sysID.None? && next);
    }
    if haveNext {
      Skip(docs, C, t, C, next);
      ret, limit := TryNext(w, catal, External(pubID, sysID));
      LeadsTo(docs, C, t, C, next, Outcome(ret, limit, w.Now()));
    } else {
      ret := NotFound;
      NothingFound(docs, C, catal, q);
    }
  }

  lemma PartsMeasure(pub: Id, sys: Id)
    ensures QueryMeasure(External(None, sys)) <= QueryMeasure(External(pub, sys))
    ensures QueryMeasure(External(pub, None)) <= QueryMeasure(External(pub, sys))
  {
  }

  /** xmlCatalogXMLResolve: ends on all catalogs, with the outcome of the machine with counters. */
  method XMLResolve(w: Catalogs, catal: Entry, pubID: Id, sysID: Id) returns (ret: Found)
    requires w.Valid() && catal in w.entries && Canonical(External(pubID, sysID))
    modifies w, w.Objects()
    ensures w.Valid() && AtLeast(old(w.Depths()), w.Depths())
    ensures Ends(Guarded, w.docs, old(w.Now()), InList(catal, External(pubID, sysID)), Outcome(ret, false, w.Now()))
    decreases w.Budget(), QueryMeasure(External(pubID, sysID)), 0
  {
    hide Canon, QueryMeasure, Reduce, HasUrn, DepthsOf, Remaining, Chain, w.Valid, w.Now, Ends, w.Raised, AtLeast;
    ghost var docs, C, before, q := w.docs, w.Now(), w.Depths(), External(pubID, sysID);
    w.Seen(catal);
    SameDepths(before);
    if catal.depth > MAX_CATAL_DEPTH {
      FailCheck(docs, C, InList(catal, q), catal, true, Inside(catal, q));
      return NotFound;
    }
    w.Enter(catal);
    ghost var raised := w.Depths();
    var limit;
    ret, limit := InsideList(w, catal, pubID, sysID);
    PassCheck(docs, C, InList(catal, q), catal, true, Inside(catal, q), Outcome(ret, limit, w.Now()));
    if limit {
      LeftHigher(w, before, raised, w.Depths(), catal);
      w.Leak(catal);
    } else {
      w.Leave(catal, before, raised);
    }
  }

  /** On the path that gives up at the limit, the counter is not taken back. */
  lemma LeftHigher(w: Catalogs, before: seq<nat>, raised: seq<nat>, after: seq<nat>, catal: Entry)
    requires w.Raised(before, raised, catal) && AtLeast(raised, after)
    ensures AtLeast(before, after)
  {
  }

  /** xmlCatalogXMLResolveURI */
  method XMLResolveURI(w: Catalogs, catal: Entry, uri: seq<byte>) returns (ret: Found)
    requires w.Valid() && catal in w.entries && Canonical(Reference(uri))
    modifies w, w.Objects()
    ensures w.Valid() && AtLeast(old(w.Depths()), w.Depths())
    ensures Ends(Guarded, w.docs, old(w.Now()), InList(catal, Reference(uri)), Outcome(ret, false, w.Now()))
    decreases w.Budget(), QueryMeasure(Reference(uri)), 6
  {
    ghost var docs, C, q := w.docs, w.Now(), Reference(uri);
    ghost var t, next := Inside(catal, q), InNext(catal, Chain(catal), q);
    hide Canon, QueryMeasure, Reduce, HasUrn, DepthsOf, Remaining, SaysBy, Chain, HasNext, Ends, PlanFor, w.Valid,
         w.Now, w.Kinds, Leads;
    w.Seen(catal);
    SameDepths(w.Depths());
    ListCheck(docs, C, catal, q);
    ret := NotFound;
    if catal.depth > MAX_CATAL_DEPTH {
      FailCheck(docs, C, InList(catal, q), catal, false, t);
      return;
    }
    IdPlan(docs, C, catal, ByUri, uri);
    var done, haveNext;
    done, ret, haveNext := TryId(w, catal, ByUri, uri);
    if !done {
      ret := NotFound;
      if haveNext {
        var limit;
        Skip(docs, C, t, C, next);
        ret, limit := TryNext(w, catal, Reference(uri));
        LeadsTo(docs, C, t, C, next, Outcome(ret, false, w.Now()));
      } else {
        NothingFound(docs, C, catal, q);
      }
    }
    PassCheck(docs, C, InList(catal, q), catal, false, t, Outcome(ret, false, w.Now()));
  }

  lemma ListCheck(docs: Docs, C: State, catal: Entry, q: Query)
    ensures PlanFor(docs, C, InList(catal, q)) == Checked(catal, q.External?, Inside(catal, q))
  {
  }

  // --- Lists of catalogs ----------------------------------------------------------------------------------

  /** The list of entries behind a catalog, searched if it is there. */
  method VisitHead(w: Catalogs, cur: Entry, q: Query) returns (child: Entry?, ret: Found)
    requires w.Valid() && Canonical(q) && cur in w.entries
    modifies w, w.Objects()
    ensures w.Valid() && AtLeast(old(w.Depths()), w.Depths()) && (child == null ==> ret == NotFound)
    ensures Headed(w.docs, old(w.Now()), cur, q, child, ret, w.Now()) && (child != null ==> child in w.entries)
    decreases w.Budget(), QueryMeasure(q), if q.External? then 1 else 7, 0
  {
    hide Canon, QueryMeasure, Reduce, HasUrn, DepthsOf, Remaining, Chain, w.Valid, Ends, Loaded, w.Now;
    SameDepths(w.Depths());
    child := w.ChildOf(cur);
    ret := NotFound;
    if child != null {
      match q {
        case External(pub, sys) => ret := XMLResolve(w, child, pub, sys);
        case Reference(u) => ret := XMLResolveURI(w, child, u);
      }
    }
  }

  /** The loops of xmlCatalogListXMLResolve and xmlCatalogListXMLResolveURI (catalog.c:2020-2036,
      2087-2102). */
  method SearchLists(w: Catalogs, catal: Entry, q: Query) returns (ret: Found)
    requires w.Valid() && catal in w.entries && Canonical(q)
    modifies w, w.Objects()
    ensures w.Valid() && AtLeast(old(w.Depths()), w.Depths())
    ensures Ends(Guarded, w.docs, old(w.Now()), InLists(Chain(catal), q), Outcome(ret, false, w.Now()))
    decreases w.Budget(), QueryMeasure(q), if q.External? then 1 else 7, 1
  {
    hide Canon, QueryMeasure, Reduce, HasUrn, DepthsOf, Remaining, Chain, IsList, w.Valid, Ends, Headed, PlanFor, Leads,
         w.Now, Loaded;
    ghost var docs, C0, c, i, before := w.docs, w.Now(), Chain(catal), 0, w.Depths();
    ghost var t0 := InLists(c, q);
    var cur: Entry? := catal;
    ChainIsList(w, catal);
    NextInList(w.entries, c, catal, 0);
    LeadsHere(docs, C0, t0);
    SameDepths(before);
    assert c[0..] == c;
    while cur != null
      invariant 0 <= i <= |c| && cur == if i < |c| then c[i] else null
      invariant w.Valid() && AtLeast(before, w.Depths())
      invariant Leads(docs, C0, t0, w.Now(), InLists(c[i..], q))
      decreases |c| - i
    {
      NextInList(w.entries, c, catal, i);
      w.Seen(cur);
      ghost var C, during, t, next := w.Now(), w.Depths(), InLists(c[i..], q), InLists(c[i + 1..], q);
      ListsPlan(docs, C, c, i, q);
      if cur.kind == CatalogList {
        RemainingShrinks(before, during);
        var child;
        child, ret := VisitHead(w, cur, q);
        HeadIs(docs, C, cur, q, child, ret, w.Now());
        StillAtLeast(before, during, w.Depths());
        AfterHead(docs, C, t, cur, q, next, child, ret, w.Now());
        if child != null {
          w.Seen(child);
          if ret != NotFound || (q.External? && child.depth > MAX_CATAL_DEPTH) {
            LeadsTo(docs, C0, t0, C, t, Outcome(ret, false, w.Now()));
            return;
          }
        }
      } else {
        Skip(docs, C, t, C, next);
      }
      LeadsOn(docs, C0, t0, C, t, w.Now(), next);
      cur := cur.next;
      i := i + 1;
    }
    ret := NotFound;
    ListsPlan(docs, w.Now(), c, |c|, q);
    Finish(docs, w.Now(), InLists(c[i..], q), NotFound);
    LeadsTo(docs, C0, t0, w.Now(), InLists(c[i..], q), Outcome(ret, false, w.Now()));
  }

  lemma HeadIs(docs: Docs, C: State, cur: Entry, q: Query, child: Entry?, ret: Found, C': State)
    requires Headed(docs, C, cur, q, child, ret, C')
    ensures child == ChildIn(Loaded(docs, C, cur), cur)
  {
  }

  lemma CanonStep(q: Query)
    ensures Canon(q) == if HasUrn(q) then Canon(Reduce(q)) else Reduce(q)
  {
    ReduceFalls(q);
  }

  /** What remains after a round without a URN is canonical. */
  lemma ReducedIsCanonical(q: Query)
    requires !HasUrn(q)
    ensures Canonical(Reduce(q))
  {
    CanonIsCanonical(q);
  }

  /** xmlCatalogListXMLResolve: ends on all catalogs, cyclic ones included, with the outcome that the
      machine with counters has for the canonical form of the identifiers. */
  method ListXMLResolve(w: Catalogs, catal: Entry, pubID: Id, sysID: Id) returns (ret: Found)
    requires w.Valid() && catal in w.entries
    modifies w, w.Objects()
    ensures w.Valid() && AtLeast(old(w.Depths()), w.Depths())
    ensures Ends(Guarded, w.docs, old(w.Now()), ListsJob(catal, External(pubID, sysID)), Outcome(ret, false, w.Now()))
    decreases w.Budget(), QueryMeasure(External(pubID, sysID)), 2
  {
    hide Canon, QueryMeasure, Reduce, HasUrn, IsUrn, Unwrapped, NormalId, Canonical, Chain, w.Valid, Ends, DepthsOf,
         Remaining, w.Now, AtLeast, ListsJob;
    ghost var q := External(pubID, sysID);
    ReduceFalls(q);
    RoundIs(catal, pubID, sysID);
    if pubID.None? && sysID.None? {
      SameDepths(w.Depths());
      Returns(w.docs, w.Now(), NotFound);
      return NotFound;
    }
    var pub := Normalized(pubID);
    if IsUrn(pub) {
      var urnID := Unwrap(pub);
      ret := ListXMLResolve(w, catal, urnID, sysID);
    } else if IsUrn(sysID) {
      var urnID := Unwrap(sysID);
      if pub.None? {
        ret := ListXMLResolve(w, catal, urnID, None);
      } else if pub == urnID {
        ret := ListXMLResolve(w, catal, pub, None);
      } else {
        ret := ListXMLResolve(w, catal, pub, urnID);
      }
    } else {
      ReducedIsCanonical(q);
      ret := SearchLists(w, catal, External(pub, sysID));
    }
  }

  /** One round of xmlCatalogListXMLResolve on its identifiers. */
  lemma RoundIs(catal: Entry, pubID: Id, sysID: Id)
    ensures var q, pub := External(pubID, sysID), NormalId(pubID);
            if pubID.None? && sysID.None? then ListsJob(catal, q) == Return(NotFound)
            else if IsUrn(pub) || IsUrn(sysID) then
              && HasUrn(q) && ListsJob(catal, Reduce(q)) == ListsJob(catal, q)
              && Reduce(q) == if IsUrn(pub) then External(Unwrapped(pub), sysID)
                              else if pub.None? then External(Unwrapped(sysID), None)
                              else if pub == Unwrapped(sysID) then External(pub, None)
                              else External(pub, Unwrapped(sysID))
            else
              && !HasUrn(q) && Reduce(q) == External(pub, sysID)
              && ListsJob(catal, q) == InLists(Chain(catal), External(pub, sysID))
  {
    hide Expand, HasPrefix, Collapse, Canon, Chain;
    CanonStep(External(pubID, sysID));
  }

  method Unwrap(id: Id) returns (urn: Id)
    requires IsUrn(id)
    ensures urn == Unwrapped(id)
  {
    urn := UnWrapURN(id.value);
  }

  /** The public identifier as the lookup uses it (catalog.c:1976-1978). */
  method Normalized(pubID: Id) returns (pub: Id)
    ensures pub == NormalId(pubID)
  {
    pub := pubID;
    if pubID.Some? {
      var normid := NormalizePublic(pubID.value);
      if normid.Some? {
        pub := if normid.value != [] then normid else None;
      }
    }
  }

  /** What follows the check of the depth counter in xmlCatalogListXMLResolveURI. */
  method InsideLists(w: Catalogs, catal: Entry, uri: seq<byte>) returns (ret: Found)
    requires w.Valid() && catal in w.entries
    modifies w, w.Objects()
    ensures w.Valid() && AtLeast(old(w.Depths()), w.Depths())
    ensures Ends(Guarded, w.docs, old(w.Now()), InLists(Chain(catal), Canon(Reference(uri))),
                 Outcome(ret, false, w.Now()))
    decreases w.Budget(), QueryMeasure(Reference(uri)), 8
  {
    hide Canon, QueryMeasure, Reduce, HasUrn, IsUrn, Unwrapped, NormalId, Canonical, Chain, w.Valid, Ends, DepthsOf,
         Remaining, w.Now, AtLeast, ListsJob;
    UriRoundIs(catal, uri);
    if IsUrn(Some(uri)) {
      var urnID := Unwrap(Some(uri));
      ret := ListXMLResolve(w, catal, urnID, None);
    } else {
      ret := SearchLists(w, catal, Reference(uri));
    }
  }

  lemma UriRoundIs(catal: Entry, uri: seq<byte>)
    ensures IsUrn(Some(uri)) ==>
              && ListsJob(catal, External(Unwrapped(Some(uri)), None)) == InLists(Chain(catal), Canon(Reference(uri)))
              && QueryMeasure(External(Unwrapped(Some(uri)), None)) < QueryMeasure(Reference(uri))
    ensures !IsUrn(Some(uri)) ==> Canonical(Reference(uri)) && Canon(Reference(uri)) == Reference(uri)
  {
    CanonStep(Reference(uri));
    ReduceFalls(Reference(uri));
    hide Expand, HasPrefix, Canon, QueryMeasure, Chain;
  }

  /** xmlCatalogListXMLResolveURI: the same for URI references. */
  method ListXMLResolveURI(w: Catalogs, catal: Entry, uri: seq<byte>) returns (ret: Found)
    requires w.Valid() && catal in w.entries
    modifies w, w.Objects()
    ensures w.Valid() && AtLeast(old(w.Depths()), w.Depths())
    ensures Ends(Guarded, w.docs, old(w.Now()), UriLists(catal, uri), Outcome(ret, false, w.Now()))
    decreases w.Budget(), QueryMeasure(Reference(uri)), 2
  {
    hide Canon, QueryMeasure, DepthsOf, Remaining, Chain, w.Valid, w.Now, Ends, w.Raised, AtLeast;
    ghost var docs, C, before, t := w.docs, w.Now(), w.Depths(), UriLists(catal, uri);
    ghost var body := InLists(Chain(catal), Canon(Reference(uri)));
    w.Seen(catal);
    SameDepths(before);
    if catal.depth > MAX_CATAL_DEPTH {
      FailCheck(docs, C, t, catal, true, body);
      return NotFound;
    }
    w.Enter(catal);
    ghost var raised := w.Depths();
    ret := InsideLists(w, catal, uri);
    PassCheck(docs, C, t, catal, true, body, Outcome(ret, false, w.Now()));
    w.Leave(catal, before, raised);
  }
}
