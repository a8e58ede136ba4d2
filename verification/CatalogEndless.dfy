/** Which resolutions the depth counters stop: once the lists are loaded, exactly those that would not
    end without them. */
module CatalogEndless {
  import opened Bytes
  import opened CatalogQuery
  import opened CatalogStore
  import opened CatalogRules
  import opened CatalogLimits
  import opened CatalogAnswers

  // --- Loaded catalogs --------------------------------------------------------------------------------

  /** The kinds of entries that refer to other lists. */
  predicate Refers(kind: Kind) {
    kind == CatalogList || kind == NextCatalog ||
    kind == DelegatePublic || kind == DelegateSystem || kind == DelegateUri
  }

  /** A set of entries with everything that they refer to, and nothing of it has to be loaded. */
  ghost predicate Closed(docs: Docs, C: State, R: set<Entry>) {
    forall e :: e in R ==> ClosedAt(docs, C, R, e)
  }

  ghost predicate ClosedAt(docs: Docs, C: State, R: set<Entry>, e: Entry) {
    && (e.next != null ==> e.next in R)
    && (ChildIn(C, e) != null ==> ChildIn(C, e) in R)
    && (Refers(KindIn(C.kinds, e)) ==> Loaded(docs, C, e) == C)
  }

  ghost predicate AllIn(c: seq<Entry>, R: set<Entry>) { forall e :: e in c ==> e in R }

  /** The lists of a job are in the set. */
  ghost predicate Within(t: Job, R: set<Entry>) {
    match t
    case Return(_) => true
    case UriLists(catal, _) => catal in R
    case InList(catal, _) => catal in R
    case Inside(catal, _) => catal in R
    case InLists(rest, _) => AllIn(rest, R)
    case InDelegates(rest, _, _, _) => AllIn(rest, R)
    case InNext(catal, rest, _) => catal in R && AllIn(rest, R)
  }

  ghost predicate PlanWithin(C: State, p: Plan, R: set<Entry>) {
    match p
    case Instead(C1, t1) => C1 == C && Within(t1, R)
    case Checked(e, _, body) => e in R && Within(body, R)
    case First(C1, sub, stop, _, next) =>
      C1 == C && Within(sub, R) && Within(next, R) && (stop.Some? ==> stop.value in R)
  }

  lemma {:induction false} ChainWithin(docs: Docs, C: State, R: set<Entry>, catal: Entry)
    requires Closed(docs, C, R) && catal in R
    ensures AllIn(Chain(catal), R)
    decreases catal.rank
  {
    assert ClosedAt(docs, C, R, catal);
    if !(catal.next == null || catal.next.rank >= catal.rank) {
      ChainWithin(docs, C, R, catal.next);
    }
  }

  lemma {:induction false} ListPlanWithin(docs: Docs, C: State, R: set<Entry>, catal: Entry,
                                          halves: seq<(Mode, seq<byte>)>, q: Query)
    requires Closed(docs, C, R) && catal in R
    ensures PlanWithin(C, ListPlan(C, catal, halves, q), R)
    decreases |halves|
  {
    hide SaysBy, Chain, Closed, AllIn;
    ChainWithin(docs, C, R, catal);
    if halves != [] {
      ListPlanWithin(docs, C, R, catal, halves[1..], q);
    }
  }

  /** Where a job looks behind an entry, nothing has to be loaded. */
  lemma HeadLoaded(docs: Docs, C: State, R: set<Entry>, rest: seq<Entry>)
    requires Closed(docs, C, R) && rest != [] && AllIn(rest, R)
    ensures Refers(KindIn(C.kinds, rest[0])) ==> Loaded(docs, C, rest[0]) == C
    ensures ChildIn(C, rest[0]) != null ==> ChildIn(C, rest[0]) in R
    ensures AllIn(rest[1..], R)
  {
    hide Loaded;
    assert ClosedAt(docs, C, R, rest[0]);
  }

  lemma TriedRefers(C: State, e: Entry, mode: Mode, id: seq<byte>, tried: seq<Id>)
    ensures TriesDelegate(C, e, mode, id, tried) ==> Refers(KindIn(C.kinds, e))
  {
  }

  lemma ListsWithin(docs: Docs, C: State, R: set<Entry>, child: Entry, q: Query)
    requires Closed(docs, C, R) && child in R
    ensures Within(ListsJob(child, q), R)
  {
    hide Canon, Chain, Closed;
    ChainWithin(docs, C, R, child);
  }

  lemma JobPlanWithin(docs: Docs, C: State, t: Job, R: set<Entry>)
    requires Closed(docs, C, R) && Within(t, R)
    ensures PlanWithin(C, PlanFor(docs, C, t), R)
  {
    hide SaysBy, Chain, Closed, AllIn, Loaded, ListsJob, ListPlan, Canon, TriesDelegate, KindIn, ChildIn;
    match t
    case Return(_) =>
    case UriLists(catal, _) => ChainWithin(docs, C, R, catal);
    case InList(_, _) =>
    case Inside(catal, q) => ListPlanWithin(docs, C, R, catal, Halves(q), q);
    case InLists(rest, q) => if rest != [] { RestWithin(docs, C, t, rest, R); }
    case InNext(_, rest, q) => if rest != [] { RestWithin(docs, C, t, rest, R); }
    case InDelegates(rest, mode, id, tried) => if rest != [] { RestWithin(docs, C, t, rest, R); }
  }

  lemma RestWithin(docs: Docs, C: State, t: Job, rest: seq<Entry>, R: set<Entry>)
    requires Closed(docs, C, R) && Within(t, R) && rest != []
    requires (t.InLists? || t.InNext? || t.InDelegates?) && rest == t.rest
    ensures PlanWithin(C, PlanFor(docs, C, t), R)
  {
    hide Chain, Closed, AllIn, Loaded, ListsJob, Canon, TriesDelegate, KindIn, ChildIn, Remember;
    HeadLoaded(docs, C, R, rest);
    var child := ChildIn(C, rest[0]);
    if t.InDelegates? {
      TriedRefers(C, rest[0], t.mode, t.id, t.tried);
      if child != null {
        ListsWithin(docs, C, R, child, QueryOf(t.mode, t.id));
      }
    } else if child != null {
      ListsWithin(docs, C, R, child, t.q);
    }
  }

  // --- Counters are not seen ------------------------------------------------------------------------------

  /** The same catalogs, with other counters. */
  ghost predicate Same(C: State, C': State) { C'.kinds == C.kinds && C'.child == C.child && C'.files == C.files }

  lemma ClosedSame(docs: Docs, C: State, C': State, R: set<Entry>)
    requires Closed(docs, C, R) && Same(C, C')
    ensures Closed(docs, C', R)
  {
    forall e | e in R
      ensures ClosedAt(docs, C', R, e)
    {
      assert ClosedAt(docs, C, R, e);
      LoadedSame(docs, C, C', e);
    }
  }

  lemma LoadedSame(docs: Docs, C: State, C': State, e: Entry)
    requires Same(C, C')
    ensures Loaded(docs, C, e) == C ==> Loaded(docs, C', e) == C'
  {
  }

  ghost function Moved(p: Plan, C: State): Plan {
    match p
    case Instead(_, t1) => Instead(C, t1)
    case Checked(_, _, _) => p
    case First(_, sub, stop, leak, next) => First(C, sub, stop, leak, next)
  }

  lemma {:induction false} ListPlanSame(C: State, C': State, catal: Entry, halves: seq<(Mode, seq<byte>)>, q: Query)
    requires Same(C, C')
    ensures ListPlan(C', catal, halves, q) == Moved(ListPlan(C, catal, halves, q), C')
    decreases |halves|
  {
    hide SaysBy, Chain;
    if halves != [] {
      ListPlanSame(C, C', catal, halves[1..], q);
    }
  }

  lemma PlanSame(docs: Docs, C: State, C': State, t: Job, R: set<Entry>)
    requires Closed(docs, C, R) && Same(C, C') && Within(t, R)
    ensures PlanFor(docs, C', t) == Moved(PlanFor(docs, C, t), C')
  {
    hide SaysBy, Chain, Closed, AllIn, Loaded, ListsJob, ListPlan, Canon, TriesDelegate;
    match t
    case Return(_) =>
    case UriLists(_, _) =>
    case InList(_, _) =>
    case Inside(catal, q) => ListPlanSame(C, C', catal, Halves(q), q);
    case InLists(rest, _) => if rest != [] { RestSame(docs, C, C', t, rest, R); }
    case InNext(_, rest, _) => if rest != [] { RestSame(docs, C, C', t, rest, R); }
    case InDelegates(rest, _, _, _) => if rest != [] { RestSame(docs, C, C', t, rest, R); }
  }

  lemma RestSame(docs: Docs, C: State, C': State, t: Job, rest: seq<Entry>, R: set<Entry>)
    requires Closed(docs, C, R) && Same(C, C') && Within(t, R) && rest != []
    requires (t.InLists? || t.InNext? || t.InDelegates?) && rest == t.rest
    ensures PlanFor(docs, C', t) == Moved(PlanFor(docs, C, t), C')
  {
    hide Chain, Closed, AllIn, Loaded, ListsJob, Canon, Delegates;
    ClosedSame(docs, C, C', R);
    HeadLoaded(docs, C, R, rest);
    HeadLoaded(docs, C', R, rest);
    if t.InDelegates? {
      TriedRefers(C, rest[0], t.mode, t.id, t.tried);
    }
  }

  /** The outcomes of a job with the same catalogs and other counters. */
  ghost predicate Alike(C: State, r: Option<Outcome>, r': Option<Outcome>) {
    && (r.Some? <==> r'.Some?)
    && (r.Some? ==> r.value.ret == r'.value.ret && Same(C, r.value.state) && Same(C, r'.value.state))
  }

  /** A step without limits. */
  lemma StepChecked(n: nat, docs: Docs, C: State, t: Job, e: Entry, enter: bool, body: Job)
    requires n > 0 && !t.Return? && PlanFor(docs, C, t) == Checked(e, enter, body)
    ensures var r := Exec(n - 1, Unguarded, docs, if enter then Entered(C, e) else C, body);
            Exec(n, Unguarded, docs, C, t) == if r.None? then None else Some(Leaving(e, enter, r.value))
  {
    hide PlanFor, Leaving, Entered;
  }

  lemma StepFirst(n: nat, docs: Docs, C: State, t: Job, sub: Job, stop: Option<Entry>, leak: bool, next: Job)
    requires n > 0 && !t.Return? && PlanFor(docs, C, t) == First(C, sub, stop, leak, next)
    ensures var r := Exec(n - 1, Unguarded, docs, C, sub);
            Exec(n, Unguarded, docs, C, t) ==
            if r.None? then None
            else if r.value.ret != NotFound then Some(Outcome(r.value.ret, false, r.value.state))
            else Exec(n - 1, Unguarded, docs, r.value.state, next)
  {
    hide PlanFor;
  }

  lemma EnteredSame(C: State, C': State, e: Entry, enter: bool)
    requires Same(C, C')
    ensures Same(C, if enter then Entered(C, e) else C)
    ensures Same(if enter then Entered(C, e) else C, if enter then Entered(C', e) else C')
  {
  }

  lemma LeavingAlike(C: State, C1: State, e: Entry, enter: bool, r: Option<Outcome>, r': Option<Outcome>)
    requires Same(C, C1) && Alike(C1, r, r')
    ensures Alike(C, if r.None? then None else Some(Leaving(e, enter, r.value)),
                     if r'.None? then None else Some(Leaving(e, enter, r'.value)))
  {
  }

  lemma AlikeLater(C: State, C1: State, r: Option<Outcome>, r': Option<Outcome>)
    requires Same(C, C1) && Alike(C1, r, r')
    ensures Alike(C, r, r')
  {
  }

  lemma AlikeSub(C: State, r: Option<Outcome>, r': Option<Outcome>)
    requires Alike(C, r, r')
    ensures r.Some? <==> r'.Some?
    ensures r.Some? ==> r.value.ret == r'.value.ret && Same(C, r.value.state) && Same(r.value.state, r'.value.state)
    ensures r.Some? ==> Alike(C, Some(Outcome(r.value.ret, false, r.value.state)),
                                 Some(Outcome(r'.value.ret, false, r'.value.state)))
  {
  }

  /** Without limits, counters change neither whether a job ends nor how. */
  lemma {:induction false} ExecSame(n: nat, docs: Docs, C: State, C': State, t: Job, R: set<Entry>)
    requires Closed(docs, C, R) && Same(C, C') && Within(t, R)
    ensures Alike(C, Exec(n, Unguarded, docs, C, t), Exec(n, Unguarded, docs, C', t))
    decreases n
  {
    hide PlanFor, Closed, Within, Same, Alike, Leaving, Entered, Exec;
    if t.Return? || n == 0 {
      AtOnce(n, docs, C, C', t);
    } else {
      PlanSame(docs, C, C', t, R);
      JobPlanWithin(docs, C, t, R);
      match PlanFor(docs, C, t)
      case Instead(C1, t1) =>
        ExecSame(n - 1, docs, C, C', t1, R);
        StepInstead(n, docs, C, t, t1);
        StepInstead(n, docs, C', t, t1);
      case Checked(e, enter, body) =>
        var C1, C1' := if enter then Entered(C, e) else C, if enter then Entered(C', e) else C';
        EnteredSame(C, C', e, enter);
        ClosedSame(docs, C, C1, R);
        ExecSame(n - 1, docs, C1, C1', body, R);
        StepChecked(n, docs, C, t, e, enter, body);
        StepChecked(n, docs, C', t, e, enter, body);
        LeavingAlike(C, C1, e, enter, Exec(n - 1, Unguarded, docs, C1, body), Exec(n - 1, Unguarded, docs, C1', body));
      case First(C1, sub, stop, leak, next) =>
        ExecSame(n - 1, docs, C, C', sub, R);
        var o, o' := Exec(n - 1, Unguarded, docs, C, sub), Exec(n - 1, Unguarded, docs, C', sub);
        AlikeSub(C, o, o');
        StepFirst(n, docs, C, t, sub, stop, leak, next);
        StepFirst(n, docs, C', t, sub, stop, leak, next);
        if o.None? {
          AlikeNone(C);
        } else if o.value.ret == NotFound {
          var D, D' := o.value.state, o'.value.state;
          ClosedSame(docs, C, D, R);
          ExecSame(n - 1, docs, D, D', next, R);
          AlikeLater(C, D, Exec(n - 1, Unguarded, docs, D, next), Exec(n - 1, Unguarded, docs, D', next));
        }
    }
  }

  lemma AlikeNone(C: State)
    ensures Alike(C, None, None)
  {
  }

  lemma AtOnce(n: nat, docs: Docs, C: State, C': State, t: Job)
    requires (t.Return? || n == 0) && Same(C, C')
    ensures Alike(C, Exec(n, Unguarded, docs, C, t), Exec(n, Unguarded, docs, C', t))
  {
  }

  lemma StepInstead(n: nat, docs: Docs, C: State, t: Job, t1: Job)
    requires n > 0 && !t.Return? && PlanFor(docs, C, t) == Instead(C, t1)
    ensures Exec(n, Unguarded, docs, C, t) == Exec(n - 1, Unguarded, docs, C, t1)
  {
    hide PlanFor;
  }

  // --- How deep a resolution goes that ends -------------------------------------------------------------------

  lemma {:induction false} PeakMore(m: nat, n: nat, docs: Docs, C: State, t: Job)
    requires Exec(m, Unguarded, docs, C, t).Some? && m <= n
    ensures Peak(n, docs, C, t) == Peak(m, docs, C, t)
    decreases m
  {
    hide PlanFor, Leaving, Entered;
    if !t.Return? {
      match PlanFor(docs, C, t)
      case Instead(C1, t1) => PeakMore(m - 1, n - 1, docs, C1, t1);
      case Checked(e, enter, body) => PeakMore(m - 1, n - 1, docs, if enter then Entered(C, e) else C, body);
      case First(C1, sub, stop, leak, next) =>
        PeakMore(m - 1, n - 1, docs, C1, sub);
        ExecMore(m - 1, n - 1, Unguarded, docs, C1, sub);
        var o := Exec(m - 1, Unguarded, docs, C1, sub).value;
        if o.ret == NotFound {
          PeakMore(m - 1, n - 1, docs, o.state, next);
        }
    }
  }

  lemma TakesSteps(n: nat, docs: Docs, C: State, t: Job)
    requires Exec(n, Unguarded, docs, C, t).Some? && !t.Return?
    ensures n > 0
  {
  }

  /** The fewest steps in which a job ends. */
  lemma {:induction false} Fewest(n: nat, docs: Docs, C: State, t: Job) returns (m: nat)
    requires Exec(n, Unguarded, docs, C, t).Some? && !t.Return?
    ensures 0 < m <= n && Exec(m, Unguarded, docs, C, t).Some? && Exec(m - 1, Unguarded, docs, C, t).None?
  {
    TakesSteps(n, docs, C, t);
    hide Exec;
    if Exec(n - 1, Unguarded, docs, C, t).None? {
      m := n;
    } else {
      m := Fewest(n - 1, docs, C, t);
    }
  }

  /** How many jobs a list can be entered for: a list of catalogs for the URI reference asked for, and
      a list of entries for the query or a part of it. */
  const ENTRANCES: nat := 5

  ghost function Bit(b: bool): nat { if b then 1 else 0 }

  ghost function OpenAt(open: set<Job>, e: Entry, q: Query, u: seq<byte>): (n: nat)
    ensures n <= ENTRANCES
  {
    Bit(UriLists(e, u) in open) + Bit(InList(e, q) in open) +
    if q.Reference? then 0
    else
      Bit(InList(e, External(q.pub, None)) in open) + Bit(InList(e, External(None, q.sys)) in open) +
      Bit(InList(e, External(None, None)) in open)
  }

  /** Every counter is at most so much above the number of jobs for which its list is open. */
  ghost predicate Counting(C: State, R: set<Entry>, open: set<Job>, q: Query, u: seq<byte>, base: nat) {
    forall e :: e in R ==> DepthIn(C, e) <= base + OpenAt(open, e, q, u)
  }

  /** No open job ends within so many steps. */
  ghost predicate Unfinished(n: nat, docs: Docs, C: State, R: set<Entry>, open: set<Job>) {
    forall a :: a in open ==> Within(a, R) && Exec(n, Unguarded, docs, C, a).None?
  }

  lemma UnfinishedOn(n: nat, m: nat, docs: Docs, C: State, C': State, R: set<Entry>, open: set<Job>)
    requires Unfinished(n, docs, C, R, open) && m <= n && Closed(docs, C, R) && Same(C, C')
    ensures Unfinished(m, docs, C', R, open)
  {
    hide Exec, Closed, Same, Within;
    forall a | a in open
      ensures Within(a, R) && Exec(m, Unguarded, docs, C', a).None?
    {
      if Exec(m, Unguarded, docs, C, a).Some? {
        ExecMore(m, n, Unguarded, docs, C, a);
      }
      ExecSame(m, docs, C, C', a, R);
      AlikeSub(C, Exec(m, Unguarded, docs, C, a), Exec(m, Unguarded, docs, C', a)) by {
        assert Alike(C, Exec(m, Unguarded, docs, C, a), Exec(m, Unguarded, docs, C', a));
      }
    }
  }

  lemma OpenAtMore(open: set<Job>, t: Job, q: Query, u: seq<byte>, e: Entry)
    requires t !in open && Asks(t, q)
    requires (t.UriLists? && t.uri == u) || (t.InList? && t.q.External?)
    ensures OpenAt(open + {t}, e, q, u) >= OpenAt(open, e, q, u) + if e == t.catal then 1 else 0
  {
    hide Canonical, Canon;
    if t.InList? && e == t.catal {
      assert t == InList(e, t.q) && PartOf(t.q, q);
      assert t.q == q || t.q == External(q.pub, None) || t.q == External(None, q.sys) || t.q == External(None, None);
    }
  }

  /** A list is entered for a job that is not open yet. */
  lemma EnterCounting(C: State, R: set<Entry>, open: set<Job>, t: Job, q: Query, u: seq<byte>, base: nat)
    requires Counting(C, R, open, q, u, base) && t !in open && Asks(t, q)
    requires (t.UriLists? && t.uri == u) || (t.InList? && t.q.External?)
    ensures Counting(Entered(C, t.catal), R, open + {t}, q, u, base)
  {
    hide Asks, OpenAt;
    forall e | e in R
      ensures DepthIn(Entered(C, t.catal), e) <= base + OpenAt(open + {t}, e, q, u)
    {
      OpenAtMore(open, t, q, u, e);
    }
  }

  /** References are those asked for. */
  ghost predicate Named(t: Job, u: seq<byte>) { t.UriLists? ==> t.uri == u }

  ghost predicate PlanNamed(p: Plan, u: seq<byte>) {
    match p
    case Instead(_, t1) => Named(t1, u)
    case Checked(_, _, body) => Named(body, u)
    case First(_, sub, _, _, next) => Named(sub, u) && Named(next, u)
  }

  lemma {:induction false} ListPlanNamed(C: State, catal: Entry, halves: seq<(Mode, seq<byte>)>, q: Query, u: seq<byte>)
    ensures PlanNamed(ListPlan(C, catal, halves, q), u)
    decreases |halves|
  {
    hide SaysBy, Chain;
    if halves != [] {
      ListPlanNamed(C, catal, halves[1..], q, u);
    }
  }

  lemma JobPlanNamed(docs: Docs, C: State, t: Job, q: Query, u: seq<byte>)
    requires !t.Return? && Asks(t, q) && (q.Reference? ==> q.uri == u)
    ensures PlanNamed(PlanFor(docs, C, t), u)
  {
    hide SaysBy, Chain, Loaded, ListPlan, Canon, TriesDelegate, KindIn, ChildIn, Canonical, Halves;
    if t.Inside? {
      ListPlanNamed(C, t.catal, Halves(t.q), t.q, u);
    }
  }

  /** The jobs that matter: of a query, with everything that they refer to loaded. */
  ghost predicate Posed(docs: Docs, C: State, t: Job, R: set<Entry>, q: Query, u: seq<byte>) {
    && Closed(docs, C, R) && Within(t, R) && (q.Reference? ==> q.uri == u)
    && (t.Return? || (Asks(t, q) && Named(t, u)))
  }

  ghost predicate PlanPosed(docs: Docs, C: State, p: Plan, R: set<Entry>, q: Query, u: seq<byte>) {
    match p
    case Instead(C1, t1) => C1 == C && Posed(docs, C, t1, R, q, u)
    case Checked(e, enter, body) => e in R && Posed(docs, if enter then Entered(C, e) else C, body, R, q, u)
    case First(C1, sub, stop, _, next) =>
      C1 == C && Posed(docs, C, sub, R, q, u) && Posed(docs, C, next, R, q, u) && (stop.Some? ==> stop.value in R)
  }

  lemma JobPlanPosed(docs: Docs, C: State, t: Job, R: set<Entry>, q: Query, u: seq<byte>)
    requires Posed(docs, C, t, R, q, u) && !t.Return?
    ensures PlanPosed(docs, C, PlanFor(docs, C, t), R, q, u)
  {
    JobPlanWithin(docs, C, t, R);
    JobPlanAsks(docs, C, t, q);
    JobPlanNamed(docs, C, t, q, u);
    hide PlanFor, Closed, Within, Asks, Named, Same, Entered, Justified, Fewer;
    match PlanFor(docs, C, t)
    case Instead(_, _) =>
    case Checked(e, enter, _) =>
      SameSelf(C);
      EnteredSame(C, C, e, enter);
      ClosedSame(docs, C, if enter then Entered(C, e) else C, R);
    case First(_, _, _, _, _) =>
  }

  lemma SameSelf(C: State)
    ensures Same(C, C)
  {
  }

  /** A check on the way into a list, and what is done behind it. */
  lemma PeakChecked(n: nat, docs: Docs, C: State, t: Job, e: Entry, enter: bool, body: Job)
    requires n > 0 && !t.Return? && PlanFor(docs, C, t) == Checked(e, enter, body)
    ensures Peak(n, docs, C, t) ==
            Max(DepthIn(C, e), Peak(n - 1, docs, if enter then Entered(C, e) else C, body))
  {
    hide PlanFor, Entered, DepthIn;
  }

  lemma PeakFirst(n: nat, docs: Docs, C: State, t: Job, sub: Job, stop: Option<Entry>, leak: bool, next: Job)
    requires n > 0 && !t.Return? && PlanFor(docs, C, t) == First(C, sub, stop, leak, next)
    requires Exec(n - 1, Unguarded, docs, C, sub).Some?
    ensures var peak, o := Peak(n - 1, docs, C, sub), Exec(n - 1, Unguarded, docs, C, sub).value;
            Peak(n, docs, C, t) ==
            if o.ret != NotFound then peak
            else Max(Max(peak, if stop.Some? then DepthIn(o.state, stop.value) else 0),
                     Peak(n - 1, docs, o.state, next))
  {
    hide PlanFor, DepthIn;
  }

  lemma PeakInstead(n: nat, docs: Docs, C: State, t: Job, t1: Job)
    requires n > 0 && !t.Return? && PlanFor(docs, C, t) == Instead(C, t1)
    ensures Peak(n, docs, C, t) == Peak(n - 1, docs, C, t1)
  {
    hide PlanFor;
  }

  lemma NoPeak(n: nat, docs: Docs, C: State, t: Job)
    requires t.Return?
    ensures Peak(n, docs, C, t) == 0
  {
  }

  lemma CountingBound(C: State, R: set<Entry>, open: set<Job>, q: Query, u: seq<byte>, base: nat, e: Entry)
    requires Counting(C, R, open, q, u, base) && e in R
    ensures DepthIn(C, e) <= base + ENTRANCES
  {
  }

  lemma CountingLater(n: nat, docs: Docs, C: State, t: Job, R: set<Entry>, open: set<Job>, q: Query, u: seq<byte>,
                      base: nat)
    requires Exec(n, Unguarded, docs, C, t).Some? && Counting(C, R, open, q, u, base)
    ensures Counting(Exec(n, Unguarded, docs, C, t).value.state, R, open, q, u, base)
  {
    hide Exec, DepthIn, OpenAt;
    forall e | e in R
      ensures DepthIn(Exec(n, Unguarded, docs, C, t).value.state, e) <= base + OpenAt(open, e, q, u)
    {
      CounterRestored(n, Unguarded, docs, C, t, e);
    }
  }

  lemma PosedLater(n: nat, docs: Docs, C: State, sub: Job, t: Job, R: set<Entry>, q: Query, u: seq<byte>)
    requires Exec(n, Unguarded, docs, C, sub).Some? && Posed(docs, C, sub, R, q, u) && Posed(docs, C, t, R, q, u)
    ensures var D := Exec(n, Unguarded, docs, C, sub).value.state; Same(C, D) && Posed(docs, D, t, R, q, u)
  {
    hide Exec, Closed, Within, Asks, Named, Same;
    SameSelf(C);
    ExecSame(n, docs, C, C, sub, R);
    AlikeSub(C, Exec(n, Unguarded, docs, C, sub), Exec(n, Unguarded, docs, C, sub));
    ClosedSame(docs, C, Exec(n, Unguarded, docs, C, sub).value.state, R);
  }

  lemma NotOpen(n: nat, docs: Docs, C: State, R: set<Entry>, open: set<Job>, t: Job)
    requires Unfinished(n, docs, C, R, open) && Exec(n, Unguarded, docs, C, t).Some?
    ensures t !in open
  {
  }

  /** A job that ends without limits goes no deeper than the ways into a list: a list cannot be
      entered again for a job that is still open, because that would take fewer steps than itself. */
  lemma {:induction false} EndsShallow(n: nat, docs: Docs, C: State, t: Job, R: set<Entry>, open: set<Job>, q: Query,
                                       u: seq<byte>, base: nat)
    requires Exec(n, Unguarded, docs, C, t).Some? && Posed(docs, C, t, R, q, u)
    requires Unfinished(n, docs, C, R, open) && Counting(C, R, open, q, u, base)
    ensures Peak(n, docs, C, t) <= base + ENTRANCES
    decreases n
  {
    hide Exec, Peak, PlanFor, Closed, Within, Asks, Named, Same, Entered, DepthIn, Leaving, Counting, Unfinished,
         OpenAt;
    if t.Return? {
      NoPeak(n, docs, C, t);
    } else {
      TakesSteps(n, docs, C, t);
      JobPlanPosed(docs, C, t, R, q, u);
      SameSelf(C);
      UnfinishedOn(n, n - 1, docs, C, C, R, open);
      match PlanFor(docs, C, t)
      case Instead(C1, t1) =>
        StepInstead(n, docs, C, t, t1);
        PeakInstead(n, docs, C, t, t1);
        EndsShallow(n - 1, docs, C, t1, R, open, q, u, base);
      case Checked(e, enter, body) =>
        CheckedShallow(n, docs, C, t, R, open, q, u, base, e, enter, body);
      case First(C1, sub, stop, leak, next) =>
        StepFirst(n, docs, C, t, sub, stop, leak, next);
        PeakFirst(n, docs, C, t, sub, stop, leak, next);
        EndsShallow(n - 1, docs, C, sub, R, open, q, u, base);
        var o := Exec(n - 1, Unguarded, docs, C, sub).value;
        if o.ret == NotFound {
          PosedLater(n - 1, docs, C, sub, next, R, q, u);
          CountingLater(n - 1, docs, C, sub, R, open, q, u, base);
          UnfinishedOn(n - 1, n - 1, docs, C, o.state, R, open);
          EndsShallow(n - 1, docs, o.state, next, R, open, q, u, base);
          if stop.Some? {
            CountingBound(o.state, R, open, q, u, base, stop.value);
          }
        }
    }
  }

  lemma {:induction false} CheckedShallow(n: nat, docs: Docs, C: State, t: Job, R: set<Entry>, open: set<Job>, q: Query,
                                          u: seq<byte>, base: nat, e: Entry, enter: bool, body: Job)
    requires Exec(n, Unguarded, docs, C, t).Some? && Posed(docs, C, t, R, q, u) && !t.Return? && n > 0
    requires PlanFor(docs, C, t) == Checked(e, enter, body) && PlanPosed(docs, C, Checked(e, enter, body), R, q, u)
    requires Unfinished(n, docs, C, R, open) && Counting(C, R, open, q, u, base)
    ensures Peak(n, docs, C, t) <= base + ENTRANCES
    decreases n, 0
  {
    hide Exec, Peak, Closed, Within, Asks, Named, Same, Entered, DepthIn, Leaving, Counting, Unfinished, OpenAt;
    var m := Fewest(n, docs, C, t);
    var C1, open1 := if enter then Entered(C, e) else C, if enter then open + {t} else open;
    PeakMore(m, n, docs, C, t);
    PeakChecked(m, docs, C, t, e, enter, body);
    StepChecked(m, docs, C, t, e, enter, body);
    CountingBound(C, R, open, q, u, base, e);
    NotOpen(n, docs, C, R, open, t);
    SameSelf(C);
    EnteredSame(C, C, e, enter);
    UnfinishedMore(m - 1, n, docs, C, R, open, t);
    if enter {
      CheckedJob(docs, C, t, q, u, e, body);
      EnterCounting(C, R, open, t, q, u, base);
      UnfinishedOn(m - 1, m - 1, docs, C, C1, R, open + {t});
    } else {
      UnfinishedOn(n, m - 1, docs, C, C, R, open);
    }
    EndsShallow(m - 1, docs, C1, body, R, open1, q, u, base);
  }

  lemma UnfinishedMore(m: nat, n: nat, docs: Docs, C: State, R: set<Entry>, open: set<Job>, t: Job)
    requires Unfinished(n, docs, C, R, open) && m <= n && Closed(docs, C, R) && Within(t, R)
    requires Exec(m, Unguarded, docs, C, t).None?
    ensures Unfinished(m, docs, C, R, open + {t})
  {
    hide Exec, Closed, Within;
    SameSelf(C);
    UnfinishedOn(n, m, docs, C, C, R, open);
  }

  lemma CheckedJob(docs: Docs, C: State, t: Job, q: Query, u: seq<byte>, e: Entry, body: Job)
    requires !t.Return? && PlanFor(docs, C, t) == Checked(e, true, body) && Asks(t, q) && Named(t, u)
    ensures (t.UriLists? && t.uri == u) || (t.InList? && t.q.External?)
    ensures (t.UriLists? || t.InList?) && e == t.catal
  {
    hide Asks, Loaded, SaysBy, Chain, Canon, TriesDelegate, ListsJob;
    if t.Inside? {
      ListPlanKeeps(C, t.catal, Halves(t.q), t.q);
    }
  }

  // --- What the counters stop -----------------------------------------------------------------------------------

  /** Counters are low enough: all zero, or raised a few times by lists that were left at the limit. */
  ghost predicate Calm(C: State, R: set<Entry>, base: nat) { forall e :: e in R ==> DepthIn(C, e) <= base }

  /** The job for the lists behind an entry, asked for with any query. */
  lemma ListsPosed(docs: Docs, C: State, R: set<Entry>, catal: Entry, q: Query)
    requires Closed(docs, C, R) && catal in R
    ensures var u := if q.Reference? then q.uri else [];
            Posed(docs, C, ListsJob(catal, q), R, Canon(q), u)
  {
    hide Closed, Within, Chain, Canonical;
    ListsWithin(docs, C, R, catal, q);
    CanonIsCanonical(q);
    CanonReference(q);
  }

  lemma CanonReference(q: Query)
    ensures Canon(q).Reference? ==> Canon(q) == q
  {
    if HasUrn(q) {
      CanonExternal(Reduce(q));
    }
  }

  lemma {:induction false} CanonExternal(q: Query)
    requires q.External?
    ensures Canon(q).External?
    decreases QueryMeasure(q)
  {
    ReduceFalls(q);
    if HasUrn(q) {
      CanonExternal(Reduce(q));
    }
  }

  /** Resolution in loaded catalogs that ends without limits finds no counter more than five above the
      highest one at the start. */
  lemma EndingIsShallow(n: nat, docs: Docs, C: State, catal: Entry, q: Query, R: set<Entry>, base: nat)
    requires Closed(docs, C, R) && catal in R && Calm(C, R, base)
    requires Exec(n, Unguarded, docs, C, ListsJob(catal, q)).Some?
    ensures Peak(n, docs, C, ListsJob(catal, q)) <= base + ENTRANCES
  {
    hide Exec, Peak, Closed, ListsJob, Canon, DepthIn, Posed;
    ListsPosed(docs, C, R, catal, q);
    var u := if q.Reference? then q.uri else [];
    assert Unfinished(n, docs, C, R, {});
    EndsShallow(n, docs, C, ListsJob(catal, q), R, {}, Canon(q), u, base);
  }

  lemma EndingIsNeverStopped(n: nat, docs: Docs, C: State, catal: Entry, q: Query, R: set<Entry>)
    requires Closed(docs, C, R) && catal in R && Calm(C, R, MAX_CATAL_DEPTH - ENTRANCES)
    requires Exec(n, Unguarded, docs, C, ListsJob(catal, q)).Some?
    ensures NeverStopped(docs, C, ListsJob(catal, q))
  {
    hide Exec, Peak, Closed, ListsJob, Calm;
    EndingIsShallow(n, docs, C, catal, q, R, MAX_CATAL_DEPTH - ENTRANCES);
    StoppedIff(n, docs, C, ListsJob(catal, q));
  }

  /** In loaded catalogs, the counters stop exactly the resolutions that would not end without them. */
  lemma StopsExactlyTheEndless(docs: Docs, C: State, catal: Entry, q: Query, R: set<Entry>)
    requires Closed(docs, C, R) && catal in R && Calm(C, R, MAX_CATAL_DEPTH - ENTRANCES)
    ensures NeverStopped(docs, C, ListsJob(catal, q)) <==>
            exists n: nat :: Exec(n, Unguarded, docs, C, ListsJob(catal, q)).Some?
  {
    hide Exec, Closed, ListsJob, Calm;
    var t := ListsJob(catal, q);
    if NeverStopped(docs, C, t) {
      var n: nat :| Exec(n, Strict, docs, C, t).Some?;
      StrictAgrees(n, docs, C, t);
      assert Exec(n, Unguarded, docs, C, t).Some?;
    }
    if exists n: nat :: Exec(n, Unguarded, docs, C, t).Some? {
      var n: nat :| Exec(n, Unguarded, docs, C, t).Some?;
      EndingIsNeverStopped(n, docs, C, catal, q, R);
    }
  }
}
