/** What the depth counters of catalog resolution do: when they do not matter, and what they leak. */
module CatalogLimits {
  import opened Bytes
  import opened CatalogQuery
  import opened CatalogStore
  import opened CatalogRules

  // --- Runs that no counter stops -----------------------------------------------------------------------

  /** The job ends without any list being over its limit where the code looks. */
  ghost predicate NeverStopped(docs: Docs, C: State, t: Job) {
    exists fuel: nat :: Exec(fuel, Strict, docs, C, t).Some?
  }

  /** Then the counters might as well not be there. */
  lemma {:induction false} StrictAgrees(fuel: nat, docs: Docs, C: State, t: Job)
    requires Exec(fuel, Strict, docs, C, t).Some?
    ensures Exec(fuel, Guarded, docs, C, t) == Exec(fuel, Strict, docs, C, t)
    ensures Exec(fuel, Unguarded, docs, C, t) == Exec(fuel, Strict, docs, C, t)
    ensures !Exec(fuel, Strict, docs, C, t).value.limit
    decreases fuel
  {
    hide PlanFor;
    if !t.Return? {
      match PlanFor(docs, C, t)
      case Instead(C1, t1) => StrictAgrees(fuel - 1, docs, C1, t1);
      case Checked(e, enter, body) => StrictAgrees(fuel - 1, docs, if enter then Entered(C, e) else C, body);
      case First(C1, sub, stop, leak, next) =>
        StrictAgrees(fuel - 1, docs, C1, sub);
        var o := Exec(fuel - 1, Strict, docs, C1, sub).value;
        if o.ret == NotFound {
          StrictAgrees(fuel - 1, docs, o.state, next);
        }
    }
  }

  /** The counter of a list grows by one for each time that it was left at the limit, and by nothing
      else. */
  ghost predicate Counted(C: State, C': State, e: Entry) {
    DepthIn(C', e) + LeaksIn(C, e) == DepthIn(C, e) + LeaksIn(C', e) && LeaksIn(C, e) <= LeaksIn(C', e)
  }

  lemma CountedOn(C: State, C1: State, C2: State, e: Entry)
    requires Counted(C, C1, e) && Counted(C1, C2, e)
    ensures Counted(C, C2, e)
  {
  }

  /** Loading a list and planning a job touch no counter. */
  lemma LoadedCounts(docs: Docs, C: State, e: Entry)
    ensures Loaded(docs, C, e).depth == C.depth && Loaded(docs, C, e).leaked == C.leaked
  {
  }

  lemma PlanCounts(docs: Docs, C: State, t: Job)
    ensures var p := PlanFor(docs, C, t);
            p.Instead? || p.First? ==> p.state.depth == C.depth && p.state.leaked == C.leaked
  {
    hide SaysBy, Canon, Chain, TriesDelegate, Loaded, ListsJob, ListPlan, KindIn, ChildIn, QueryOf, Remember;
    match t
    case Return(_) =>
    case UriLists(_, _) =>
    case InList(_, _) =>
    case Inside(catal, q) => ListPlanKeeps(C, catal, Halves(q), q);
    case InLists(rest, q) => if rest != [] { LoadedCounts(docs, C, rest[0]); }
    case InNext(catal, rest, q) => if rest != [] { LoadedCounts(docs, C, rest[0]); }
    case InDelegates(rest, mode, id, tried) => if rest != [] { LoadedCounts(docs, C, rest[0]); }
  }

  lemma {:induction false} ListPlanKeeps(C: State, catal: Entry, halves: seq<(Mode, seq<byte>)>, q: Query)
    ensures var p := ListPlan(C, catal, halves, q); !p.Checked? && p.state == C
    decreases |halves|
  {
    hide SaysBy, Chain;
    if halves != [] {
      ListPlanKeeps(C, catal, halves[1..], q);
    }
  }

  lemma LeavingCounts(C: State, catal: Entry, enter: bool, o: Outcome, e: Entry)
    requires Counted(if enter then Entered(C, catal) else C, o.state, e)
    ensures Counted(C, Leaving(catal, enter, o).state, e)
  {
  }

  /** A counter never falls, and it is restored exactly if its list was never left at the limit. */
  lemma {:induction false} CountersAreExact(fuel: nat, g: Guard, docs: Docs, C: State, t: Job, e: Entry)
    requires Exec(fuel, g, docs, C, t).Some?
    ensures Counted(C, Exec(fuel, g, docs, C, t).value.state, e)
    decreases fuel
  {
    hide PlanFor, Leaving, Fires, Counted;
    if t.Return? {
      SameCounts(C, C, e);
    } else {
      PlanCounts(docs, C, t);
      match PlanFor(docs, C, t)
      case Instead(C1, t1) =>
        CountersAreExact(fuel - 1, g, docs, C1, t1, e);
        SameCounts(C, C1, e);
        CountedOn(C, C1, Exec(fuel, g, docs, C, t).value.state, e);
      case Checked(x, enter, body) =>
        if Fires(g, C, x) {
          SameCounts(C, C, e);
        } else {
          var C1 := if enter then Entered(C, x) else C;
          CountersAreExact(fuel - 1, g, docs, C1, body, e);
          LeavingCounts(C, x, enter, Exec(fuel - 1, g, docs, C1, body).value, e);
        }
      case First(C1, sub, stop, leak, next) =>
        CountersAreExact(fuel - 1, g, docs, C1, sub, e);
        var o := Exec(fuel - 1, g, docs, C1, sub).value;
        SameCounts(C, C1, e);
        CountedOn(C, C1, o.state, e);
        if o.ret == NotFound && !(stop.Some? && Fires(g, o.state, stop.value)) {
          CountersAreExact(fuel - 1, g, docs, o.state, next, e);
          CountedOn(C, o.state, Exec(fuel, g, docs, C, t).value.state, e);
        }
    }
  }

  lemma SameCounts(C: State, C1: State, e: Entry)
    requires C1.depth == C.depth && C1.leaked == C.leaked
    ensures Counted(C, C1, e)
  {
  }

  /** Only the machine with counters leaks. */
  lemma {:induction false} NothingLeaks(fuel: nat, g: Guard, docs: Docs, C: State, t: Job)
    requires Exec(fuel, g, docs, C, t).Some? && g != Guarded
    ensures var o := Exec(fuel, g, docs, C, t).value; !o.limit && o.state.leaked == C.leaked
    decreases fuel
  {
    hide PlanFor;
    if !t.Return? {
      PlanCounts(docs, C, t);
      match PlanFor(docs, C, t)
      case Instead(C1, t1) => NothingLeaks(fuel - 1, g, docs, C1, t1);
      case Checked(x, enter, body) => NothingLeaks(fuel - 1, g, docs, if enter then Entered(C, x) else C, body);
      case First(C1, sub, stop, leak, next) =>
        NothingLeaks(fuel - 1, g, docs, C1, sub);
        var o := Exec(fuel - 1, g, docs, C1, sub).value;
        if o.ret == NotFound {
          NothingLeaks(fuel - 1, g, docs, o.state, next);
        }
    }
  }

  lemma CounterRestored(fuel: nat, g: Guard, docs: Docs, C: State, t: Job, e: Entry)
    requires Exec(fuel, g, docs, C, t).Some? && g != Guarded
    ensures DepthIn(Exec(fuel, g, docs, C, t).value.state, e) == DepthIn(C, e)
  {
    hide Exec;
    CountersAreExact(fuel, g, docs, C, t, e);
    NothingLeaks(fuel, g, docs, C, t);
  }

  /** A resolution that no counter stops ends as it would without counters, and all counters are as
      they were. */
  lemma CountersDoNotMatter(docs: Docs, C: State, t: Job, o: Outcome, e: Entry)
    requires NeverStopped(docs, C, t) && Ends(Guarded, docs, C, t, o)
    ensures Ends(Unguarded, docs, C, t, o)
    ensures !o.limit && o.state.leaked == C.leaked && DepthIn(o.state, e) == DepthIn(C, e)
  {
    hide Exec;
    var n: nat :| Exec(n, Strict, docs, C, t).Some?;
    StrictAgrees(n, docs, C, t);
    var o' := Exec(n, Strict, docs, C, t).value;
    assert Ends(Guarded, docs, C, t, o') && Ends(Unguarded, docs, C, t, o');
    EndsOne(Guarded, docs, C, t, o, o');
    NothingLeaks(n, Strict, docs, C, t);
    CounterRestored(n, Strict, docs, C, t, e);
  }

  /** How high a counter is, at most, where the machine without limits passes a depth check. */
  ghost function Peak(fuel: nat, docs: Docs, C: State, t: Job): nat
    decreases fuel
  {
    if t.Return? || fuel == 0 then 0
    else match PlanFor(docs, C, t)
      case Instead(C1, t1) => Peak(fuel - 1, docs, C1, t1)
      case Checked(e, enter, body) =>
        Max(DepthIn(C, e), Peak(fuel - 1, docs, if enter then Entered(C, e) else C, body))
      case First(C1, sub, stop, leak, next) =>
        var peak := Peak(fuel - 1, docs, C1, sub);
        match Exec(fuel - 1, Unguarded, docs, C1, sub)
        case None => peak
        case Some(o) =>
          if o.ret != NotFound then peak
          else Max(Max(peak, if stop.Some? then DepthIn(o.state, stop.value) else 0),
                   Peak(fuel - 1, docs, o.state, next))
  }

  function Max(a: nat, b: nat): nat { if a < b then b else a }

  /** Counters stop nothing exactly if resolution without limits nowhere nests a list deeper than
      the limit. */
  lemma {:induction false} StoppedIff(fuel: nat, docs: Docs, C: State, t: Job)
    ensures Exec(fuel, Strict, docs, C, t).Some? <==>
            Exec(fuel, Unguarded, docs, C, t).Some? && Peak(fuel, docs, C, t) <= MAX_CATAL_DEPTH
    decreases fuel
  {
    hide PlanFor;
    if !t.Return? && fuel > 0 {
      match PlanFor(docs, C, t)
      case Instead(C1, t1) => StoppedIff(fuel - 1, docs, C1, t1);
      case Checked(e, enter, body) => StoppedIff(fuel - 1, docs, if enter then Entered(C, e) else C, body);
      case First(C1, sub, stop, leak, next) =>
        StoppedIff(fuel - 1, docs, C1, sub);
        var o := Exec(fuel - 1, Unguarded, docs, C1, sub);
        if Exec(fuel - 1, Strict, docs, C1, sub).Some? {
          StrictAgrees(fuel - 1, docs, C1, sub);
        }
        if o.Some? && o.value.ret == NotFound {
          StoppedIff(fuel - 1, docs, o.value.state, next);
        }
    }
  }

  // --- Catalogs without cycles --------------------------------------------------------------------------

  /** Levels that fall from every entry to the list behind it, loaded or not, and stay the same along
      a list. */
  ghost predicate Acyclic(docs: Docs, C: State, lv: map<Entry, nat>) {
    forall e :: e in lv ==> Levelled(docs, C, lv, e)
  }

  ghost predicate Levelled(docs: Docs, C: State, lv: map<Entry, nat>, e: Entry)
    requires e in lv
  {
    && (e.next != null ==> e.next in lv && lv[e.next] == lv[e])
    && (ChildIn(C, e) != null ==> Below(lv, ChildIn(C, e), lv[e]))
    && (forall u :: u in C.files && e.url == Some(u) ==> Below(lv, C.files[u], lv[e]))
    && (forall k :: k in docs && e.url == Some(k.0) ==> Below(lv, docs[k], lv[e]))
  }

  ghost predicate Below(lv: map<Entry, nat>, e: Entry, n: nat) { e in lv && lv[e] < n }

  /** No list below a level is being searched. */
  ghost predicate Idle(C: State, lv: map<Entry, nat>, n: nat) {
    forall e :: e in lv && lv[e] < n ==> DepthIn(C, e) == 0
  }

  /** The lists of a job are at most at that level. */
  ghost predicate Fits(C: State, t: Job, lv: map<Entry, nat>, n: nat) {
    match t
    case Return(_) => true
    case UriLists(catal, _) => Below(lv, catal, n)
    case InList(catal, _) => Below(lv, catal, n)
    case Inside(catal, _) => Below(lv, catal, n + 1) && DepthIn(C, catal) <= MAX_CATAL_DEPTH
    case InLists(rest, _) => AllBelow(lv, rest, n + 1)
    case InDelegates(rest, _, _, _) => AllBelow(lv, rest, n + 1)
    case InNext(catal, rest, _) => AllBelow(lv, rest, n + 1) && DepthIn(C, catal) <= MAX_CATAL_DEPTH
  }

  ghost predicate AllBelow(lv: map<Entry, nat>, c: seq<Entry>, n: nat) { forall e :: e in c ==> Below(lv, e, n) }

  lemma {:induction false} ChainBelow(docs: Docs, C: State, lv: map<Entry, nat>, catal: Entry, n: nat)
    requires Acyclic(docs, C, lv) && Below(lv, catal, n)
    ensures AllBelow(lv, Chain(catal), n)
    decreases catal.rank
  {
    assert Levelled(docs, C, lv, catal);
    if !(catal.next == null || catal.next.rank >= catal.rank) {
      ChainBelow(docs, C, lv, catal.next, n);
    }
  }

  lemma NewListLevels(docs: Docs, C: State, lv: map<Entry, nat>, x: Entry, list: Entry?)
    requires Acyclic(docs, C, lv) && x in lv && (list != null ==> Below(lv, list, lv[x]))
    ensures Acyclic(docs, WithList(C, x, list), lv)
  {
    hide Below;
    forall e | e in lv
      ensures Levelled(docs, WithList(C, x, list), lv, e)
    {
      assert Levelled(docs, C, lv, e);
    }
  }

  lemma NewFileLevels(docs: Docs, C: State, lv: map<Entry, nat>, k: (seq<byte>, Prefer))
    requires Acyclic(docs, C, lv) && k in docs
    ensures Acyclic(docs, C.(files := C.files[k.0 := docs[k]]), lv)
  {
    hide Below;
    forall e | e in lv
      ensures Levelled(docs, C.(files := C.files[k.0 := docs[k]]), lv, e)
    {
      assert Levelled(docs, C, lv, e);
    }
  }

  lemma ListOfLevels(docs: Docs, C: State, lv: map<Entry, nat>, x: Entry, doc: Entry)
    requires Acyclic(docs, C, lv) && x in lv && Below(lv, doc, lv[x])
    ensures ListOf(C, x, doc) != null ==> Below(lv, ListOf(C, x, doc), lv[x])
  {
    assert Levelled(docs, C, lv, doc);
  }

  lemma BrokenLevels(docs: Docs, C: State, lv: map<Entry, nat>, K: Kinds)
    requires Acyclic(docs, C, lv)
    ensures Acyclic(docs, C.(kinds := K), lv)
  {
    hide Below;
    forall e | e in lv
      ensures Levelled(docs, C.(kinds := K), lv, e)
    {
      assert Levelled(docs, C, lv, e);
    }
  }

  lemma FilesBelow(docs: Docs, C: State, lv: map<Entry, nat>, x: Entry)
    requires Acyclic(docs, C, lv) && x in lv
    ensures ChildIn(C, x) != null ==> Below(lv, ChildIn(C, x), lv[x])
    ensures x.url.Some? && x.url.value in C.files ==> Below(lv, C.files[x.url.value], lv[x])
    ensures x.url.Some? && (x.url.value, x.prefer) in docs ==> Below(lv, docs[(x.url.value, x.prefer)], lv[x])
  {
    assert Levelled(docs, C, lv, x);
  }

  /** Loading a list keeps the levels, and what is loaded is lower. */
  lemma LoadedLevels(docs: Docs, C: State, lv: map<Entry, nat>, x: Entry)
    requires Acyclic(docs, C, lv) && x in lv
    ensures Acyclic(docs, Loaded(docs, C, x), lv)
    ensures ChildIn(Loaded(docs, C, x), x) != null ==> Below(lv, ChildIn(Loaded(docs, C, x), x), lv[x])
  {
    hide Acyclic, Below, KindIn, ListOf;
    FilesBelow(docs, C, lv, x);
    if ChildIn(C, x) == null && x.url.Some? {
      var k := (x.url.value, x.prefer);
      if k.0 in C.files {
        ListOfLevels(docs, C, lv, x, C.files[k.0]);
        NewListLevels(docs, C, lv, x, ListOf(C, x, C.files[k.0]));
      } else if k in docs {
        ListOfLevels(docs, C, lv, x, docs[k]);
        NewFileLevels(docs, C, lv, k);
        NewListLevels(docs, C.(files := C.files[k.0 := docs[k]]), lv, x, ListOf(C, x, docs[k]));
      } else {
        BrokenLevels(docs, C, lv, C.kinds[x := BrokenCatalog]);
      }
    }
  }

  /** Where a plan looks at a counter, and what it goes on with, fits. */
  ghost predicate PlanFits(docs: Docs, C: State, p: Plan, lv: map<Entry, nat>, n: nat) {
    match p
    case Instead(C1, t1) => Acyclic(docs, C1, lv) && Idle(C1, lv, n) && Fits(C1, t1, lv, n)
    case Checked(e, enter, body) =>
      Below(lv, e, n) && Fits(if enter then Entered(C, e) else C, body, lv, lv[e])
    case First(C1, sub, stop, leak, next) =>
      && Acyclic(docs, C1, lv) && Idle(C1, lv, n) && Fits(C1, sub, lv, n) && Fits(C1, next, lv, n)
      && (stop.Some? ==> DepthIn(C1, stop.value) <= MAX_CATAL_DEPTH)
  }

  lemma IdleCounter(C: State, lv: map<Entry, nat>, n: nat, e: Entry)
    requires Idle(C, lv, n) && Below(lv, e, n)
    ensures DepthIn(C, e) == 0
  {
  }

  /** The list behind the first entry of the rest of a list. */
  lemma HeadFits(docs: Docs, C: State, rest: seq<Entry>, lv: map<Entry, nat>, n: nat)
    requires Acyclic(docs, C, lv) && Idle(C, lv, n) && rest != [] && AllBelow(lv, rest, n + 1)
    ensures var C1 := Loaded(docs, C, rest[0]);
            && Acyclic(docs, C1, lv) && Idle(C1, lv, n) && C1.depth == C.depth
            && (ChildIn(C1, rest[0]) != null ==> Below(lv, ChildIn(C1, rest[0]), n))
    ensures AllBelow(lv, rest[1..], n + 1)
  {
    hide Acyclic, Loaded;
    assert Below(lv, rest[0], n + 1);
    LoadedLevels(docs, C, lv, rest[0]);
    LoadedCounts(docs, C, rest[0]);
  }

  lemma ListsFit(docs: Docs, C: State, child: Entry, q: Query, lv: map<Entry, nat>, n: nat)
    requires Acyclic(docs, C, lv) && Below(lv, child, n)
    ensures Fits(C, ListsJob(child, q), lv, n)
  {
    hide Canon, Chain;
    ChainBelow(docs, C, lv, child, n);
  }

  lemma {:induction false} ListPlanFits(docs: Docs, C: State, catal: Entry, halves: seq<(Mode, seq<byte>)>, q: Query,
                                        lv: map<Entry, nat>, n: nat)
    requires Acyclic(docs, C, lv) && Idle(C, lv, n) && Fits(C, Inside(catal, q), lv, n)
    ensures PlanFits(docs, C, ListPlan(C, catal, halves, q), lv, n)
    decreases |halves|
  {
    hide SaysBy, Chain, Acyclic, Idle, Below, AllBelow;
    ChainBelow(docs, C, lv, catal, n + 1);
    if halves != [] {
      ListPlanFits(docs, C, catal, halves[1..], q, lv, n);
    }
  }

  lemma JobPlanFits(docs: Docs, C: State, t: Job, lv: map<Entry, nat>, n: nat)
    requires Acyclic(docs, C, lv) && Idle(C, lv, n) && Fits(C, t, lv, n)
    ensures PlanFits(docs, C, PlanFor(docs, C, t), lv, n)
  {
    hide SaysBy, Chain, Acyclic, Idle, Below, AllBelow, Loaded, ListsJob, ListPlan, Canon, TriesDelegate, KindIn,
         ChildIn, DepthIn;
    match t
    case Return(_) =>
    case UriLists(catal, uri) => EnteredFits(docs, C, t, catal, lv, n);
    case InList(catal, q) => EnteredFits(docs, C, t, catal, lv, n);
    case Inside(catal, q) => ListPlanFits(docs, C, catal, Halves(q), q, lv, n);
    case InLists(rest, q) => if rest != [] { RestFits(docs, C, t, rest, lv, n); }
    case InNext(catal, rest, q) => if rest != [] { RestFits(docs, C, t, rest, lv, n); }
    case InDelegates(rest, mode, id, tried) => if rest != [] { RestFits(docs, C, t, rest, lv, n); }
  }

  lemma EnteredFits(docs: Docs, C: State, t: Job, catal: Entry, lv: map<Entry, nat>, n: nat)
    requires Acyclic(docs, C, lv) && Idle(C, lv, n) && Fits(C, t, lv, n)
    requires (t.UriLists? || t.InList?) && catal == t.catal
    ensures PlanFits(docs, C, PlanFor(docs, C, t), lv, n)
  {
    hide Chain, Canon, Acyclic;
    IdleCounter(C, lv, n, catal);
    ChainBelow(docs, C, lv, catal, lv[catal] + 1);
  }

  lemma RestFits(docs: Docs, C: State, t: Job, rest: seq<Entry>, lv: map<Entry, nat>, n: nat)
    requires Acyclic(docs, C, lv) && Idle(C, lv, n) && Fits(C, t, lv, n) && rest != []
    requires (t.InLists? || t.InNext? || t.InDelegates?) && rest == t.rest
    ensures PlanFits(docs, C, PlanFor(docs, C, t), lv, n)
  {
    hide Chain, Acyclic, Idle, Below, AllBelow, Loaded, ListsJob, Canon, TriesDelegate, KindIn, ChildIn, Remember;
    HeadFits(docs, C, rest, lv, n);
    var C1 := Loaded(docs, C, rest[0]);
    var child := ChildIn(C1, rest[0]);
    if child != null {
      IdleCounter(C1, lv, n, child);
      if t.InDelegates? {
        ListsFit(docs, C1, child, QueryOf(t.mode, t.id), lv, n);
      } else {
        ListsFit(docs, C1, child, t.q, lv, n);
      }
    }
  }

  /** After a run that no counter stopped, everything fits as before. */
  lemma FitsLater(fuel: nat, docs: Docs, C: State, sub: Job, t: Job, lv: map<Entry, nat>, n: nat, stop: Option<Entry>)
    requires Exec(fuel, Strict, docs, C, sub).Some? && Idle(C, lv, n) && Fits(C, t, lv, n)
    ensures var C' := Exec(fuel, Strict, docs, C, sub).value.state;
            Idle(C', lv, n) && Fits(C', t, lv, n) && (stop.Some? ==> DepthIn(C', stop.value) == DepthIn(C, stop.value))
  {
    hide Exec, DepthIn;
    forall e | e in lv && lv[e] < n
      ensures DepthIn(Exec(fuel, Strict, docs, C, sub).value.state, e) == 0
    {
      CounterRestored(fuel, Strict, docs, C, sub, e);
    }
    if t.Inside? || t.InNext? {
      CounterRestored(fuel, Strict, docs, C, sub, t.catal);
    }
    if stop.Some? {
      CounterRestored(fuel, Strict, docs, C, sub, stop.value);
    }
  }

  lemma LevelsIgnoreCounters(docs: Docs, C: State, C1: State, lv: map<Entry, nat>)
    requires Acyclic(docs, C, lv) && C1.child == C.child && C1.files == C.files
    ensures Acyclic(docs, C1, lv)
  {
    hide Below;
    forall e | e in lv
      ensures Levelled(docs, C1, lv, e)
    {
      assert Levelled(docs, C, lv, e);
    }
  }

  lemma EnteredIdle(C: State, e: Entry, enter: bool, lv: map<Entry, nat>, n: nat)
    requires Idle(C, lv, n) && Below(lv, e, n)
    ensures Idle(if enter then Entered(C, e) else C, lv, lv[e])
  {
  }

  /** Without cycles, no counter stops anything. */
  lemma {:induction false} AcyclicRun(fuel: nat, docs: Docs, C: State, t: Job, lv: map<Entry, nat>, n: nat)
    requires Exec(fuel, Guarded, docs, C, t).Some?
    requires Acyclic(docs, C, lv) && Idle(C, lv, n) && Fits(C, t, lv, n)
    ensures var r := Exec(fuel, Strict, docs, C, t); r.Some? && Acyclic(docs, r.value.state, lv)
    decreases fuel
  {
    hide PlanFor, Acyclic, Idle, Fits, Below, DepthIn, Entered, Leaving;
    if !t.Return? {
      JobPlanFits(docs, C, t, lv, n);
      match PlanFor(docs, C, t)
      case Instead(C1, t1) => AcyclicRun(fuel - 1, docs, C1, t1, lv, n);
      case Checked(e, enter, body) =>
        var C1 := if enter then Entered(C, e) else C;
        AtCheck(docs, C, e, enter, lv, n);
        AcyclicRun(fuel - 1, docs, C1, body, lv, lv[e]);
        LeftLevels(docs, e, enter, Exec(fuel - 1, Strict, docs, C1, body).value, lv);
      case First(C1, sub, stop, leak, next) =>
        AcyclicRun(fuel - 1, docs, C1, sub, lv, n);
        StrictAgrees(fuel - 1, docs, C1, sub);
        FitsLater(fuel - 1, docs, C1, sub, next, lv, n, stop);
        var o := Exec(fuel - 1, Strict, docs, C1, sub).value;
        if o.ret == NotFound {
          AcyclicRun(fuel - 1, docs, o.state, next, lv, n);
        }
    }
  }

  lemma AtCheck(docs: Docs, C: State, e: Entry, enter: bool, lv: map<Entry, nat>, n: nat)
    requires Acyclic(docs, C, lv) && Idle(C, lv, n) && Below(lv, e, n)
    ensures e in lv && DepthIn(C, e) == 0
    ensures var C1 := if enter then Entered(C, e) else C; Acyclic(docs, C1, lv) && Idle(C1, lv, lv[e])
  {
    hide Acyclic;
    IdleCounter(C, lv, n, e);
    EnteredIdle(C, e, enter, lv, n);
    LevelsIgnoreCounters(docs, C, if enter then Entered(C, e) else C, lv);
  }

  lemma LeftLevels(docs: Docs, e: Entry, enter: bool, o: Outcome, lv: map<Entry, nat>)
    requires Acyclic(docs, o.state, lv)
    ensures Acyclic(docs, Leaving(e, enter, o).state, lv)
  {
    hide Acyclic;
    LevelsIgnoreCounters(docs, o.state, Leaving(e, enter, o).state, lv);
  }

  /** Catalogs without cycles, none of whose lists is being searched: no resolution is stopped. */
  lemma AcyclicNeverStops(docs: Docs, C: State, catal: Entry, q: Query, lv: map<Entry, nat>, o: Outcome)
    requires Acyclic(docs, C, lv) && catal in lv && Idle(C, lv, lv[catal] + 1)
    requires Ends(Guarded, docs, C, ListsJob(catal, q), o)
    ensures NeverStopped(docs, C, ListsJob(catal, q))
  {
    hide Exec, Acyclic, Idle, Fits, ListsJob;
    var n: nat :| Exec(n, Guarded, docs, C, ListsJob(catal, q)) == Some(o);
    ListsFit(docs, C, catal, q, lv, lv[catal] + 1);
    AcyclicRun(n, docs, C, ListsJob(catal, q), lv, lv[catal] + 1);
  }

  // --- Lists that are silent ------------------------------------------------------------------------------

  /** What a list says of the first identifier of which it says anything. */
  ghost function Decided(K: Kinds, c: seq<Entry>, halves: seq<(Mode, seq<byte>)>): Verdict {
    if halves == [] then Silent
    else
      var (mode, id) := halves[0];
      var v := SaysBy(K, c, mode, id);
      if v == Silent then Decided(K, c, halves[1..]) else v
  }

  lemma {:induction false} ListPlanDecides(C: State, catal: Entry, halves: seq<(Mode, seq<byte>)>, q: Query)
    ensures var v, p := Decided(C.kinds, Chain(catal), halves), ListPlan(C, catal, halves, q);
            && (v.Answer? ==> p == Instead(C, Return(v.found)))
            && (v.Delegated? ==> p.First? && p.otherwise == Return(Break) && p.stop == None)
            && (v.Silent? ==> p == Instead(C, InNext(catal, Chain(catal), q)))
    decreases |halves|
  {
    hide SaysBy, Chain;
    if halves != [] {
      ListPlanDecides(C, catal, halves[1..], q);
    }
  }

  lemma InsideDecides(n: nat, docs: Docs, C: State, catal: Entry, q: Query)
    requires Exec(n, Guarded, docs, C, Inside(catal, q)).Some? && q != External(None, None)
    ensures var v, o := Decided(C.kinds, Chain(catal), Halves(q)), Exec(n, Guarded, docs, C, Inside(catal, q)).value;
            (v.Answer? ==> o.ret == v.found) && (v.Delegated? ==> o.ret != NotFound)
  {
    hide SaysBy, Chain, ListPlan, Decided, Halves;
    ListPlanDecides(C, catal, Halves(q), q);
    var v, p := Decided(C.kinds, Chain(catal), Halves(q)), ListPlan(C, catal, Halves(q), q);
    assert PlanFor(docs, C, Inside(catal, q)) == p;
    hide PlanFor;
    if v.Answer? {
      assert Exec(n, Guarded, docs, C, Inside(catal, q)) == Exec(n - 1, Guarded, docs, C, Return(v.found));
    } else if v.Delegated? {
      var o := Exec(n - 1, Guarded, docs, p.state, p.sub);
      assert o.Some?;
      assert Exec(n - 1, Guarded, docs, o.value.state, Return(Break)) == Some(Outcome(Break, false, o.value.state));
    }
  }

  /** A list over its limit finds nothing; any other answers what it says itself, and cuts the search
      where delegates decide. */
  lemma ListDecides(docs: Docs, C: State, catal: Entry, q: Query, o: Outcome)
    requires Ends(Guarded, docs, C, InList(catal, q), o) && q != External(None, None)
    ensures DepthIn(C, catal) > MAX_CATAL_DEPTH ==> o == Outcome(NotFound, false, C)
    ensures DepthIn(C, catal) <= MAX_CATAL_DEPTH ==>
              var v := Decided(C.kinds, Chain(catal), Halves(q));
              (v.Answer? ==> o.ret == v.found) && (v.Delegated? ==> o.ret != NotFound)
  {
    hide SaysBy, Chain, ListPlan, Decided, Halves, DepthIn;
    var n: nat :| Exec(n, Guarded, docs, C, InList(catal, q)) == Some(o);
    var C1 := if q.External? then Entered(C, catal) else C;
    assert PlanFor(docs, C, InList(catal, q)) == Checked(catal, q.External?, Inside(catal, q)) && C1.kinds == C.kinds;
    hide PlanFor;
    if DepthIn(C, catal) <= MAX_CATAL_DEPTH {
      assert Exec(n - 1, Guarded, docs, C1, Inside(catal, q)).Some?;
      InsideDecides(n - 1, docs, C1, catal, q);
    }
  }

  /** A list over its limit stays silent, whatever is resolved in the meantime. */
  lemma StaysSilent(docs: Docs, C: State, t: Job, o: Outcome, catal: Entry, q: Query, o': Outcome)
    requires Ends(Guarded, docs, C, t, o) && Ends(Guarded, docs, o.state, InList(catal, q), o')
    requires DepthIn(C, catal) > MAX_CATAL_DEPTH && q != External(None, None)
    ensures o' == Outcome(NotFound, false, o.state)
  {
    hide Exec, DepthIn;
    var n: nat :| Exec(n, Guarded, docs, C, t) == Some(o);
    CountersAreExact(n, Guarded, docs, C, t, catal);
    ListDecides(docs, o.state, catal, q, o');
  }
}
