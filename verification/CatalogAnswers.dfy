/** Where the answers of catalog resolution come from: a URI is returned only on the word of an entry
    for the identifier that was asked for. */
module CatalogAnswers {
  import opened Bytes
  import opened CatalogQuery
  import opened CatalogStore
  import opened CatalogRules

  /** The entry answers the query with this URI. */
  ghost predicate Answers(K: Kinds, e: Entry, q: Query, uri: seq<byte>) {
    match q
    case Reference(u) => AnswersId(K, e, Uri, Some(RewriteUri), u, uri)
    case External(pub, sys) =>
      || (sys.Some? && AnswersId(K, e, System, Some(RewriteSystem), sys.value, uri))
      || (pub.Some? && AnswersId(K, e, Public, None, pub.value, uri))
  }

  ghost predicate AnswersId(K: Kinds, e: Entry, exact: Kind, rewrite: Option<Kind>, id: seq<byte>, uri: seq<byte>) {
    || (IsExact(K, e, exact, id) && e.url == Some(uri))
    || (rewrite.Some? && Rewrites(K, e, rewrite.value, id) && e.url.Some? &&
        uri == e.url.value + id[|e.name.value|..])
  }

  /** A URI is only returned on the word of an entry. */
  ghost predicate Justified(K: Kinds, q: Query, ret: Found) {
    ret.Resolved? ==> exists e :: e in K && Answers(K, e, q, ret.uri)
  }

  /** Entries keep their kinds, or become broken. */
  ghost predicate Fewer(K: Kinds, K': Kinds) {
    forall e :: e in K' && K'[e] != BrokenCatalog ==> e in K && K[e] == K'[e]
  }

  lemma FewerOn(K: Kinds, K1: Kinds, K2: Kinds)
    requires Fewer(K, K1) && Fewer(K1, K2)
    ensures Fewer(K, K2)
  {
  }

  lemma LoadedFewer(docs: Docs, C: State, e: Entry)
    ensures Fewer(C.kinds, Loaded(docs, C, e).kinds)
  {
  }

  /** What a later answer rests on was there before. */
  lemma JustifiedBefore(K: Kinds, K': Kinds, q: Query, ret: Found)
    requires Fewer(K, K') && Justified(K', q, ret)
    ensures Justified(K, q, ret)
  {
    if ret.Resolved? {
      var e :| e in K' && Answers(K', e, q, ret.uri);
      assert Answers(K, e, q, ret.uri);
    }
  }

  // --- The queries of jobs ----------------------------------------------------------------------------

  /** The same query, with an identifier left out or not. */
  ghost predicate PartOf(part: Query, q: Query) {
    match q
    case Reference(_) => part == q
    case External(pub, sys) =>
      part.External? && (part.pub.None? || part.pub == pub) && (part.sys.None? || part.sys == sys)
  }

  ghost function JobQuery(t: Job): Query {
    match t
    case Return(_) => External(None, None)
    case UriLists(_, u) => Canon(Reference(u))
    case InDelegates(_, mode, id, _) => QueryOf(mode, id)
    case InLists(_, q) => q
    case InList(_, q) => q
    case Inside(_, q) => q
    case InNext(_, _, q) => q
  }

  /** The job asks for (a part of) the query. */
  ghost predicate Asks(t: Job, q: Query) {
    if t.Return? then !t.found.Resolved? else Canonical(JobQuery(t)) && PartOf(JobQuery(t), q)
  }

  /** ... or has its answer already. */
  ghost predicate AsksOrHas(K: Kinds, t: Job, q: Query) {
    Asks(t, q) || (t.Return? && Justified(K, q, t.found))
  }

  ghost predicate PlanAsks(C: State, p: Plan, q: Query) {
    match p
    case Instead(C1, t1) => Fewer(C.kinds, C1.kinds) && AsksOrHas(C1.kinds, t1, q)
    case Checked(_, _, body) => Asks(body, q)
    case First(C1, sub, _, _, next) => Fewer(C.kinds, C1.kinds) && Asks(sub, q) && Asks(next, q)
  }

  lemma PartOfPart(a: Query, b: Query, q: Query)
    requires PartOf(a, b) && PartOf(b, q)
    ensures PartOf(a, q)
  {
  }

  lemma PartAnswers(K: Kinds, e: Entry, part: Query, q: Query, uri: seq<byte>)
    requires PartOf(part, q) && Answers(K, e, part, uri)
    ensures Answers(K, e, q, uri)
  {
  }

  lemma PartJustifies(K: Kinds, part: Query, q: Query, ret: Found)
    requires PartOf(part, q) && Justified(K, part, ret)
    ensures Justified(K, q, ret)
  {
    hide Answers, PartOf;
    if ret.Resolved? {
      var e :| e in K && Answers(K, e, part, ret.uri);
      PartAnswers(K, e, part, q, ret.uri);
    }
  }

  /** What a list says by itself is the word of one of its entries. */
  lemma DirectAnswers(K: Kinds, c: seq<Entry>, exact: Kind, rewrite: Option<Kind>, id: seq<byte>, uri: seq<byte>)
    returns (e: Entry)
    requires Direct(K, c, exact, rewrite, id) == Some(Resolved(uri))
    requires exact != Ignored && rewrite != Some(Ignored)
    ensures e in K && AnswersId(K, e, exact, rewrite, id, uri)
  {
    FirstExactIs(K, c, exact, id);
    e := if FirstExact(K, c, exact, id).Some? then FirstExact(K, c, exact, id).value
         else c[LongestRule(K, c, |c|, rewrite.value, id).value];
  }

  lemma SaysJustified(K: Kinds, c: seq<Entry>, mode: Mode, id: seq<byte>)
    ensures var v := SaysBy(K, c, mode, id); v.Answer? ==> Justified(K, QueryOf(mode, id), v.found)
  {
    hide Direct, HasDelegate, AnswersId;
    var v := SaysBy(K, c, mode, id);
    if v.Answer? && v.found.Resolved? {
      var e: Entry;
      match mode {
        case BySystem => e := DirectAnswers(K, c, System, Some(RewriteSystem), id, v.found.uri);
        case ByPublic => e := DirectAnswers(K, c, Public, None, id, v.found.uri);
        case ByUri => e := DirectAnswers(K, c, Uri, Some(RewriteUri), id, v.found.uri);
      }
      assert Answers(K, e, QueryOf(mode, id), v.found.uri);
    }
  }

  lemma HalfOf(q: Query, i: nat)
    requires Canonical(q) && i < |Halves(q)|
    ensures var (mode, id) := Halves(q)[i]; Canonical(QueryOf(mode, id)) && PartOf(QueryOf(mode, id), q)
  {
    if q.External? {
      CanonicalParts(q.pub, q.sys);
    }
  }

  /** The plan for one list asks for parts of the query, or has an answer that an entry gives. */
  lemma {:induction false} ListPlanAsks(C: State, catal: Entry, i: nat, part: Query, q: Query)
    requires Canonical(part) && PartOf(part, q) && i <= |Halves(part)|
    ensures PlanAsks(C, ListPlan(C, catal, Halves(part)[i..], part), q)
    decreases |Halves(part)| - i
  {
    hide Canonical, SaysBy, Chain, Halves, PartOf, Justified, QueryOf;
    var halves := Halves(part)[i..];
    if halves != [] {
      HalfOf(part, i);
      var (mode, id) := halves[0];
      assert halves[1..] == Halves(part)[i + 1..];
      PartOfPart(QueryOf(mode, id), part, q);
      SaysJustified(C.kinds, Chain(catal), mode, id);
      var v := SaysBy(C.kinds, Chain(catal), mode, id);
      if v.Answer? {
        PartJustifies(C.kinds, QueryOf(mode, id), q, v.found);
      }
      ListPlanAsks(C, catal, i + 1, part, q);
    }
  }

  lemma ListsAsk(child: Entry, part: Query, q: Query)
    requires Canonical(part) && PartOf(part, q)
    ensures Asks(ListsJob(child, part), q)
  {
    hide Canonical, Canon, Chain, PartOf;
    CanonOfCanonical(part);
  }

  lemma JobPlanAsks(docs: Docs, C: State, t: Job, q: Query)
    requires !t.Return? && Asks(t, q)
    ensures PlanAsks(C, PlanFor(docs, C, t), q)
  {
    hide SaysBy, Chain, Loaded, ListsJob, ListPlan, Canon, TriesDelegate, KindIn, ChildIn, Canonical, PartOf, Justified,
         Halves;
    match t
    case UriLists(_, _) =>
    case InList(_, _) =>
    case Inside(catal, part) =>
      ListPlanAsks(C, catal, 0, part, q);
      assert Halves(part)[0..] == Halves(part);
    case InLists(rest, part) => if rest != [] { RestAsks(docs, C, t, rest, part, q); }
    case InNext(_, rest, part) => if rest != [] { RestAsks(docs, C, t, rest, part, q); }
    case InDelegates(rest, mode, id, _) => if rest != [] { RestAsks(docs, C, t, rest, QueryOf(mode, id), q); }
  }

  lemma RestAsks(docs: Docs, C: State, t: Job, rest: seq<Entry>, part: Query, q: Query)
    requires (t.InLists? || t.InNext? || t.InDelegates?) && rest == t.rest && rest != []
    requires Asks(t, q) && part == JobQuery(t)
    ensures PlanAsks(C, PlanFor(docs, C, t), q)
  {
    hide Chain, Loaded, ListsJob, Canon, TriesDelegate, KindIn, ChildIn, Canonical, PartOf, Justified, Remember,
         QueryOf,
         Fewer;
    var C1 := Loaded(docs, C, rest[0]);
    LoadedFewer(docs, C, rest[0]);
    SameKinds(C.kinds);
    if ChildIn(C1, rest[0]) != null {
      ListsAsk(ChildIn(C1, rest[0]), part, q);
    }
  }

  lemma SameKinds(K: Kinds)
    ensures Fewer(K, K)
  {
  }

  // --- Runs -------------------------------------------------------------------------------------------

  /** With counters or without, a URI is returned only if an entry that was there at the start
      answers the query with it, and entries only ever become broken. */
  lemma {:induction false} RunJustified(fuel: nat, g: Guard, docs: Docs, C: State, t: Job, q: Query)
    requires Exec(fuel, g, docs, C, t).Some? && AsksOrHas(C.kinds, t, q)
    ensures var o := Exec(fuel, g, docs, C, t).value; Justified(C.kinds, q, o.ret) && Fewer(C.kinds, o.state.kinds)
    decreases fuel
  {
    hide PlanFor, Justified, Fewer, Fires, Asks, Entered, Left, Leaked;
    SameKinds(C.kinds);
    if t.Return? {
      HasAnswer(C.kinds, t, q);
    } else {
      JobPlanAsks(docs, C, t, q);
      var o := Exec(fuel, g, docs, C, t).value;
      NothingToJustify(C.kinds, q);
      match PlanFor(docs, C, t)
      case Instead(C1, t1) =>
        RunJustified(fuel - 1, g, docs, C1, t1, q);
        JustifiedBefore(C.kinds, C1.kinds, q, o.ret);
        FewerOn(C.kinds, C1.kinds, o.state.kinds);
      case Checked(e, enter, body) =>
        if !Fires(g, C, e) {
          var C1 := if enter then Entered(C, e) else C;
          RunJustified(fuel - 1, g, docs, C1, body, q);
          CountersKeepKinds(C, e, enter, Exec(fuel - 1, g, docs, C1, body).value);
        }
      case First(C1, sub, stop, leak, next) =>
        RunJustified(fuel - 1, g, docs, C1, sub, q);
        var o1 := Exec(fuel - 1, g, docs, C1, sub).value;
        JustifiedBefore(C.kinds, C1.kinds, q, o1.ret);
        FewerOn(C.kinds, C1.kinds, o1.state.kinds);
        if o1.ret == NotFound && !(stop.Some? && Fires(g, o1.state, stop.value)) {
          RunJustified(fuel - 1, g, docs, o1.state, next, q);
          JustifiedBefore(C.kinds, o1.state.kinds, q, o.ret);
          FewerOn(C.kinds, o1.state.kinds, o.state.kinds);
        }
    }
  }

  lemma HasAnswer(K: Kinds, t: Job, q: Query)
    requires t.Return? && AsksOrHas(K, t, q)
    ensures Justified(K, q, t.found)
  {
  }

  lemma NothingToJustify(K: Kinds, q: Query)
    ensures Justified(K, q, NotFound)
  {
  }

  lemma CountersKeepKinds(C: State, e: Entry, enter: bool, o: Outcome)
    ensures Entered(C, e).kinds == C.kinds && Leaving(e, enter, o).state.kinds == o.state.kinds
  {
  }

  /** A resolved external identifier or URI reference, as it was asked for, has an entry that answers
      its canonical form. */
  lemma ResolvedIsJustified(docs: Docs, C: State, catal: Entry, q: Query, o: Outcome)
    requires Ends(Guarded, docs, C, ListsJob(catal, q), o)
    ensures Justified(C.kinds, Canon(q), o.ret)
  {
    hide Exec, Canonical, Canon, Chain, Justified;
    CanonIsCanonical(q);
    var n: nat :| Exec(n, Guarded, docs, C, ListsJob(catal, q)) == Some(o);
    assert Asks(ListsJob(catal, q), Canon(q));
    RunJustified(n, Guarded, docs, C, ListsJob(catal, q), Canon(q));
  }
}
