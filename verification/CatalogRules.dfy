/** What one list of catalog entries says of an identifier, and resolution as a machine that works
    off jobs: with the depth counters that the code has, without them, or only as long as none of
    them stops it. */
module CatalogRules {
  import opened Bytes
  import opened CatalogUrn
  import opened CatalogQuery
  import opened CatalogStore

  const MAX_DELEGATE: nat := 50

  /** The kinds of the entries at some moment. */
  type Kinds = map<Entry, Kind>

  /** The result of a resolution: NULL, XML_CATAL_BREAK, or a URI. */
  datatype Found = NotFound | Break | Resolved(uri: seq<byte>)

  /** !xmlStrncmp(id, cur->name, xmlStrlen(cur->name)): a missing name matches everything. */
  predicate Starts(id: seq<byte>, name: Id) {
    name.None? || HasPrefix(id, name.value)
  }

  /** xmlStrdup of the entry's URL. */
  function Dup(url: Id): Found { if url.None? then NotFound else Resolved(url.value) }

  /** The first entry of a kind with exactly this name. */
  ghost function FirstExact(K: Kinds, c: seq<Entry>, kind: Kind, id: seq<byte>): (r: Option<Entry>) {
    if c == [] then None
    else if IsExact(K, c[0], kind, id) then Some(c[0])
    else FirstExact(K, c[1..], kind, id)
  }

  ghost predicate IsExact(K: Kinds, e: Entry, kind: Kind, id: seq<byte>) {
    KindIn(K, e) == kind && e.name == Some(id)
  }

  /** It is an exact entry, none before it is, and there is none at all if none is found. */
  lemma {:induction false} FirstExactIs(K: Kinds, c: seq<Entry>, kind: Kind, id: seq<byte>)
    ensures var r := FirstExact(K, c, kind, id);
            && (r.Some? ==> exists i :: 0 <= i < |c| && c[i] == r.value && IsExact(K, c[i], kind, id) &&
                                        forall k :: 0 <= k < i ==> !IsExact(K, c[k], kind, id))
            && (r.None? ==> forall i :: 0 <= i < |c| ==> !IsExact(K, c[i], kind, id))
  {
    if c != [] {
      FirstExactIs(K, c[1..], kind, id);
      var r := FirstExact(K, c[1..], kind, id);
      if IsExact(K, c[0], kind, id) {
        assert c[0] == c[0];
      } else if r.Some? {
        var j :| 0 <= j < |c[1..]| && c[1..][j] == r.value && IsExact(K, c[1..][j], kind, id) &&
                 forall k :: 0 <= k < j ==> !IsExact(K, c[1..][k], kind, id);
        assert c[j + 1] == r.value;
        assert forall k :: 0 <= k < j + 1 ==> !IsExact(K, c[k], kind, id) by {
          forall k | 0 <= k < j + 1
            ensures !IsExact(K, c[k], kind, id)
          {
            assert k > 0 ==> c[k] == c[1..][k - 1];
          }
        }
      }
    }
  }

  ghost predicate Rewrites(K: Kinds, e: Entry, kind: Kind, id: seq<byte>) {
    KindIn(K, e) == kind && e.name.Some? && e.name.value != [] && HasPrefix(id, e.name.value)
  }

  /** The longest rewriting rule among the first `n` entries, the first of its length. */
  ghost function LongestRule(K: Kinds, c: seq<Entry>, n: nat, kind: Kind, id: seq<byte>): (r: Option<nat>)
    requires n <= |c|
    ensures r.None? ==> forall i :: 0 <= i < n ==> !Rewrites(K, c[i], kind, id)
    ensures r.Some? ==> r.value < n && Rewrites(K, c[r.value], kind, id)
    ensures r.Some? ==> forall i :: 0 <= i < n && Rewrites(K, c[i], kind, id) ==>
              |c[i].name.value| <= |c[r.value].name.value| &&
                (i < r.value ==> |c[i].name.value| < |c[r.value].name.value|)
  {
    if n == 0 then None
    else
      var b := LongestRule(K, c, n - 1, kind, id);
      if Rewrites(K, c[n - 1], kind, id) &&
        (b.None? || |c[b.value].name.value| < |c[n - 1].name.value|) then Some(n - 1) else b
  }

  /** A rule applied: the replacement followed by the rest of the identifier. */
  ghost function Rewritten(e: Entry, id: seq<byte>): Found
    requires e.name.Some? && HasPrefix(id, e.name.value)
  {
    if e.url.None? then NotFound else Resolved(e.url.value + id[|e.name.value|..])
  }

  /** What exact entries and rewriting rules say: exact entries come first, then the longest
      rule. Public identifiers have no rules. */
  ghost function Direct(K: Kinds, c: seq<Entry>, exact: Kind, rewrite: Option<Kind>,
                        id: seq<byte>): (r: Option<Found>) {
    var first := FirstExact(K, c, exact, id);
    if first.Some? then Some(Dup(first.value.url))
    else if rewrite.None? then None
    else match LongestRule(K, c, |c|, rewrite.value, id)
      case None => None
      case Some(b) => Some(Rewritten(c[b], id))
  }

  datatype Mode = BySystem | ByPublic | ByUri

  /** The delegates that a loop tries. */
  predicate Delegates(e: Entry, kind: Kind, mode: Mode, id: seq<byte>) {
    && Starts(id, e.name)
    && match mode
       case BySystem => kind == DelegateSystem
       case ByPublic => kind == DelegatePublic && e.prefer == PreferPublic
       case ByUri => kind == DelegateSystem || kind == DelegateUri
  }

  /** The delegates for which the scan of a list looks. */
  predicate Announces(e: Entry, kind: Kind, mode: Mode, id: seq<byte>) {
    Delegates(e, kind, mode, id) && (mode == ByUri ==> kind == DelegateUri)
  }

  ghost predicate HasDelegate(K: Kinds, c: seq<Entry>, mode: Mode, id: seq<byte>) {
    exists i :: 0 <= i < |c| && Announces(c[i], KindIn(K, c[i]), mode, id)
  }

  ghost predicate HasNext(K: Kinds, c: seq<Entry>) {
    exists i :: 0 <= i < |c| && KindIn(K, c[i]) == NextCatalog
  }

  /** What a list says by itself: an answer, that delegates decide, or nothing. */
  datatype Verdict = Answer(found: Found) | Delegated | Silent

  ghost function SaysOf(K: Kinds, c: seq<Entry>, exact: Kind, rewrite: Option<Kind>, mode: Mode,
                        id: seq<byte>): Verdict {
    match Direct(K, c, exact, rewrite, id)
    case Some(found) => Answer(found)
    case None => if HasDelegate(K, c, mode, id) then Delegated else Silent
  }

  /** The three searches that exist. */
  predicate Search(exact: Kind, rewrite: Option<Kind>, mode: Mode) {
    match mode
    case BySystem => exact == System && rewrite == Some(RewriteSystem)
    case ByPublic => exact == Public && rewrite == None
    case ByUri => exact == Uri && rewrite == Some(RewriteUri)
  }

  ghost function SaysBy(K: Kinds, c: seq<Entry>, mode: Mode, id: seq<byte>): Verdict {
    match mode
    case BySystem => SaysOf(K, c, System, Some(RewriteSystem), mode, id)
    case ByPublic => SaysOf(K, c, Public, None, mode, id)
    case ByUri => SaysOf(K, c, Uri, Some(RewriteUri), mode, id)
  }

  ghost function QueryOf(mode: Mode, id: seq<byte>): Query {
    match mode
    case BySystem => External(None, Some(id))
    case ByPublic => External(Some(id), None)
    case ByUri => Reference(id)
  }

  // --- Jobs -------------------------------------------------------------------------------------------

  /** What remains to be done: a list of catalogs, the same for a URI reference from its own depth
      check on, one list of entries from its depth check on or from behind it, the rest of a list
      whose delegates or next catalogs are tried, or nothing. */
  datatype Job =
    | InLists(rest: seq<Entry>, q: Query)
    | UriLists(catal: Entry, uri: seq<byte>)
    | InList(catal: Entry, q: Query)
    | Inside(catal: Entry, q: Query)
    | InDelegates(rest: seq<Entry>, mode: Mode, id: seq<byte>, tried: seq<Id>)
    | InNext(catal: Entry, rest: seq<Entry>, q: Query)
    | Return(found: Found)

  /** How it is done: by another job instead, perhaps behind the depth check of a list and perhaps
      with the list entered meanwhile; or by a job first and, if that finds nothing and a list is not
      over its limit, another one. */
  datatype Plan =
    | Instead(state: State, job: Job)
    | Checked(catal: Entry, enter: bool, body: Job)
    | First(state: State, sub: Job, stop: Option<Entry>, leak: bool, otherwise: Job)

  /** The identifiers of a query, in the order in which they decide. */
  ghost function Halves(q: Query): seq<(Mode, seq<byte>)> {
    match q
    case Reference(u) => [(ByUri, u)]
    case External(pub, sys) =>
      (if sys.Some? then [(BySystem, sys.value)] else []) + (if pub.Some? then [(ByPublic, pub.value)] else [])
  }

  /** The first identifier of which the list says something decides; if there is none, the next
      catalogs are tried. Where delegates decide and find nothing, the search is cut. */
  ghost function ListPlan(C: State, catal: Entry, halves: seq<(Mode, seq<byte>)>, q: Query): Plan {
    var c := Chain(catal);
    if halves == [] then Instead(C, InNext(catal, c, q))
    else
      var (mode, id) := halves[0];
      match SaysBy(C.kinds, c, mode, id)
      case Answer(found) => Instead(C, Return(found))
      case Delegated => First(C, InDelegates(c, mode, id, []), None, false, Return(Break))
      case Silent => ListPlan(C, catal, halves[1..], q)
  }

  ghost function Remember(tried: seq<Id>, url: Id): seq<Id> {
    if |tried| < 50 then tried + [url] else tried
  }

  /** The search of a list of catalogs: where nothing is asked, nothing is searched, and URI
      references check the depth of the list as well. */
  ghost function ListsJob(catal: Entry, q: Query): Job {
    if q == External(None, None) then Return(NotFound)
    else match q
      case External(_, _) => InLists(Chain(catal), Canon(q))
      case Reference(u) => UriLists(catal, u)
  }

  ghost predicate TriesDelegate(C: State, e: Entry, mode: Mode, id: seq<byte>, tried: seq<Id>) {
    Delegates(e, KindIn(C.kinds, e), mode, id) && e.url !in tried
  }

  /** Resolution as sections 7.1 and 7.2.2 of the OASIS draft of 2001-08-06 describe it, with the
      places where the code looks at depth counters. */
  ghost function PlanFor(docs: Docs, C: State, t: Job): Plan {
    match t
    case Return(_) => Instead(C, t)
    case UriLists(catal, uri) => Checked(catal, true, InLists(Chain(catal), Canon(Reference(uri))))
    case InList(catal, q) => Checked(catal, q.External?, Inside(catal, q))
    case Inside(catal, q) =>
      if q == External(None, None) then Instead(C, Return(NotFound)) else ListPlan(C, catal, Halves(q), q)
    case InLists(rest, q) =>
      if rest == [] then Instead(C, Return(NotFound))
      else if KindIn(C.kinds, rest[0]) == CatalogList then
        var C1, next := Loaded(docs, C, rest[0]), InLists(rest[1..], q);
        var child := ChildIn(C1, rest[0]);
        if child == null then Instead(C1, next)
        else First(C1, InList(child, q), if q.External? then Some(child) else None, false, next)
      else Instead(C, InLists(rest[1..], q))
    case InNext(catal, rest, q) =>
      if rest == [] then Instead(C, Return(NotFound))
      else if KindIn(C.kinds, rest[0]) == NextCatalog then
        var C1, next := Loaded(docs, C, rest[0]), InNext(catal, rest[1..], q);
        var child := ChildIn(C1, rest[0]);
        if child == null then Instead(C1, next)
        else First(C1, ListsJob(child, q), if q.External? then Some(catal) else None, true, next)
      else Instead(C, InNext(catal, rest[1..], q))
    case InDelegates(rest, mode, id, tried) =>
      if rest == [] then Instead(C, Return(NotFound))
      else if TriesDelegate(C, rest[0], mode, id, tried) then
        var C1, next := Loaded(docs, C, rest[0]), InDelegates(rest[1..], mode, id, Remember(tried, rest[0].url));
        var child := ChildIn(C1, rest[0]);
        if child == null then Instead(C1, next)
        else First(C1, ListsJob(child, QueryOf(mode, id)), None, false, next)
      else Instead(C, InDelegates(rest[1..], mode, id, tried))
  }

  // --- The machine ------------------------------------------------------------------------------------

  /** What happens when a list is over its limit: the search is stopped as the code does it, or goes
      on as if there were no limit, or is given up altogether. */
  datatype Guard = Guarded | Unguarded | Strict

  ghost predicate Fires(g: Guard, C: State, e: Entry) { g != Unguarded && DepthIn(C, e) > 50 }

  /** A result, whether the list in which it was found is left without its counter being taken back,
      and the catalogs afterwards. */
  datatype Outcome = Outcome(ret: Found, limit: bool, state: State)

  ghost function Stopped(g: Guard, leak: bool, C: State): Option<Outcome> {
    if g == Strict then None else Some(Outcome(NotFound, leak, C))
  }

  /** A list is left after the job inside it is done. */
  ghost function Leaving(catal: Entry, enter: bool, o: Outcome): Outcome {
    if !enter then o
    else Outcome(o.ret, false, if o.limit then Leaked(o.state, catal) else Left(o.state, catal))
  }

  /** The outcome of a job, if that many steps are enough. */
  ghost function Exec(fuel: nat, g: Guard, docs: Docs, C: State, t: Job): (r: Option<Outcome>)
    decreases fuel
  {
    if t.Return? then Some(Outcome(t.found, false, C))
    else if fuel == 0 then None
    else match PlanFor(docs, C, t)
      case Instead(C1, t1) => Exec(fuel - 1, g, docs, C1, t1)
      case Checked(e, enter, body) =>
        if Fires(g, C, e) then Stopped(g, false, C)
        else (match Exec(fuel - 1, g, docs, if enter then Entered(C, e) else C, body)
              case None => None
              case Some(o) => Some(Leaving(e, enter, o)))
      case First(C1, sub, stop, leak, next) =>
        match Exec(fuel - 1, g, docs, C1, sub)
        case None => None
        case Some(o) =>
          if o.ret != NotFound then Some(Outcome(o.ret, false, o.state))
          else if stop.Some? && Fires(g, o.state, stop.value) then Stopped(g, leak, o.state)
          else Exec(fuel - 1, g, docs, o.state, next)
  }

  /** More steps do not change an outcome. */
  lemma {:induction false} ExecMore(fuel: nat, more: nat, g: Guard, docs: Docs, C: State, t: Job)
    requires Exec(fuel, g, docs, C, t).Some? && fuel <= more
    ensures Exec(more, g, docs, C, t) == Exec(fuel, g, docs, C, t)
    decreases fuel
  {
    hide PlanFor, Leaving, Stopped, Fires;
    if !t.Return? {
      match PlanFor(docs, C, t)
      case Instead(C1, t1) => ExecMore(fuel - 1, more - 1, g, docs, C1, t1);
      case Checked(e, enter, body) =>
        if !Fires(g, C, e) {
          ExecMore(fuel - 1, more - 1, g, docs, if enter then Entered(C, e) else C, body);
        }
      case First(C1, sub, stop, leak, next) =>
        ExecMore(fuel - 1, more - 1, g, docs, C1, sub);
        var o := Exec(fuel - 1, g, docs, C1, sub).value;
        if o.ret == NotFound && !(stop.Some? && Fires(g, o.state, stop.value)) {
          ExecMore(fuel - 1, more - 1, g, docs, o.state, next);
        }
    }
  }

  /** The job ends with this outcome. */
  ghost predicate Ends(g: Guard, docs: Docs, C: State, t: Job, o: Outcome) {
    exists fuel: nat :: Exec(fuel, g, docs, C, t) == Some(o)
  }

  /** A job has one outcome. */
  lemma EndsOne(g: Guard, docs: Docs, C: State, t: Job, o: Outcome, o': Outcome)
    requires Ends(g, docs, C, t, o) && Ends(g, docs, C, t, o')
    ensures o == o'
  {
    hide Exec;
    var a: nat :| Exec(a, g, docs, C, t) == Some(o);
    var b: nat :| Exec(b, g, docs, C, t) == Some(o');
    if a <= b { ExecMore(a, b, g, docs, C, t); } else { ExecMore(b, a, g, docs, C, t); }
  }
}
