/** What a list of catalog entries makes of an identifier, with the kinds and names of the entries
    written out, and which delegate gives the answer. */
module CatalogDelegates {
  import opened Bytes
  import opened CatalogQuery
  import opened CatalogStore
  import opened CatalogRules
  import opened CatalogLimits
  import opened CatalogEndless

  // --- Entries ------------------------------------------------------------------------------------

  /** The name begins the identifier; a missing name does. */
  ghost predicate Begins(name: Id, id: seq<byte>) {
    name.Some? ==> |name.value| <= |id| && id[..|name.value|] == name.value
  }

  ghost predicate Has(K: Kinds, e: Entry, kind: Kind) { e in K && K[e] == kind }

  /** `system`, `public` or `uri`, with exactly this identifier */
  ghost predicate ExactEntry(K: Kinds, e: Entry, mode: Mode, id: seq<byte>) {
    && e.name == Some(id)
    && match mode
       case BySystem => Has(K, e, System)
       case ByPublic => Has(K, e, Public)
       case ByUri => Has(K, e, Uri)
  }

  /** `rewriteSystem` or `rewriteURI`, whose name begins the identifier and is not empty */
  ghost predicate RuleEntry(K: Kinds, e: Entry, mode: Mode, id: seq<byte>) {
    && e.name.Some? && e.name.value != [] && Begins(e.name, id)
    && match mode
       case BySystem => Has(K, e, RewriteSystem)
       case ByPublic => false
       case ByUri => Has(K, e, RewriteUri)
  }

  /** `delegateSystem`, `delegatePublic` where public identifiers are preferred, or `delegateURI`, whose
      name begins the identifier */
  ghost predicate DelegateEntry(K: Kinds, e: Entry, mode: Mode, id: seq<byte>) {
    && Begins(e.name, id)
    && match mode
       case BySystem => Has(K, e, DelegateSystem)
       case ByPublic => Has(K, e, DelegatePublic) && e.prefer == PreferPublic
       case ByUri => Has(K, e, DelegateUri)
  }

  /** The loop for URI references tries `delegateSystem` entries as well. */
  ghost predicate TriedEntry(K: Kinds, e: Entry, mode: Mode, id: seq<byte>) {
    DelegateEntry(K, e, mode, id) || (mode == ByUri && Begins(e.name, id) && Has(K, e, DelegateSystem))
  }

  ghost predicate NoExact(K: Kinds, c: seq<Entry>, mode: Mode, id: seq<byte>) {
    forall i :: 0 <= i < |c| ==> !ExactEntry(K, c[i], mode, id)
  }

  ghost predicate NoRule(K: Kinds, c: seq<Entry>, mode: Mode, id: seq<byte>) {
    forall i :: 0 <= i < |c| ==> !RuleEntry(K, c[i], mode, id)
  }

  ghost predicate SomeDelegate(K: Kinds, c: seq<Entry>, mode: Mode, id: seq<byte>) {
    exists i :: 0 <= i < |c| && DelegateEntry(K, c[i], mode, id)
  }

  /** The first exact entry. */
  ghost predicate FirstExactAt(K: Kinds, c: seq<Entry>, mode: Mode, id: seq<byte>, i: nat) {
    i < |c| && ExactEntry(K, c[i], mode, id) && forall k :: 0 <= k < i ==> !ExactEntry(K, c[k], mode, id)
  }

  /** The longest rule, the first of its length. */
  ghost predicate LongestRuleAt(K: Kinds, c: seq<Entry>, mode: Mode, id: seq<byte>, i: nat) {
    && i < |c| && RuleEntry(K, c[i], mode, id)
    && forall k :: 0 <= k < |c| && RuleEntry(K, c[k], mode, id) ==>
         |c[k].name.value| <= |c[i].name.value| && (k < i ==> |c[k].name.value| < |c[i].name.value|)
  }

  // --- What a list says -------------------------------------------------------------------------------

  lemma EntriesAre(K: Kinds, e: Entry, mode: Mode, id: seq<byte>)
    ensures ExactEntry(K, e, mode, id) <==> IsExact(K, e, ExactKindOf(mode), id)
    ensures RuleEntry(K, e, mode, id) <==> mode != ByPublic && Rewrites(K, e, RuleKindOf(mode), id)
    ensures DelegateEntry(K, e, mode, id) <==> Announces(e, KindIn(K, e), mode, id)
    ensures TriedEntry(K, e, mode, id) <==> Delegates(e, KindIn(K, e), mode, id)
  {
  }

  ghost function ExactKindOf(mode: Mode): Kind {
    match mode case BySystem => System case ByPublic => Public case ByUri => Uri
  }

  ghost function RuleKindOf(mode: Mode): Kind { if mode == ByUri then RewriteUri else RewriteSystem }

  lemma SaysByKinds(K: Kinds, c: seq<Entry>, mode: Mode, id: seq<byte>)
    ensures SaysBy(K, c, mode, id) ==
            SaysOf(K, c, ExactKindOf(mode), if mode == ByPublic then None else Some(RuleKindOf(mode)), mode, id)
  {
  }

  /** An exact entry answers with its URL. */
  lemma ExactSays(K: Kinds, c: seq<Entry>, mode: Mode, id: seq<byte>, i: nat)
    requires FirstExactAt(K, c, mode, id, i)
    ensures SaysBy(K, c, mode, id) == Answer(if c[i].url.None? then NotFound else Resolved(c[i].url.value))
  {
    hide SaysBy, SaysOf, FirstExact, ExactEntry, IsExact, LongestRule, HasDelegate;
    var kind := ExactKindOf(mode);
    forall k | 0 <= k < |c|
      ensures ExactEntry(K, c[k], mode, id) <==> IsExact(K, c[k], kind, id)
    {
      EntriesAre(K, c[k], mode, id);
    }
    FirstExactIs(K, c, kind, id);
    assert IsExact(K, c[i], kind, id);
    assert FirstExact(K, c, kind, id) == Some(c[i]);
    SaysByKinds(K, c, mode, id);
    SaysExact(K, c, kind, if mode == ByPublic then None else Some(RuleKindOf(mode)), mode, id);
  }

  lemma SaysExact(K: Kinds, c: seq<Entry>, exact: Kind, rewrite: Option<Kind>, mode: Mode, id: seq<byte>)
    requires FirstExact(K, c, exact, id).Some?
    ensures var e := FirstExact(K, c, exact, id).value;
            SaysOf(K, c, exact, rewrite, mode, id) ==
            Answer(if e.url.None? then NotFound else Resolved(e.url.value))
  {
  }

  lemma NoneExact(K: Kinds, c: seq<Entry>, mode: Mode, id: seq<byte>)
    requires NoExact(K, c, mode, id)
    ensures FirstExact(K, c, ExactKindOf(mode), id).None?
  {
    hide FirstExact, ExactEntry, IsExact;
    forall k | 0 <= k < |c|
      ensures !IsExact(K, c[k], ExactKindOf(mode), id)
    {
      EntriesAre(K, c[k], mode, id);
    }
    FirstExactIs(K, c, ExactKindOf(mode), id);
  }

  /** Otherwise the longest rule replaces its name by its URL. */
  lemma RuleSays(K: Kinds, c: seq<Entry>, mode: Mode, id: seq<byte>, i: nat)
    requires NoExact(K, c, mode, id) && LongestRuleAt(K, c, mode, id, i)
    ensures SaysBy(K, c, mode, id) ==
            Answer(if c[i].url.None? then NotFound else Resolved(c[i].url.value + id[|c[i].name.value|..]))
  {
    hide SaysBy, FirstExact, RuleEntry, Rewrites, LongestRule, HasDelegate, NoExact;
    NoneExact(K, c, mode, id);
    forall k | 0 <= k < |c|
      ensures RuleEntry(K, c[k], mode, id) <==> mode != ByPublic && Rewrites(K, c[k], RuleKindOf(mode), id)
    {
      EntriesAre(K, c[k], mode, id);
    }
    var b := LongestRule(K, c, |c|, RuleKindOf(mode), id);
    assert RuleEntry(K, c[i], mode, id) && Rewrites(K, c[i], RuleKindOf(mode), id);
    assert b.Some? && RuleEntry(K, c[b.value], mode, id) && b.value == i;
    SaysByKinds(K, c, mode, id);
  }

  lemma NoneRules(K: Kinds, c: seq<Entry>, mode: Mode, id: seq<byte>)
    requires NoRule(K, c, mode, id)
    ensures mode == ByPublic || LongestRule(K, c, |c|, RuleKindOf(mode), id).None?
  {
    hide RuleEntry, Rewrites, LongestRule;
    var b := LongestRule(K, c, |c|, RuleKindOf(mode), id);
    if mode != ByPublic && b.Some? {
      EntriesAre(K, c[b.value], mode, id);
    }
  }

  lemma DelegatesAre(K: Kinds, c: seq<Entry>, mode: Mode, id: seq<byte>)
    ensures SomeDelegate(K, c, mode, id) <==> HasDelegate(K, c, mode, id)
  {
    hide DelegateEntry, Announces, KindIn;
    forall k | 0 <= k < |c|
      ensures DelegateEntry(K, c[k], mode, id) <==> Announces(c[k], KindIn(K, c[k]), mode, id)
    {
      EntriesAre(K, c[k], mode, id);
    }
  }

  /** Without exact entries and rules, delegates decide if there is one, and nothing is said if there is
      none. */
  lemma DelegateSays(K: Kinds, c: seq<Entry>, mode: Mode, id: seq<byte>)
    requires NoExact(K, c, mode, id) && NoRule(K, c, mode, id)
    ensures SaysBy(K, c, mode, id) == if SomeDelegate(K, c, mode, id) then Delegated else Silent
  {
    hide SaysBy, FirstExact, LongestRule, HasDelegate, NoExact, NoRule, SomeDelegate;
    NoneExact(K, c, mode, id);
    NoneRules(K, c, mode, id);
    DelegatesAre(K, c, mode, id);
    SaysByKinds(K, c, mode, id);
  }

  // --- What a list finds --------------------------------------------------------------------------------

  /** The identifier that a query asks for first. */
  ghost predicate AsksFirst(q: Query, mode: Mode, id: seq<byte>) {
    match mode
    case BySystem => q.External? && q.sys == Some(id)
    case ByPublic => q.External? && q.sys == None && q.pub == Some(id)
    case ByUri => q == Reference(id)
  }

  lemma FirstHalf(q: Query, mode: Mode, id: seq<byte>)
    requires AsksFirst(q, mode, id)
    ensures q != External(None, None) && Halves(q) != [] && Halves(q)[0] == (mode, id)
  {
  }

  lemma FirstDecides(K: Kinds, c: seq<Entry>, q: Query, mode: Mode, id: seq<byte>)
    requires AsksFirst(q, mode, id)
    ensures SaysBy(K, c, mode, id) != Silent ==> Decided(K, c, Halves(q)) == SaysBy(K, c, mode, id)
  {
    hide SaysBy;
    FirstHalf(q, mode, id);
  }

  /** The outcome of a list that is not over its limit: its first exact entry; else its longest rule;
      else, where an entry delegates the identifier, never nothing. */
  lemma ListFinds(docs: Docs, C: State, catal: Entry, q: Query, mode: Mode, id: seq<byte>, o: Outcome)
    requires Ends(Guarded, docs, C, InList(catal, q), o) && AsksFirst(q, mode, id) && DepthIn(C, catal) <= 50
    ensures var K, c := C.kinds, Chain(catal);
            && (forall i: nat :: FirstExactAt(K, c, mode, id, i) ==>
                  o.ret == if c[i].url.None? then NotFound else Resolved(c[i].url.value))
            && (forall i: nat :: NoExact(K, c, mode, id) && LongestRuleAt(K, c, mode, id, i) ==>
                  o.ret == if c[i].url.None? then NotFound
                           else Resolved(c[i].url.value + id[|c[i].name.value|..]))
            && (NoExact(K, c, mode, id) && NoRule(K, c, mode, id) && SomeDelegate(K, c, mode, id) ==> o.ret != NotFound)
  {
    hide Ends, Chain, Decided, SaysBy, Halves, FirstExactAt, LongestRuleAt, NoExact, NoRule, SomeDelegate, AsksFirst;
    var K, c := C.kinds, Chain(catal);
    FirstHalf(q, mode, id);
    ListDecides(docs, C, catal, q, o);
    FirstDecides(K, c, q, mode, id);
    forall i: nat | FirstExactAt(K, c, mode, id, i)
      ensures i < |c| && o.ret == if c[i].url.None? then NotFound else Resolved(c[i].url.value)
    {
      ExactSays(K, c, mode, id, i);
      InChain(K, c, mode, id, i);
    }
    forall i: nat | NoExact(K, c, mode, id) && LongestRuleAt(K, c, mode, id, i)
      ensures RuleAt(c, id, i)
      ensures o.ret == if c[i].url.None? then NotFound else Resolved(c[i].url.value + id[|c[i].name.value|..])
    {
      RuleSays(K, c, mode, id, i);
      RuleIsAt(K, c, mode, id, i);
    }
    if NoExact(K, c, mode, id) && NoRule(K, c, mode, id) {
      DelegateSays(K, c, mode, id);
    }
  }

  lemma InChain(K: Kinds, c: seq<Entry>, mode: Mode, id: seq<byte>, i: nat)
    requires FirstExactAt(K, c, mode, id, i)
    ensures i < |c|
  {
  }

  ghost predicate RuleAt(c: seq<Entry>, id: seq<byte>, i: nat) {
    i < |c| && c[i].name.Some? && |c[i].name.value| <= |id|
  }

  lemma RuleIsAt(K: Kinds, c: seq<Entry>, mode: Mode, id: seq<byte>, i: nat)
    requires LongestRuleAt(K, c, mode, id, i)
    ensures RuleAt(c, id, i)
  {
  }

  // --- Which delegate decides ------------------------------------------------------------------------------

  /** What the catalogs behind an entry find for the identifier, without limits. */
  ghost predicate Finds(docs: Docs, C: State, e: Entry, mode: Mode, id: seq<byte>, r: Found) {
    ChildIn(C, e) != null &&
    exists n: nat :: FindsWithin(n, docs, C, ChildIn(C, e), mode, id, r)
  }

  ghost predicate FindsWithin(n: nat, docs: Docs, C: State, child: Entry, mode: Mode, id: seq<byte>, r: Found) {
    var x := Exec(n, Unguarded, docs, C, ListsJob(child, QueryOf(mode, id)));
    x.Some? && x.value.ret == r
  }

  /** The entry has nothing behind it, or nothing is found there. */
  ghost predicate FindsNothing(docs: Docs, C: State, e: Entry, mode: Mode, id: seq<byte>) {
    ChildIn(C, e) == null || Finds(docs, C, e, mode, id, NotFound)
  }

  /** What is found does not depend on the counters, nor on how many steps are allowed. */
  lemma FindsAlways(docs: Docs, C: State, D: State, e: Entry, mode: Mode, id: seq<byte>, r: Found, R: set<Entry>,
                    n: nat)
    requires Closed(docs, C, R) && Same(C, D) && e in R && Finds(docs, C, e, mode, id, r)
    ensures var x := Exec(n, Unguarded, docs, D, ListsJob(ChildIn(C, e), QueryOf(mode, id)));
            x.Some? ==> x.value.ret == r && Same(C, x.value.state)
  {
    hide Exec, ListsJob, Closed, Same;
    var child, t := ChildIn(C, e), ListsJob(ChildIn(C, e), QueryOf(mode, id));
    var m: nat :| FindsWithin(m, docs, C, child, mode, id, r);
    ChildClosed(docs, C, R, e);
    ListsWithin(docs, C, R, child, QueryOf(mode, id));
    ExecSame(n, docs, C, D, t, R);
    AlikeSub(C, Exec(n, Unguarded, docs, C, t), Exec(n, Unguarded, docs, D, t));
    SameBack(C, Exec(n, Unguarded, docs, C, t), Exec(n, Unguarded, docs, D, t));
    if Exec(n, Unguarded, docs, C, t).Some? {
      if m <= n { ExecMore(m, n, Unguarded, docs, C, t); } else { ExecMore(n, m, Unguarded, docs, C, t); }
    }
  }

  lemma SameBack(C: State, r: Option<Outcome>, r': Option<Outcome>)
    requires Alike(C, r, r')
    ensures r'.Some? ==> Same(C, r'.value.state)
  {
  }

  lemma ChildClosed(docs: Docs, C: State, R: set<Entry>, e: Entry)
    requires Closed(docs, C, R) && e in R
    ensures ChildIn(C, e) != null ==> ChildIn(C, e) in R
    ensures Refers(KindIn(C.kinds, e)) ==> Loaded(docs, C, e) == C
  {
    hide Loaded;
    assert ClosedAt(docs, C, R, e);
  }

  /** The place of the delegate that decides: its catalogs find something, and those of the delegates
      before it find nothing; none of these has the same URL. */
  ghost predicate DecidesAt(docs: Docs, C: State, c: seq<Entry>, mode: Mode, id: seq<byte>, tried: seq<Id>, k: nat,
                            r: Found) {
    && k < |c| && TriedEntry(C.kinds, c[k], mode, id) && c[k].url !in tried
    && r != NotFound && Finds(docs, C, c[k], mode, id, r)
    && forall i :: 0 <= i < k && TriedEntry(C.kinds, c[i], mode, id) ==>
         c[i].url != c[k].url && FindsNothing(docs, C, c[i], mode, id)
  }

  /** The plan for the first of the entries. */
  lemma DelegatePlanIs(docs: Docs, C: State, D: State, c: seq<Entry>, mode: Mode, id: seq<byte>, tried: seq<Id>,
                       R: set<Entry>)
    requires Closed(docs, C, R) && Same(C, D) && c != [] && AllIn(c, R)
    ensures var p, child := PlanFor(docs, D, InDelegates(c, mode, id, tried)), ChildIn(C, c[0]);
            if TriedEntry(C.kinds, c[0], mode, id) && c[0].url !in tried then
              var next := InDelegates(c[1..], mode, id, Remember(tried, c[0].url));
              p == if child == null then Instead(D, next)
                   else First(D, ListsJob(child, QueryOf(mode, id)), None, false, next)
            else p == Instead(D, InDelegates(c[1..], mode, id, tried))
  {
    hide Loaded, ListsJob, TriedEntry, Delegates, Closed, KindIn, Remember;
    EntriesAre(C.kinds, c[0], mode, id);
    ClosedSame(docs, C, D, R);
    ChildClosed(docs, D, R, c[0]);
    TriedRefers(D, c[0], mode, id, tried);
  }

  /** The loop over delegates gives what the deciding one finds. */
  lemma {:induction false} DelegateDecides(n: nat, docs: Docs, C: State, D: State, c: seq<Entry>, mode: Mode,
                                           id: seq<byte>, tried: seq<Id>, R: set<Entry>, k: nat, r: Found)
    requires Closed(docs, C, R) && Same(C, D) && AllIn(c, R) && DecidesAt(docs, C, c, mode, id, tried, k, r)
    requires Exec(n, Unguarded, docs, D, InDelegates(c, mode, id, tried)).Some?
    ensures Exec(n, Unguarded, docs, D, InDelegates(c, mode, id, tried)).value.ret == r
    decreases n
  {
    hide Exec, PlanFor, Closed, Same, Finds, TriedEntry, ListsJob, Remember;
    var t, child := InDelegates(c, mode, id, tried), ChildIn(C, c[0]);
    TakesSteps(n, docs, D, t);
    DelegatePlanIs(docs, C, D, c, mode, id, tried, R);
    assert c[0] in R && AllIn(c[1..], R);
    if TriedEntry(C.kinds, c[0], mode, id) && c[0].url !in tried {
      var next := InDelegates(c[1..], mode, id, Remember(tried, c[0].url));
      if child == null {
        NothingBehind(docs, C, c[0], mode, id, r);
        StepInstead(n, docs, D, t, next);
        LaterDecides(docs, C, c, mode, id, tried, Remember(tried, c[0].url), k, r);
        DelegateDecides(n - 1, docs, C, D, c[1..], mode, id, Remember(tried, c[0].url), R, k - 1, r);
      } else {
        var sub := ListsJob(child, QueryOf(mode, id));
        StepFirst(n, docs, D, t, sub, None, false, next);
        if k == 0 {
          FindsAlways(docs, C, D, c[0], mode, id, r, R, n - 1);
        } else {
          FindsAlways(docs, C, D, c[0], mode, id, NotFound, R, n - 1);
          LaterDecides(docs, C, c, mode, id, tried, Remember(tried, c[0].url), k, r);
          DelegateDecides(n - 1, docs, C, Exec(n - 1, Unguarded, docs, D, sub).value.state, c[1..], mode, id,
                          Remember(tried, c[0].url), R, k - 1, r);
        }
      }
    } else {
      StepInstead(n, docs, D, t, InDelegates(c[1..], mode, id, tried));
      LaterDecides(docs, C, c, mode, id, tried, tried, k, r);
      DelegateDecides(n - 1, docs, C, D, c[1..], mode, id, tried, R, k - 1, r);
    }
  }

  lemma NothingBehind(docs: Docs, C: State, e: Entry, mode: Mode, id: seq<byte>, r: Found)
    requires ChildIn(C, e) == null
    ensures !Finds(docs, C, e, mode, id, r)
  {
  }

  lemma LaterDecides(docs: Docs, C: State, c: seq<Entry>, mode: Mode, id: seq<byte>, tried: seq<Id>, tried': seq<Id>,
                     k: nat, r: Found)
    requires DecidesAt(docs, C, c, mode, id, tried, k, r) && k > 0
    requires tried' == tried || (TriedEntry(C.kinds, c[0], mode, id) && tried' == Remember(tried, c[0].url))
    ensures DecidesAt(docs, C, c[1..], mode, id, tried', k - 1, r)
  {
    hide Finds, TriedEntry;
    assert forall i :: 0 <= i < |c[1..]| ==> c[1..][i] == c[i + 1];
  }

  /** If none of them finds anything, the loop does not. */
  lemma {:induction false} NoDelegateFinds(n: nat, docs: Docs, C: State, D: State, c: seq<Entry>, mode: Mode,
                                           id: seq<byte>, tried: seq<Id>, R: set<Entry>)
    requires Closed(docs, C, R) && Same(C, D) && AllIn(c, R)
    requires forall i :: 0 <= i < |c| && TriedEntry(C.kinds, c[i], mode, id) ==> FindsNothing(docs, C, c[i], mode, id)
    requires Exec(n, Unguarded, docs, D, InDelegates(c, mode, id, tried)).Some?
    ensures Exec(n, Unguarded, docs, D, InDelegates(c, mode, id, tried)).value.ret == NotFound
    decreases n
  {
    hide Exec, Closed, Same, Finds, TriedEntry, ListsJob, Remember;
    var t := InDelegates(c, mode, id, tried);
    TakesSteps(n, docs, D, t);
    if c == [] {
      assert PlanFor(docs, D, t) == Instead(D, Return(NotFound));
      StepInstead(n, docs, D, t, Return(NotFound));
      Returned(n - 1, docs, D, NotFound);
    } else {
      hide PlanFor;
      DelegatePlanIs(docs, C, D, c, mode, id, tried, R);
      assert c[0] in R && AllIn(c[1..], R);
      if TriedEntry(C.kinds, c[0], mode, id) && c[0].url !in tried {
        var next := InDelegates(c[1..], mode, id, Remember(tried, c[0].url));
        if ChildIn(C, c[0]) == null {
          StepInstead(n, docs, D, t, next);
          NoDelegateFinds(n - 1, docs, C, D, c[1..], mode, id, Remember(tried, c[0].url), R);
        } else {
          var sub := ListsJob(ChildIn(C, c[0]), QueryOf(mode, id));
          StepFirst(n, docs, D, t, sub, None, false, next);
          FindsAlways(docs, C, D, c[0], mode, id, NotFound, R, n - 1);
          NoDelegateFinds(n - 1, docs, C, Exec(n - 1, Unguarded, docs, D, sub).value.state, c[1..], mode, id,
                          Remember(tried, c[0].url), R);
        }
      } else {
        StepInstead(n, docs, D, t, InDelegates(c[1..], mode, id, tried));
        NoDelegateFinds(n - 1, docs, C, D, c[1..], mode, id, tried, R);
      }
    }
  }

  lemma Returned(n: nat, docs: Docs, C: State, r: Found)
    ensures Exec(n, Unguarded, docs, C, Return(r)) == Some(Outcome(r, false, C))
  {
  }

  /** The list delegates the identifier: it has no exact entry and no rule for it, and a delegate. */
  ghost predicate DelegatesIt(K: Kinds, c: seq<Entry>, mode: Mode, id: seq<byte>) {
    NoExact(K, c, mode, id) && NoRule(K, c, mode, id) && SomeDelegate(K, c, mode, id)
  }

  lemma DelegatedPlan(docs: Docs, C: State, catal: Entry, q: Query, mode: Mode, id: seq<byte>)
    requires AsksFirst(q, mode, id) && DelegatesIt(C.kinds, Chain(catal), mode, id)
    ensures PlanFor(docs, C, Inside(catal, q)) ==
            First(C, InDelegates(Chain(catal), mode, id, []), None, false, Return(Break))
  {
    hide SaysBy, Chain, NoExact, NoRule, SomeDelegate, AsksFirst, Halves;
    DelegateSays(C.kinds, Chain(catal), mode, id);
    FirstHalf(q, mode, id);
  }

  /** What the loop over the delegates of a list gives is what the list gives, and nothing becomes the cut. */
  lemma ListOfDelegates(n: nat, docs: Docs, C: State, catal: Entry, q: Query, mode: Mode, id: seq<byte>)
    returns (m: nat, D: State)
    requires AsksFirst(q, mode, id) && DelegatesIt(C.kinds, Chain(catal), mode, id)
    requires Exec(n, Unguarded, docs, C, InList(catal, q)).Some?
    ensures Same(C, D)
    ensures var x := Exec(m, Unguarded, docs, D, InDelegates(Chain(catal), mode, id, []));
            && x.Some?
            && Exec(n, Unguarded, docs, C, InList(catal, q)).value.ret ==
               if x.value.ret == NotFound then Break else x.value.ret
  {
    hide Exec, Chain, DelegatesIt, AsksFirst, Same;
    var t := InList(catal, q);
    TakesSteps(n, docs, C, t);
    assert PlanFor(docs, C, t) == Checked(catal, q.External?, Inside(catal, q));
    StepChecked(n, docs, C, t, catal, q.External?, Inside(catal, q));
    D := if q.External? then Entered(C, catal) else C;
    SameSelf(C);
    EnteredSame(C, C, catal, q.External?);
    SameKindsOf(C, D);
    TakesSteps(n - 1, docs, D, Inside(catal, q));
    DelegatedPlan(docs, D, catal, q, mode, id);
    hide PlanFor;
    m := n - 2;
    StepFirst(n - 1, docs, D, Inside(catal, q), InDelegates(Chain(catal), mode, id, []), None, false, Return(Break));
    var x := Exec(m, Unguarded, docs, D, InDelegates(Chain(catal), mode, id, []));
    if x.value.ret == NotFound {
      Returned(m, docs, x.value.state, Break);
    }
  }

  lemma SameKindsOf(C: State, D: State)
    requires Same(C, D)
    ensures D.kinds == C.kinds
  {
  }

  /** A list that delegates an identifier finds what the first of its delegates finds that finds
      anything, and cuts the search if none does. */
  lemma ListDelegates(n: nat, docs: Docs, C: State, catal: Entry, q: Query, mode: Mode, id: seq<byte>, R: set<Entry>)
    requires Closed(docs, C, R) && catal in R
    requires AsksFirst(q, mode, id) && DelegatesIt(C.kinds, Chain(catal), mode, id)
    requires Exec(n, Unguarded, docs, C, InList(catal, q)).Some?
    ensures var c, ret := Chain(catal), Exec(n, Unguarded, docs, C, InList(catal, q)).value.ret;
            && (forall k, r :: DecidesAt(docs, C, c, mode, id, [], k, r) ==> ret == r)
            && ((forall i :: 0 <= i < |c| && TriedEntry(C.kinds, c[i], mode, id) ==>
                   FindsNothing(docs, C, c[i], mode, id)) ==> ret == Break)
  {
    hide Exec, Chain, DelegatesIt, AsksFirst, Same, Closed, DecidesAt, FindsNothing, TriedEntry;
    var c, ret := Chain(catal), Exec(n, Unguarded, docs, C, InList(catal, q)).value.ret;
    ChainWithin(docs, C, R, catal);
    var m, D := ListOfDelegates(n, docs, C, catal, q, mode, id);
    forall k, r | DecidesAt(docs, C, c, mode, id, [], k, r)
      ensures ret == r
    {
      DelegateDecides(m, docs, C, D, c, mode, id, [], R, k, r);
      DecidesSomething(docs, C, c, mode, id, k, r);
    }
    if forall i :: 0 <= i < |c| && TriedEntry(C.kinds, c[i], mode, id) ==> FindsNothing(docs, C, c[i], mode, id) {
      NoDelegateFinds(m, docs, C, D, c, mode, id, [], R);
    }
  }

  lemma DecidesSomething(docs: Docs, C: State, c: seq<Entry>, mode: Mode, id: seq<byte>, k: nat, r: Found)
    requires DecidesAt(docs, C, c, mode, id, [], k, r)
    ensures r != NotFound
  {
  }

  /** The same of the code, where no counter stops it. */
  lemma ListDelegatesInCode(docs: Docs, C: State, catal: Entry, q: Query, mode: Mode, id: seq<byte>, R: set<Entry>,
                            k: nat, r: Found, o: Outcome)
    requires Closed(docs, C, R) && catal in R && NeverStopped(docs, C, InList(catal, q))
    requires AsksFirst(q, mode, id) && DelegatesIt(C.kinds, Chain(catal), mode, id)
    requires DecidesAt(docs, C, Chain(catal), mode, id, [], k, r) && Ends(Guarded, docs, C, InList(catal, q), o)
    ensures o.ret == r
  {
    hide Exec, Chain, DelegatesIt, AsksFirst, Closed, DecidesAt;
    CountersDoNotMatter(docs, C, InList(catal, q), o, catal);
    var n: nat :| Exec(n, Unguarded, docs, C, InList(catal, q)) == Some(o);
    ListDelegates(n, docs, C, catal, q, mode, id, R);
  }
}
