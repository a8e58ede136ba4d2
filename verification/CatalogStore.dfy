/** The catalogs in memory (catalog.c): lists of entries with depth counters, files that are loaded
    when they are needed, and what all of this looks like at one moment. */
module CatalogStore {
  import opened Bytes
  import opened CatalogQuery

  const MAX_CATAL_DEPTH: nat := 50

  datatype Kind =
    | CatalogList | BrokenCatalog | NextCatalog | Public | System | RewriteSystem
    | DelegatePublic | DelegateSystem | Uri | RewriteUri | DelegateUri | Ignored

  datatype Prefer = PreferNone | PreferPublic | PreferSystem

  class Entry {
    const next: Entry?
    /** more than that of the next entry: lists end */
    ghost const rank: nat
    const name: Id
    const url: Id
    const prefer: Prefer
    var kind: Kind
    var children: Entry?
    var depth: nat

    /** xmlNewCatalogEntry, linked in front of the rest of a list. */
    constructor (kind: Kind, name: Id, url: Id, prefer: Prefer, next: Entry?)
      ensures this.kind == kind && this.name == name && this.url == url && this.prefer == prefer && this.next == next
      ensures children == null && depth == 0 && (next != null ==> next.rank < rank)
    {
      this.kind, this.name, this.url, this.prefer, this.next := kind, name, url, prefer, next;
      this.children, this.depth := null, 0;
      this.rank := if next == null then 0 else next.rank + 1;
    }
  }

  /** What parsing a file gives, if it can be parsed. */
  type Docs = map<(seq<byte>, Prefer), Entry>

  /** The catalogs at one moment: kinds, lists behind entries, files loaded, depth counters, and how
      often a list was left without its counter being taken back. */
  datatype State = State(kinds: map<Entry, Kind>, child: map<Entry, Entry?>, files: map<seq<byte>, Entry>,
                         depth: map<Entry, nat>, leaked: map<Entry, nat>)

  ghost function KindIn(K: map<Entry, Kind>, e: Entry): Kind { if e in K then K[e] else Ignored }

  ghost function ChildIn(C: State, e: Entry): Entry? { if e in C.child then C.child[e] else null }

  ghost function DepthIn(C: State, e: Entry): nat { if e in C.depth then C.depth[e] else 0 }

  ghost function LeaksIn(C: State, e: Entry): nat { if e in C.leaked then C.leaked[e] else 0 }

  /** A list is entered. */
  ghost function Entered(C: State, e: Entry): State { WithDepth(C, e, DepthIn(C, e) + 1) }

  ghost function WithDepth(C: State, e: Entry, d: nat): State { C.(depth := C.depth[e := d]) }

  ghost function WithList(C: State, e: Entry, list: Entry?): State { C.(child := C.child[e := list]) }

  /** A list is left. */
  ghost function Left(C: State, e: Entry): State {
    WithDepth(C, e, if DepthIn(C, e) > 0 then DepthIn(C, e) - 1 else 0)
  }

  /** A list is left, and its counter stays as it is. */
  ghost function Leaked(C: State, e: Entry): State { C.(leaked := C.leaked[e := LeaksIn(C, e) + 1]) }

  /** The list that an entry gets from a parsed file. */
  ghost function ListOf(C: State, e: Entry, doc: Entry): Entry? {
    if KindIn(C.kinds, e) == CatalogList then ChildIn(C, doc) else doc
  }

  /** The list behind an entry is loaded, if it is not there yet and can be. */
  ghost function Loaded(docs: Docs, C: State, e: Entry): State {
    if ChildIn(C, e) != null || e.url.None? then C
    else
      var u := e.url.value;
      if u in C.files then WithList(C, e, ListOf(C, e, C.files[u]))
      else if (u, e.prefer) in docs then
        var doc := docs[(u, e.prefer)];
        WithList(C.(files := C.files[u := doc]), e, ListOf(C, e, doc))
      else C.(kinds := C.kinds[e := BrokenCatalog])
  }

  /** The entries of all catalog files, loaded or not. */
  class Catalogs {
    ghost const entries: seq<Entry>
    const docs: Docs
    /** xmlCatalogXMLFiles: the files parsed so far */
    var files: map<seq<byte>, Entry>
    /** how often each list was left without its counter being taken back */
    ghost var leaked: map<Entry, nat>

    constructor (ghost entries: seq<Entry>, docs: Docs)
      requires forall e :: e in entries ==> ListsStayIn(entries, e) && e.depth <= MAX_CATAL_DEPTH + 1
      requires forall k :: k in docs ==> docs[k] in entries
      ensures Valid() && this.entries == entries && this.docs == docs && files == map[]
      ensures leaked == map e | e in entries :: 0
    {
      this.entries, this.docs, files := entries, docs, map[];
      leaked := map e | e in entries :: 0;
    }

    ghost function Objects(): set<Entry> { set e | e in entries }

    ghost predicate Valid()
      reads this, Objects()
    {
      && (forall e :: e in entries ==> EntryOk(e))
      && (forall k :: k in docs ==> docs[k] in entries)
      && (forall k :: k in files ==> files[k] in entries)
      && leaked.Keys == Objects()
    }

    ghost predicate EntryOk(e: Entry)
      reads e
    {
      ListsStayIn(entries, e) && e.depth <= MAX_CATAL_DEPTH + 1
    }

    ghost function Now(): (C: State)
      reads this`files, this`leaked, Objects()`children, Objects()`kind, Objects()`depth
    {
      State(Kinds(), Lists(), files, Counters(), leaked)
    }

    ghost function Kinds(): (K: map<Entry, Kind>)
      reads Objects()`kind
      ensures K.Keys == Objects()
    {
      map e | e in entries :: e.kind
    }

    ghost function Lists(): (L: map<Entry, Entry?>)
      reads Objects()`children
      ensures L.Keys == Objects()
    {
      map e | e in entries :: e.children
    }

    ghost function Counters(): (D: map<Entry, nat>)
      reads Objects()`depth
      ensures D.Keys == Objects()
    {
      map e | e in entries :: e.depth
    }

    lemma Seen(e: Entry)
      requires e in entries
      ensures KindIn(Now().kinds, e) == e.kind && ChildIn(Now(), e) == e.children && DepthIn(Now(), e) == e.depth
    {
    }

    method SetKind(e: Entry, kind: Kind)
      requires Valid() && e in entries
      modifies e`kind
      ensures Valid() && e.kind == kind && Now() == old(Now()).(kinds := old(Now()).kinds[e := kind])
    {
      ghost var K := Kinds();
      e.kind := kind;
      assert Kinds() == K[e := kind];
      hide Kinds, Lists, Counters;
      assert forall x :: x in entries ==> old(EntryOk(x));
    }

    method AddFile(url: seq<byte>, doc: Entry)
      requires Valid() && doc in entries
      modifies this`files
      ensures Valid() && files == old(files)[url := doc] && Now() == old(Now()).(files := files)
    {
      files := files[url := doc];
    }

    method SetList(e: Entry, list: Entry?)
      requires Valid() && e in entries && (list != null ==> list in entries)
      modifies e`children
      ensures Valid() && e.children == list && Now() == WithList(old(Now()), e, list)
    {
      SetChildren(e, list);
      hide Kinds, Lists, Counters;
      assert forall x :: x in entries ==> old(EntryOk(x));
    }

    lemma DocOk(doc: Entry)
      requires Valid() && doc in entries
      ensures doc.children != null ==> doc.children in entries
    {
      assert EntryOk(doc);
    }

    lemma FileOk(url: seq<byte>, key: (seq<byte>, Prefer))
      requires Valid()
      ensures url in files ==> files[url] in entries
      ensures key in docs ==> docs[key] in entries
    {
    }

    method SetChildren(e: Entry, list: Entry?)
      requires e in entries
      modifies e`children
      ensures e.children == list && Lists() == old(Lists())[e := list]
    {
      e.children := list;
    }

    method SetDepth(e: Entry, depth: nat)
      requires Valid() && e in entries && depth <= MAX_CATAL_DEPTH + 1
      modifies e`depth
      ensures Valid() && e.depth == depth
      ensures Now() == WithDepth(old(Now()), e, depth)
      ensures Changed(old(Depths()), Depths(), e, depth)
    {
      SetCounter(e, depth);
      hide Counters, Lists, Kinds;
      assert forall x :: x in entries ==> old(EntryOk(x));
    }

    method SetCounter(e: Entry, depth: nat)
      requires e in entries
      modifies e`depth
      ensures e.depth == depth && Counters() == old(Counters())[e := depth]
    {
      e.depth := depth;
    }

    /** Only the counter of one list is different. */
    ghost predicate Changed(before: seq<nat>, after: seq<nat>, e: Entry, depth: nat) {
      && |before| == |after| == |entries|
      && forall i :: 0 <= i < |entries| ==> after[i] == if entries[i] == e then depth else before[i]
    }

    ghost function Depths(): seq<nat>
      reads Objects()`depth
    {
      DepthsOf(entries)
    }

    /** How often the lists can still be entered. */
    ghost function Budget(): nat
      reads Objects()`depth
    {
      Remaining(Depths())
    }

    /** xmlFetchXMLCatalogFile: the entry gets the list of its file, each file is parsed once, and an
        entry whose file cannot be parsed becomes broken. */
    method Fetch(cur: Entry)
      requires Valid() && cur in entries
      modifies this`files, cur`children, cur`kind
      ensures Valid() && Now() == Loaded(docs, old(Now()), cur)
      ensures old(cur.children) == null && cur.url.Some? && cur.url.value !in old(files) &&
                (cur.url.value, cur.prefer) !in docs ==>
              cur.kind == BrokenCatalog && cur.children == null && files == old(files)
    {
      hide Kinds, Lists, Counters, Valid;
      Seen(cur);
      if cur.url.None? || cur.children != null {
        return;
      }
      var url := cur.url.value;
      FileOk(url, (url, cur.prefer));
      if url !in files {
        if (url, cur.prefer) !in docs {
          SetKind(cur, BrokenCatalog);
          return;
        }
        AddFile(url, docs[(url, cur.prefer)]);
      }
      var doc := files[url];
      Seen(doc);
      DocOk(doc);
      SetList(cur, if cur.kind == CatalogList then doc.children else doc);
    }

    /** The list behind an entry, fetched if it is not there yet (as in catalog.c:1684-1687). */
    method ChildOf(cur: Entry) returns (child: Entry?)
      requires Valid() && cur in entries
      modifies this`files, cur`children, cur`kind
      ensures Valid() && Now() == Loaded(docs, old(Now()), cur)
      ensures child == ChildIn(Now(), cur) && (child != null ==> child in entries)
    {
      hide Kinds, Lists, Counters;
      Seen(cur);
      if cur.children == null {
        Fetch(cur);
        Seen(cur);
      }
      child := cur.children;
      assert EntryOk(cur);
    }

    /** Entering a list. */
    method Enter(catal: Entry)
      requires Valid() && catal in entries && catal.depth <= MAX_CATAL_DEPTH
      modifies catal`depth
      ensures Valid() && Now() == Entered(old(Now()), catal)
      ensures Raised(old(Depths()), Depths(), catal) && Budget() < old(Budget())
    {
      hide Kinds, Lists, Counters, Valid, Now;
      Seen(catal);
      ghost var before, d := Depths(), catal.depth;
      DepthAt(catal);
      SetDepth(catal, catal.depth + 1);
      RaisedBy(before, Depths(), catal, d);
    }

    /** Leaving it. */
    method Leave(catal: Entry, ghost before: seq<nat>, ghost raised: seq<nat>)
      requires Valid() && catal in entries && Raised(before, raised, catal) && AtLeast(raised, Depths())
      modifies catal`depth
      ensures Valid() && AtLeast(before, Depths()) && Now() == Left(old(Now()), catal)
    {
      hide Kinds, Lists, Counters, Valid, Now, Raised, AtLeast, Changed, DepthIs;
      Seen(catal);
      ghost var during, d := Depths(), catal.depth;
      DepthAt(catal);
      DepthBound(catal);
      LoweredBy(before, raised, during, catal, d);
      SetDepth(catal, catal.depth - 1);
      LowerEnough(before, raised, during, Depths(), catal, d);
    }

    /** The counter of a list in the sequence of counters. */
    ghost predicate DepthIs(ds: seq<nat>, e: Entry, d: nat) {
      |ds| == |entries| && e in entries && forall i :: 0 <= i < |entries| && entries[i] == e ==> ds[i] == d
    }

    lemma DepthBound(e: Entry)
      requires Valid() && e in entries
      ensures e.depth <= MAX_CATAL_DEPTH + 1
    {
      assert EntryOk(e);
    }

    lemma DepthAt(e: Entry)
      requires e in entries
      ensures DepthIs(Depths(), e, e.depth)
    {
    }

    lemma RaisedBy(before: seq<nat>, after: seq<nat>, e: Entry, d: nat)
      requires DepthIs(before, e, d) && d <= MAX_CATAL_DEPTH && Changed(before, after, e, d + 1)
      ensures Raised(before, after, e) && Remaining(after) < Remaining(before)
    {
      var i :| 0 <= i < |entries| && entries[i] == e;
      RemainingFalls(before, after, i);
    }

    lemma LoweredBy(before: seq<nat>, raised: seq<nat>, during: seq<nat>, e: Entry, d: nat)
      requires DepthIs(during, e, d) && Raised(before, raised, e) && AtLeast(raised, during)
      ensures d > 0
    {
      var i :| 0 <= i < |entries| && entries[i] == e;
      assert during[i] >= raised[i];
    }

    lemma LowerEnough(before: seq<nat>, raised: seq<nat>, during: seq<nat>, after: seq<nat>, e: Entry, d: nat)
      requires DepthIs(during, e, d) && Raised(before, raised, e) && AtLeast(raised, during) && d > 0
      requires Changed(during, after, e, d - 1)
      ensures AtLeast(before, after)
    {
      forall i | 0 <= i < |entries|
        ensures before[i] <= after[i]
      {
        assert raised[i] <= during[i];
      }
    }

    /** A list is left, and its counter is not taken back. */
    ghost method Leak(catal: Entry)
      requires Valid() && catal in entries
      modifies this`leaked
      ensures Valid() && Now() == Leaked(old(Now()), catal)
    {
      hide Kinds, Lists, Counters;
      leaked := leaked[catal := leaked[catal] + 1];
    }

    /** The counter of the list is one higher. */
    ghost predicate Raised(before: seq<nat>, raised: seq<nat>, catal: Entry) {
      && |before| == |raised| == |entries|
      && forall i :: 0 <= i < |entries| ==> raised[i] == before[i] + if entries[i] == catal then 1 else 0
    }
  }

  /** What an entry refers to is among the entries. */
  ghost predicate ListsStayIn(es: seq<Entry>, e: Entry)
    reads e
  {
    && (e.next != null ==> e.next in es && e.next.rank < e.rank)
    && (e.children != null ==> e.children in es)
  }

  // --- Depth counters -------------------------------------------------------------------------------

  ghost function DepthsOf(es: seq<Entry>): (ds: seq<nat>)
    reads (set e | e in es)`depth
    ensures |ds| == |es| && forall i :: 0 <= i < |es| ==> ds[i] == es[i].depth
  {
    if es == [] then [] else [es[0].depth] + DepthsOf(es[1..])
  }

  ghost predicate AtLeast(ds: seq<nat>, ds': seq<nat>) {
    |ds| == |ds'| && forall i :: 0 <= i < |ds| ==> ds[i] <= ds'[i]
  }

  lemma SameDepths(ds: seq<nat>)
    ensures AtLeast(ds, ds)
  {
  }

  ghost function Remaining(ds: seq<nat>): nat {
    if ds == [] then 0
    else (if ds[0] <= MAX_CATAL_DEPTH then MAX_CATAL_DEPTH + 1 - ds[0] else 0) + Remaining(ds[1..])
  }

  lemma {:induction false} RemainingShrinks(ds: seq<nat>, ds': seq<nat>)
    requires AtLeast(ds, ds')
    ensures Remaining(ds') <= Remaining(ds)
  {
    if ds != [] {
      RemainingShrinks(ds[1..], ds'[1..]);
    }
  }

  lemma {:induction false} RemainingFalls(ds: seq<nat>, ds': seq<nat>, i: nat)
    requires AtLeast(ds, ds') && i < |ds| && ds[i] <= MAX_CATAL_DEPTH && ds[i] < ds'[i]
    ensures Remaining(ds') < Remaining(ds)
  {
    if i == 0 {
      RemainingShrinks(ds[1..], ds'[1..]);
    } else {
      RemainingFalls(ds[1..], ds'[1..], i - 1);
    }
  }

  // --- Lists ------------------------------------------------------------------------------------------

  /** The entries of a list from its head on. */
  ghost predicate IsList(es: seq<Entry>, c: seq<Entry>, catal: Entry) {
    && c != [] && c[0] == catal
    && forall i :: 0 <= i < |c| ==> c[i] in es && c[i].next == After(c, i)
  }

  ghost function After(c: seq<Entry>, i: nat): Entry?
    requires i < |c|
  {
    if i == |c| - 1 then null else c[i + 1]
  }

  ghost function Chain(catal: Entry): seq<Entry>
    decreases catal.rank
  {
    if catal.next == null || catal.next.rank >= catal.rank then [catal] else [catal] + Chain(catal.next)
  }

  lemma {:induction false} ChainIsList(w: Catalogs, catal: Entry)
    requires w.Valid() && catal in w.entries
    ensures IsList(w.entries, Chain(catal), catal)
    decreases catal.rank
  {
    assert w.EntryOk(catal);
    if catal.next != null {
      ChainIsList(w, catal.next);
    }
  }

  lemma NextInList(es: seq<Entry>, c: seq<Entry>, catal: Entry, i: nat)
    requires IsList(es, c, catal)
    ensures c != [] && c[0] == catal
    ensures i < |c| ==> c[i] in es && c[i].next == if i + 1 < |c| then c[i + 1] else null
  {
  }
}
