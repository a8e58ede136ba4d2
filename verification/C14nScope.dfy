/** Namespace scopes of a document tree and what a list of declarations does to them. */
module C14nScope {
  import opened Bytes
  import opened OrderedInsert
  import opened C14nOrder

  datatype Element = Element(name: seq<byte>, nsDef: seq<NsDef>, children: seq<Element>)

  /** An element of the canonical form: its declarations as written, and its children. */
  datatype Rendered = Rendered(decls: seq<NsDef>, children: seq<Rendered>)

  type Scope = map<CString, CString>

  const XML: CString := [0x78, 0x6D, 0x6C]

  /** An element and its ancestors, the element itself first. */
  type Path = seq<Element>

  // --- The scope of an element ------------------------------------------------------------

  /** The first declaration of a prefix in a list. */
  function IndexOf(defs: seq<NsDef>, prefix: CString): (i: Option<nat>)
    ensures i.Some? ==> i.value < |defs| && defs[i.value].prefix == prefix
    ensures i.Some? ==> forall k :: 0 <= k < i.value ==> defs[k].prefix != prefix
    ensures i.None? ==> forall k :: 0 <= k < |defs| ==> defs[k].prefix != prefix
  {
    if defs == [] then None
    else if defs[0].prefix == prefix then Some(0)
    else match IndexOf(defs[1..], prefix)
      case None => None
      case Some(k) => Some(k + 1)
  }

  /** A declaration in a path: the number of levels up, and its index there. */
  datatype Position = Position(level: nat, index: nat)

  /** xmlSearchNs: the nearest declaration of a prefix. The `xml` prefix is never found here. */
  function SearchNs(path: Path, prefix: CString): (r: Option<Position>)
    ensures r.Some? ==> r.value.level < |path| && r.value.index < |path[r.value.level].nsDef|
    ensures r.Some? ==> path[r.value.level].nsDef[r.value.index].prefix == prefix
    ensures r.Some? ==> forall k :: 0 <= k < r.value.index ==> path[r.value.level].nsDef[k].prefix != prefix
    ensures r.Some? ==>
              forall l, k :: 0 <= l < r.value.level && 0 <= k < |path[l].nsDef| ==> path[l].nsDef[k].prefix != prefix
    ensures prefix == [0x78, 0x6D, 0x6C] ==> r.None?
    ensures r.None? && prefix != XML ==>
              forall l, k :: 0 <= l < |path| && 0 <= k < |path[l].nsDef| ==> path[l].nsDef[k].prefix != prefix
  {
    if path == [] || prefix == XML then None
    else match IndexOf(path[0].nsDef, prefix)
      case Some(i) => Some(Position(0, i))
      case None =>
        match SearchNs(path[1..], prefix)
        case None => None
        case Some(p) => Some(Position(p.level + 1, p.index))
  }

  ghost predicate InScope(path: Path, prefix: CString) {
    SearchNs(path, prefix).Some?
  }

  /** The URI to which a prefix is bound at the element. */
  ghost function Bound(path: Path, prefix: CString): CString
    requires InScope(path, prefix)
  {
    var p := SearchNs(path, prefix).value;
    path[p.level].nsDef[p.index].href
  }

  /** What was in scope at the parent stays in scope, unless the element declares it itself. */
  lemma ScopeInherits(path: Path, prefix: CString)
    requires path != [] && InScope(path[1..], prefix)
    ensures InScope(path, prefix)
    ensures IndexOf(path[0].nsDef, prefix).None? ==> Bound(path, prefix) == Bound(path[1..], prefix)
  {
  }

  // --- Meaning ------------------------------------------------------------------------------

  /** The meaning of a declaration: `xmlns=""` says that there is no default namespace. */
  function Meaning(d: NsDef): Option<CString> {
    if d.prefix == [] && d.href == [] then None else Some(d.href)
  }

  /** The namespace that a prefix denotes at an element, if any. */
  ghost function Denotes(path: Path, prefix: CString): Option<CString> {
    if InScope(path, prefix) then Meaning(NsDef(prefix, Bound(path, prefix))) else None
  }

  /** The same for a scope read off the canonical form. */
  ghost function Reads(scope: Scope, prefix: CString): Option<CString> {
    if prefix in scope then Meaning(NsDef(prefix, scope[prefix])) else None
  }

  /** The scope after reading declarations. */
  ghost function Apply(scope: Scope, decls: seq<NsDef>): Scope {
    if decls == [] then scope
    else Apply(scope, decls[..|decls| - 1])[decls[|decls| - 1].prefix := decls[|decls| - 1].href]
  }

  ghost predicate SameMeaning(scope: Scope, path: Path) {
    forall p: CString :: Reads(scope, p) == Denotes(path, p)
  }

  /** Exactly the declarations of the element's scope that say something new, sorted by prefix. */
  ghost predicate DeclsOk(decls: seq<NsDef>, path: Path)
    requires path != []
  {
    && StrictlySorted(NsCompare, decls)
    && forall d :: d in decls <==> IsNew(d, path)
  }

  /** The declaration is in force at the element and means something else than at the parent. */
  ghost predicate IsNew(d: NsDef, path: Path)
    requires path != []
  {
    InScope(path, d.prefix) && Bound(path, d.prefix) == d.href && Denotes(path[1..], d.prefix) != Meaning(d)
  }

  lemma {:induction false} ApplyAt(scope: Scope, decls: seq<NsDef>, p: CString)
    requires forall d, e :: d in decls && e in decls && d.prefix == e.prefix ==> d == e
    ensures (exists d :: d in decls && d.prefix == p) ==>
              p in Apply(scope, decls) && NsDef(p, Apply(scope, decls)[p]) in decls
    ensures !(exists d :: d in decls && d.prefix == p) ==> Reads(Apply(scope, decls), p) == Reads(scope, p)
  {
    if decls != [] {
      var n := |decls| - 1;
      assert decls == decls[..n] + [decls[n]];
      ApplyAt(scope, decls[..n], p);
    }
  }

  /** Reading the declarations gives the element its own scope again. */
  lemma DeclsGiveScope(scope: Scope, decls: seq<NsDef>, path: Path)
    requires path != [] && DeclsOk(decls, path) && SameMeaning(scope, path[1..])
    ensures SameMeaning(Apply(scope, decls), path)
  {
    forall p: CString
      ensures Reads(Apply(scope, decls), p) == Denotes(path, p)
    {
      ApplyAt(scope, decls, p);
      if exists d :: d in decls && d.prefix == p {
        var d := NsDef(p, Apply(scope, decls)[p]);
        assert d in decls && IsNew(d, path);
      } else if InScope(path, p) {
        assert !IsNew(NsDef(p, Bound(path, p)), path);
      } else if InScope(path[1..], p) {
        ScopeInherits(path, p);
      }
    }
  }

  // --- The canonical form ---------------------------------------------------------------------

  /** Reading the declarations of `out` top-down, starting in `scope`, gives every element
      exactly its original namespaces; no declaration repeats what the parent's scope says
      already; and the declarations of an element are in order of their prefixes. */
  ghost predicate Preserves(out: Rendered, scope: Scope, elem: Element, up: Path)
    decreases out
  {
    var path, scope' := [elem] + up, Apply(scope, out.decls);
    && SameMeaning(scope', path)
    && (forall d :: d in out.decls ==> Reads(scope, d.prefix) != Meaning(d))
    && StrictlySorted(NsCompare, out.decls)
    && |out.children| == |elem.children|
    && forall i :: 0 <= i < |out.children| ==> Preserves(out.children[i], scope', elem.children[i], path)
  }

  /** Exactly the new declarations at every element of the tree. */
  ghost predicate Minimal(out: Rendered, elem: Element, up: Path)
    decreases out
  {
    && DeclsOk(out.decls, [elem] + up)
    && |out.children| == |elem.children|
    && forall i :: 0 <= i < |out.children| ==> Minimal(out.children[i], elem.children[i], [elem] + up)
  }

  lemma {:induction false} MinimalPreserves(out: Rendered, scope: Scope, elem: Element, up: Path)
    requires Minimal(out, elem, up) && SameMeaning(scope, up)
    ensures Preserves(out, scope, elem, up)
    decreases out
  {
    var path, scope' := [elem] + up, Apply(scope, out.decls);
    assert path[1..] == up;
    DeclsGiveScope(scope, out.decls, path);
    forall d | d in out.decls
      ensures Reads(scope, d.prefix) != Meaning(d)
    {
      assert IsNew(d, path);
    }
    forall i | 0 <= i < |out.children|
      ensures Preserves(out.children[i], scope', elem.children[i], path)
    {
      MinimalPreserves(out.children[i], scope', elem.children[i], path);
    }
  }

  // --- The meaning of the output, element by element --------------------------------------------

  /** Read in this scope, the prefix is bound to the URI; an empty URI for the default namespace says
      that there is none. */
  ghost predicate Says(scope: Scope, prefix: CString, href: CString) {
    if prefix == [] && href == [] then Unbound(scope, prefix) else prefix in scope && scope[prefix] == href
  }

  ghost predicate Unbound(scope: Scope, prefix: CString) {
    prefix !in scope || (prefix == [] && scope[prefix] == [])
  }

  ghost predicate SaysTheSame(a: Scope, b: Scope, prefix: CString) {
    (Unbound(a, prefix) && Unbound(b, prefix)) || (prefix in a && prefix in b && a[prefix] == b[prefix])
  }

  /** The first declaration of its prefix at an element. */
  ghost predicate Declares(elem: Element, k: nat) {
    k < |elem.nsDef| && forall i :: 0 <= i < k ==> elem.nsDef[i].prefix != elem.nsDef[k].prefix
  }

  /** At every element, what the element declares is read there, what it does not declare is read as
      at its parent, nothing is written that the parent's scope says already, nor anything for the
      prefix xml, and declarations are in the order of their prefixes' bytes. */
  ghost predicate KeepsMeaning(out: Rendered, scope: Scope, elem: Element)
    decreases out
  {
    var scope' := Apply(scope, out.decls);
    && (forall k: nat :: Declares(elem, k) && elem.nsDef[k].prefix != [0x78, 0x6D, 0x6C] ==>
          Says(scope', elem.nsDef[k].prefix, elem.nsDef[k].href))
    && (forall p: CString :: (forall k :: 0 <= k < |elem.nsDef| ==> elem.nsDef[k].prefix != p) ==>
          SaysTheSame(scope', scope, p))
    && Unbound(scope', [0x78, 0x6D, 0x6C])
    && (forall d :: d in out.decls ==> !Says(scope, d.prefix, d.href))
    && (forall i, j :: 0 <= i < j < |out.decls| ==> ByteBefore(out.decls[i].prefix, out.decls[j].prefix))
    && |out.children| == |elem.children|
    && forall i :: 0 <= i < |out.children| ==> KeepsMeaning(out.children[i], scope', elem.children[i])
  }

  /** The declaration of an element is in force there. */
  lemma DeclaredIsDenoted(path: Path, k: nat)
    requires path != [] && Declares(path[0], k) && path[0].nsDef[k].prefix != XML
    ensures Denotes(path, path[0].nsDef[k].prefix) == Meaning(path[0].nsDef[k])
  {
    var p, at := path[0].nsDef[k].prefix, SearchNs(path, path[0].nsDef[k].prefix);
    hide SearchNs;
    assert path[0].nsDef[k].prefix == p;
    assert at.Some? && at.value == Position(0, k);
  }

  lemma UndeclaredIsParents(path: Path, p: CString)
    requires path != [] && forall k :: 0 <= k < |path[0].nsDef| ==> path[0].nsDef[k].prefix != p
    ensures Denotes(path, p) == Denotes(path[1..], p)
  {
    assert IndexOf(path[0].nsDef, p).None?;
  }

  lemma ReadsSays(scope: Scope, p: CString, href: CString)
    ensures Reads(scope, p) == Meaning(NsDef(p, href)) <==> Says(scope, p, href)
  {
  }

  lemma {:induction false} PreservesKeepsMeaning(out: Rendered, scope: Scope, elem: Element, up: Path)
    requires Preserves(out, scope, elem, up) && SameMeaning(scope, up)
    ensures KeepsMeaning(out, scope, elem)
    decreases out
  {
    hide Denotes, Meaning, Apply, Says, SearchNs;
    var path, scope' := [elem] + up, Apply(scope, out.decls);
    assert path[1..] == up;
    forall k: nat | Declares(elem, k) && elem.nsDef[k].prefix != [0x78, 0x6D, 0x6C]
      ensures Says(scope', elem.nsDef[k].prefix, elem.nsDef[k].href)
    {
      var d := elem.nsDef[k];
      DeclaredIsDenoted(path, k);
      assert Reads(scope', d.prefix) == Denotes(path, d.prefix);
      ReadsSays(scope', d.prefix, d.href);
    }
    forall p: CString | forall k :: 0 <= k < |elem.nsDef| ==> elem.nsDef[k].prefix != p
      ensures SaysTheSame(scope', scope, p)
    {
      UndeclaredIsParents(path, p);
      assert Reads(scope', p) == Denotes(path, p) == Denotes(up, p) == Reads(scope, p);
      ReadAlike(scope', scope, p);
    }
    XmlUnbound(scope', path);
    forall d | d in out.decls
      ensures !Says(scope, d.prefix, d.href)
    {
      ReadsSays(scope, d.prefix, d.href);
    }
    forall i, j | 0 <= i < j < |out.decls|
      ensures ByteBefore(out.decls[i].prefix, out.decls[j].prefix)
    {
      assert Less(NsCompare, out.decls[i], out.decls[j]);
      StrCmpIsByteOrder(out.decls[i].prefix, out.decls[j].prefix);
    }
    forall i | 0 <= i < |out.children|
      ensures KeepsMeaning(out.children[i], scope', elem.children[i])
    {
      PreservesKeepsMeaning(out.children[i], scope', elem.children[i], path);
    }
  }

  lemma XmlUnbound(scope: Scope, path: Path)
    requires SameMeaning(scope, path)
    ensures Unbound(scope, [0x78, 0x6D, 0x6C])
  {
    var xml: CString := [0x78, 0x6D, 0x6C];
    assert Reads(scope, xml) == Denotes(path, xml) == None;
  }

  lemma ReadAlike(a: Scope, b: Scope, p: CString)
    requires Reads(a, p) == Reads(b, p)
    ensures SaysTheSame(a, b, p)
  {
  }
}
