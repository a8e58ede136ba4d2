/** The queries of catalog resolution: identifiers are normalized and URNs unwrapped until what is
    left can be looked up. */
module CatalogQuery {
  import opened Bytes
  import opened CatalogUrn

  /** A string that may be NULL. */
  type Id = Option<seq<byte>>

  /** What is asked: an external identifier, or a URI reference. */
  datatype Query = External(pub: Id, sys: Id) | Reference(uri: seq<byte>)

  ghost function IdMeasure(id: Id): nat { if id.None? then 0 else Measure(id.value) }

  ghost function QueryMeasure(q: Query): nat {
    match q
    case External(pub, sys) => IdMeasure(pub) + IdMeasure(sys)
    case Reference(u) => Measure(u)
  }

  predicate IsUrn(id: Id) { id.Some? && HasPrefix(id.value, URN_PUBID) }

  /** A name is unwrapped exactly if it begins with these thirteen letters and colons. */
  lemma UrnByLetters(s: seq<byte>)
    ensures IsUrn(Some(s)) <==> |s| >= 13 && forall k :: 0 <= k < 13 ==> s[k] as char == "urn:publicid:"[k]
  {
    var w := "urn:publicid:";
    assert |URN_PUBID| == 13 && forall k :: 0 <= k < 13 ==> URN_PUBID[k] as char == w[k];
    if |s| >= 13 {
      assert s[..13] == URN_PUBID <==> forall k :: 0 <= k < 13 ==> s[..13][k] == URN_PUBID[k];
    }
  }

  ghost function Unwrapped(id: Id): Id
    requires IsUrn(id)
  {
    Some(Expand(id.value[|URN_PUBID|..], 0))
  }

  /** The public identifier that a lookup uses: normalized, and none if it is all blanks. */
  ghost function NormalId(id: Id): Id {
    if id.None? || Collapse(id.value) == [] then None else Some(Collapse(id.value))
  }

  /** One round of xmlCatalogListXMLResolve or xmlCatalogListXMLResolveURI on the query. */
  ghost function Reduce(q: Query): Query {
    match q
    case Reference(u) => if IsUrn(Some(u)) then External(Unwrapped(Some(u)), None) else q
    case External(p, s) =>
      if p.None? && s.None? then q
      else
        var pub := NormalId(p);
        if IsUrn(pub) then External(Unwrapped(pub), s)
        else if IsUrn(s) then
          var urn := Unwrapped(s);
          if pub.None? then External(urn, None)
          else if pub == urn then External(pub, None)
          else External(pub, urn)
        else External(pub, s)
  }

  ghost predicate HasUrn(q: Query) {
    match q
    case Reference(u) => IsUrn(Some(u))
    case External(p, s) => IsUrn(NormalId(p)) || IsUrn(s)
  }

  lemma UnwrappedFalls(id: Id)
    requires IsUrn(id)
    ensures IdMeasure(Unwrapped(id)) < IdMeasure(id)
  {
    UnwrapFalls(id.value);
  }

  lemma NormalIdMeasure(id: Id)
    ensures IdMeasure(NormalId(id)) <= IdMeasure(id)
  {
    if id.Some? {
      MeasureOfNormal(id.value);
    }
  }

  /** Every round that unwraps something falls on the measure. */
  lemma ReduceFalls(q: Query)
    ensures QueryMeasure(Reduce(q)) <= QueryMeasure(q)
    ensures HasUrn(q) ==> QueryMeasure(Reduce(q)) < QueryMeasure(q)
  {
    hide Measure, Expand, Collapse, HasPrefix;
    match q
    case Reference(u) =>
      if IsUrn(Some(u)) { UnwrappedFalls(Some(u)); }
    case External(p, s) =>
      NormalIdMeasure(p);
      if IsUrn(NormalId(p)) { UnwrappedFalls(NormalId(p)); }
      if IsUrn(s) { UnwrappedFalls(s); }
  }

  /** The query that is finally looked up. */
  ghost function Canon(q: Query): Query
    decreases QueryMeasure(q)
  {
    ReduceFalls(q);
    if HasUrn(q) then Canon(Reduce(q)) else Reduce(q)
  }

  ghost predicate Canonical(q: Query) { !HasUrn(q) && Reduce(q) == q }

  lemma CanonOfCanonical(q: Query)
    requires Canonical(q)
    ensures Canon(q) == q
  {
  }

  /** No lookup ever sees a URN or an identifier that is not normal. */
  lemma {:induction false} CanonIsCanonical(q: Query)
    ensures Canonical(Canon(q)) && Canon(Canon(q)) == Canon(q)
    decreases QueryMeasure(q)
  {
    ReduceFalls(q);
    if HasUrn(q) {
      CanonIsCanonical(Reduce(q));
    } else if q.External? {
      NormalTwice(q.pub);
    }
  }

  lemma NormalTwice(id: Id)
    ensures NormalId(NormalId(id)) == NormalId(id)
  {
    if id.Some? {
      CollapseTwice(id.value);
    }
  }

  lemma CanonicalParts(pub: Id, sys: Id)
    requires Canonical(External(pub, sys))
    ensures Canonical(External(pub, None)) && Canonical(External(None, sys))
  {
  }
}
