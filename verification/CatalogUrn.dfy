/** Public identifiers in catalogs (catalog.c): normalization of blanks, unwrapping of
    `urn:publicid:` names, and the measure on which repeated unwrapping falls. */
module CatalogUrn {
  import opened Bytes

  const SPACE: byte := 0x20
  const PERCENT: byte := 0x25
  const COLON: byte := 0x3A

  /** "urn:publicid:" */
  const URN_PUBID: seq<byte> := [0x75, 0x72, 0x6E, 0x3A, 0x70, 0x75, 0x62, 0x6C, 0x69, 0x63, 0x69, 0x64, 0x3A]

  /** unwrapping stops once the result has more bytes than this (catalog.c:831) */
  const UNWRAP_LIMIT: nat := 1996

  predicate Blank(c: byte) { c == 0x20 || c == 0x09 || c == 0x0A || c == 0x0D }

  predicate HasPrefix(s: seq<byte>, p: seq<byte>) { |p| <= |s| && s[..|p|] == p }

  ghost predicate NoBlank(s: seq<byte>) { forall k :: 0 <= k < |s| ==> !Blank(s[k]) }

  // --- Normalization --------------------------------------------------------------------------

  /** The first `n` bytes with leading and trailing blanks removed and every other run of blanks
      replaced by one space. */
  ghost function CollapseTo(s: seq<byte>, n: nat): (r: seq<byte>)
    requires n <= |s|
  {
    if n == 0 then []
    else
      var r, c := CollapseTo(s, n - 1), s[n - 1];
      if Blank(c) then r
      else if n > 1 && Blank(s[n - 2]) && r != [] then r + [SPACE, c]
      else r + [c]
  }

  ghost function Collapse(s: seq<byte>): (r: seq<byte>) { CollapseTo(s, |s|) }

  /** The maximal runs of bytes other than blanks among the first `n`. */
  ghost function WordsTo(s: seq<byte>, n: nat): (r: seq<seq<byte>>)
    requires n <= |s|
  {
    if n == 0 then []
    else
      var r, c := WordsTo(s, n - 1), s[n - 1];
      if Blank(c) then r
      else if n == 1 || Blank(s[n - 2]) || r == [] then r + [[c]]
      else r[..|r| - 1] + [r[|r| - 1] + [c]]
  }

  ghost function Words(s: seq<byte>): (r: seq<seq<byte>>) { WordsTo(s, |s|) }

  /** Single spaces between words and nowhere else. */
  ghost predicate Normal(s: seq<byte>) {
    && NormalSoFar(s, |s|)
    && (s != [] ==> !Blank(s[|s| - 1]))
  }

  /** Normal, but for one space that may end it. */
  ghost predicate NormalSoFar(s: seq<byte>, n: nat)
    requires n <= |s|
  {
    && (forall k :: 0 <= k < n && Blank(s[k]) ==> s[k] == SPACE && 0 < k)
    && (forall k, j :: 0 <= k < j == k + 1 < n && Blank(s[k]) ==> !Blank(s[j]))
  }

  lemma {:induction false} WordsOfPrefix(s: seq<byte>, t: seq<byte>, n: nat)
    requires n <= |s| && n <= |t| && forall k :: 0 <= k < n ==> s[k] == t[k]
    ensures WordsTo(s, n) == WordsTo(t, n)
  {
    if n > 0 {
      WordsOfPrefix(s, t, n - 1);
    }
  }

  lemma WordsNext(s: seq<byte>, c: byte)
    ensures Words(s + [c]) ==
            if Blank(c) then Words(s)
            else if |s| == 0 || Blank(s[|s| - 1]) || Words(s) == [] then Words(s) + [[c]]
            else Words(s)[..|Words(s)| - 1] + [Words(s)[|Words(s)| - 1] + [c]]
  {
    hide WordsTo;
    var t := s + [c];
    WordsOfPrefix(t, s, |s|);
    WordsOneMore(t, |s|);
    assert t[|s|] == c && (|s| > 0 ==> t[|s| - 1] == s[|s| - 1]);
  }

  lemma WordsOneMore(s: seq<byte>, n: nat)
    requires n < |s|
    ensures var r, c := WordsTo(s, n), s[n];
            WordsTo(s, n + 1) ==
            if Blank(c) then r
            else if n == 0 || Blank(s[n - 1]) || r == [] then r + [[c]]
            else r[..|r| - 1] + [r[|r| - 1] + [c]]
  {
  }

  lemma WordsAfterSpace(s: seq<byte>, c: byte)
    requires !Blank(c)
    ensures Words(s + [SPACE, c]) == Words(s) + [[c]]
  {
    WordsNext(s, SPACE);
    WordsNext(s + [SPACE], c);
    assert s + [SPACE] + [c] == s + [SPACE, c];
  }

  /** Without trailing blanks the collapsed string ends as the string does. */
  lemma {:induction false} CollapseEnd(s: seq<byte>, n: nat)
    requires n <= |s|
    ensures var r := CollapseTo(s, n);
            && (n > 0 && !Blank(s[n - 1]) ==> r != [] && r[|r| - 1] == s[n - 1])
            && (r != [] ==> !Blank(r[|r| - 1]) && !Blank(r[0]))
  {
    if n > 0 {
      CollapseEnd(s, n - 1);
    }
  }

  /** The result has the words of the string. */
  lemma {:induction false} CollapseKeepsWords(s: seq<byte>, n: nat)
    requires n <= |s|
    ensures Words(CollapseTo(s, n)) == WordsTo(s, n) && (WordsTo(s, n) == [] <==> CollapseTo(s, n) == [])
  {
    if n > 0 {
      var r, c := CollapseTo(s, n - 1), s[n - 1];
      CollapseKeepsWords(s, n - 1);
      CollapseEnd(s, n - 1);
      WordsNext(r, c);
      if !Blank(c) {
        WordsAfterSpace(r, c);
      }
      hide Words;
    }
  }

  lemma {:induction false} CollapseIsNormal(s: seq<byte>, n: nat)
    requires n <= |s|
    ensures Normal(CollapseTo(s, n))
  {
    if n > 0 {
      CollapseIsNormal(s, n - 1);
      CollapseEnd(s, n - 1);
      CollapseEnd(s, n);
    }
  }

  lemma {:induction false} NormalIsKept(s: seq<byte>, n: nat)
    requires n <= |s| && NormalSoFar(s, n)
    ensures CollapseTo(s, n) == if n > 0 && Blank(s[n - 1]) then s[..n - 1] else s[..n]
  {
    if n > 0 {
      NormalIsKept(s, n - 1);
    }
  }

  /** Normal, said of the bytes: of space, tab, line feed and carriage return there are only spaces, and
      each stands between two other bytes. */
  lemma NormalByBytes(s: seq<byte>)
    ensures Normal(s) <==>
            forall k :: 0 <= k < |s| && s[k] in {0x20, 0x09, 0x0A, 0x0D} ==>
              s[k] == 0x20 && 0 < k < |s| - 1 && s[k + 1] !in {0x20, 0x09, 0x0A, 0x0D}
  {
    if Normal(s) {
      forall k | 0 <= k < |s| && s[k] in {0x20, 0x09, 0x0A, 0x0D}
        ensures s[k] == 0x20 && 0 < k < |s| - 1 && s[k + 1] !in {0x20, 0x09, 0x0A, 0x0D}
      {
        assert Blank(s[k]);
        if k + 1 < |s| {
          var j := k + 1;
          assert 0 <= k < j == k + 1 < |s| && Blank(s[k]);
        }
      }
    } else if forall k :: 0 <= k < |s| && Blank(s[k]) ==> s[k] == 0x20 && 0 < k < |s| - 1 && !Blank(s[k + 1]) {
      forall k, j | 0 <= k < j == k + 1 < |s| && Blank(s[k])
        ensures !Blank(s[j])
      {
      }
      assert NormalSoFar(s, |s|);
    }
  }

  lemma CollapseTwice(s: seq<byte>)
    ensures Collapse(Collapse(s)) == Collapse(s)
  {
    CollapseIsNormal(s, |s|);
    NormalIsKept(Collapse(s), |Collapse(s)|);
  }

  lemma NormalNext(s: seq<byte>, i: nat)
    requires i < |s| && NormalSoFar(s, i)
    ensures !Blank(s[i]) || (s[i] == SPACE && i > 0 && !Blank(s[i - 1])) ==> NormalSoFar(s, i + 1)
    ensures Blank(s[i]) && !(s[i] == SPACE && i > 0 && !Blank(s[i - 1])) ==> !Normal(s)
  {
    if Blank(s[i]) && i > 0 && Blank(s[i - 1]) {
      var k := i - 1;
      assert Blank(s[k]) && Blank(s[i]);
    }
  }

  lemma NormalNothing(s: seq<byte>)
    ensures NormalSoFar(s, 0)
  {
  }

  lemma NormalAtLast(s: seq<byte>)
    requires NormalSoFar(s, |s|)
    ensures s == [] || !Blank(s[|s| - 1]) <==> Normal(s)
  {
  }

  /** The first loop of xmlCatalogNormalizePublic (catalog.c:1010-1020). */
  method IsNormal(pubID: seq<byte>) returns (r: bool)
    ensures r <==> pubID != [] && Normal(pubID)
  {
    hide Normal, NormalSoFar;
    var ok, white, i := true, true, 0;
    NormalNothing(pubID);
    while i < |pubID| && ok
      invariant 0 <= i <= |pubID|
      invariant ok ==> white == (i == 0 || Blank(pubID[i - 1]))
      invariant ok ==> NormalSoFar(pubID, i)
      invariant !ok ==> !Normal(pubID)
    {
      NormalNext(pubID, i);
      if !Blank(pubID[i]) {
        white := false;
      } else if pubID[i] == SPACE && !white {
        white := true;
      } else {
        ok := false;
      }
      i := i + 1;
    }
    if ok {
      NormalAtLast(pubID);
    }
    r := ok && !white;
  }

  /** xmlCatalogNormalizePublic: nothing for a string that is normal already. */
  method NormalizePublic(pubID: seq<byte>) returns (r: Option<seq<byte>>)
    ensures r.None? <==> pubID != [] && Normal(pubID)
    ensures r.None? ==> Collapse(pubID) == pubID
    ensures r.Some? ==> r.value == Collapse(pubID)
  {
    var normal := IsNormal(pubID);
    if normal {
      NormalIsKept(pubID, |pubID|);
      return None;
    }
    hide Normal;
    var q: seq<byte>, white, i := [], false, 0;
    while i < |pubID|
      invariant 0 <= i <= |pubID| && q == CollapseTo(pubID, i)
      invariant white == (i > 0 && Blank(pubID[i - 1]) && q != [])
    {
      if Blank(pubID[i]) {
        if q != [] {
          white := true;
        }
      } else {
        if white {
          q := q + [SPACE];
          white := false;
        }
        q := q + [pubID[i]];
      }
      i := i + 1;
    }
    r := Some(q);
  }

  // --- Unwrapping -----------------------------------------------------------------------------

  /** The next piece of the result and the number of bytes read for it. */
  datatype Unit = Unit(out: seq<byte>, read: nat)

  /** The byte that an escape `%xy` stands for. */
  function Unescape(s: seq<byte>): Option<byte> {
    if |s| < 3 || s[0] != PERCENT then None
    else if s[1] == 0x32 && s[2] == 0x42 then Some(0x2B)
    else if s[1] == 0x33 && s[2] == 0x41 then Some(COLON)
    else if s[1] == 0x32 && s[2] == 0x46 then Some(0x2F)
    else if s[1] == 0x33 && s[2] == 0x42 then Some(0x3B)
    else if s[1] == 0x32 && s[2] == 0x37 then Some(0x27)
    else if s[1] == 0x33 && s[2] == 0x46 then Some(0x3F)
    else if s[1] == 0x32 && s[2] == 0x33 then Some(0x23)
    else if s[1] == 0x32 && s[2] == 0x35 then Some(PERCENT)
    else None
  }

  function NextUnit(s: seq<byte>): (u: Unit)
    requires s != []
    ensures 1 <= |u.out| <= 2 && 1 <= u.read <= |s|
  {
    if s[0] == 0x2B then Unit([SPACE], 1)
    else if s[0] == COLON then Unit([0x2F, 0x2F], 1)
    else if s[0] == 0x3B then Unit([COLON, COLON], 1)
    else match Unescape(s)
      case Some(c) => Unit([c], 3)
      case None => Unit([s[0]], 1)
  }

  /** What follows in the result after `i` bytes, with `s` left to read. */
  ghost function Expand(s: seq<byte>, i: nat): (r: seq<byte>)
    decreases |s|
  {
    if s == [] || i > UNWRAP_LIMIT then []
    else
      var u := NextUnit(s);
      u.out + Expand(s[u.read..], i + |u.out|)
  }

  lemma ExpandStep(s: seq<byte>, i: nat)
    requires s != [] && i <= UNWRAP_LIMIT
    ensures var u := NextUnit(s); Expand(s, i) == u.out + Expand(s[u.read..], i + |u.out|)
  {
  }

  lemma ExpandStops(s: seq<byte>, i: nat)
    requires s == [] || i > UNWRAP_LIMIT
    ensures Expand(s, i) == []
  {
  }

  /** xmlCatalogUnWrapURN */
  method UnWrapURN(urn: seq<byte>) returns (r: Option<seq<byte>>)
    ensures r.Some? <==> HasPrefix(urn, URN_PUBID)
    ensures r.Some? ==> r.value == Expand(urn[|URN_PUBID|..], 0)
  {
    r := None;
    if HasPrefix(urn, URN_PUBID) {
      var result := UnWrapBody(urn[|URN_PUBID|..]);
      r := Some(result);
    }
  }

  /** The loop of xmlCatalogUnWrapURN (catalog.c:830-871). */
  method UnWrapBody(urn: seq<byte>) returns (result: seq<byte>)
    ensures result == Expand(urn, 0)
  {
    hide Expand, NextUnit;
    var pos := 0;
    result := [];
    while pos < |urn|
      invariant 0 <= pos <= |urn|
      invariant result + Expand(urn[pos..], |result|) == Expand(urn, 0)
    {
      if |result| > UNWRAP_LIMIT {
        break;
      }
      ExpandStep(urn[pos..], |result|);
      var u := NextUnit(urn[pos..]);
      assert urn[pos..][u.read..] == urn[pos + u.read..];
      result := result + u.out;
      pos := pos + u.read;
    }
    ExpandStops(urn[pos..], |result|);
  }

  // --- The measure ----------------------------------------------------------------------------

  ghost function Percents(s: seq<byte>): nat {
    if s == [] then 0 else (if s[0] == PERCENT then 1 else 0) + Percents(s[1..])
  }

  /** Unwrapping falls on this, also when the identifier is normalized in between. */
  ghost function Measure(s: seq<byte>): nat {
    2 * Percents(s) + if HasPrefix(Collapse(s), URN_PUBID) then 1 else 0
  }

  lemma {:induction false} PercentsSum(s: seq<byte>, t: seq<byte>)
    ensures Percents(s + t) == Percents(s) + Percents(t)
  {
    if s == [] {
      assert s + t == t;
    } else {
      assert (s + t)[1..] == s[1..] + t;
      PercentsSum(s[1..], t);
    }
  }

  lemma PercentsSplit(s: seq<byte>, n: nat)
    requires n <= |s|
    ensures Percents(s) == Percents(s[..n]) + Percents(s[n..])
  {
    assert s == s[..n] + s[n..];
    PercentsSum(s[..n], s[n..]);
  }

  lemma {:induction false} NoPercents(s: seq<byte>)
    requires PERCENT !in s
    ensures Percents(s) == 0
  {
    if s != [] {
      NoPercents(s[1..]);
    }
  }

  lemma {:induction false} CollapseKeepsPercents(s: seq<byte>, n: nat)
    requires n <= |s|
    ensures Percents(CollapseTo(s, n)) == Percents(s[..n])
  {
    if n > 0 {
      var r, c := CollapseTo(s, n - 1), s[n - 1];
      CollapseKeepsPercents(s, n - 1);
      assert s[..n] == s[..n - 1] + [c];
      PercentsSum(s[..n - 1], [c]);
      PercentsSum(r, [SPACE, c]);
      PercentsSum(r, [c]);
      assert [SPACE, c][1..] == [c];
    }
  }

  /** One unit never yields more `%` than it reads. */
  lemma UnitPercents(s: seq<byte>)
    requires s != []
    ensures var u := NextUnit(s); Percents(u.out) <= Percents(s[..u.read])
    ensures var u := NextUnit(s); u.out == [COLON] ==> Percents(u.out) < Percents(s[..u.read])
    ensures var u := NextUnit(s); COLON in u.out ==> u.out == [COLON] || u.out == [COLON, COLON]
  {
    hide Unescape;
    var u := NextUnit(s);
    if u.out == [s[0]] {
      assert s[..u.read][0] == s[0];
    } else if u.read == 3 {
      PercentFirst(s);
    }
  }

  lemma PercentFirst(s: seq<byte>)
    requires Unescape(s).Some?
    ensures |s| >= 3 && s[0] == PERCENT && Percents(s[..3]) >= 1
  {
    assert s[..3][0] == PERCENT;
  }

  lemma {:induction false} ExpandPercents(s: seq<byte>, i: nat)
    ensures Percents(Expand(s, i)) <= Percents(s)
    decreases |s|
  {
    hide Percents, NextUnit;
    if s != [] && i <= UNWRAP_LIMIT {
      var u := NextUnit(s);
      UnitPercents(s);
      PercentsSplit(s, u.read);
      ExpandPercents(s[u.read..], i + |u.out|);
      PercentsSum(u.out, Expand(s[u.read..], i + |u.out|));
    } else {
      NoPercents([]);
    }
  }

  /** A colon with no colon next to it. */
  ghost predicate LoneColon(t: seq<byte>, k: nat) {
    k + 1 < |t| && t[k] == COLON && t[k + 1] != COLON && (k > 0 ==> t[k - 1] != COLON)
  }

  /** In the result such a colon can only come from an escape. */
  lemma {:induction false} LoneColonCosts(s: seq<byte>, i: nat, k: nat)
    requires LoneColon(Expand(s, i), k)
    ensures Percents(Expand(s, i)) < Percents(s)
    decreases |s|
  {
    hide Percents, NextUnit;
    var u := NextUnit(s);
    var t, rest := Expand(s, i), Expand(s[u.read..], i + |u.out|);
    assert t == u.out + rest && forall m :: 0 <= m < |u.out| ==> t[m] == u.out[m];
    UnitPercents(s);
    PercentsSplit(s, u.read);
    ExpandPercents(s[u.read..], i + |u.out|);
    PercentsSum(u.out, rest);
    if k >= |u.out| {
      assert rest[k - |u.out|] == t[k];
      LoneColonCosts(s[u.read..], i + |u.out|, k - |u.out|);
    } else {
      assert u.out[k] == t[k] && COLON in u.out;
    }
  }

  /** `w` stands in `t` at `j`. */
  ghost predicate At(t: seq<byte>, j: nat, w: seq<byte>) {
    j + |w| <= |t| && forall k :: 0 <= k < |w| ==> t[j + k] == w[k]
  }

  /** What a byte adds to the collapsed string. */
  lemma CollapseTail(t: seq<byte>, n: nat) returns (tail: seq<byte>)
    requires 0 < n <= |t|
    ensures CollapseTo(t, n) == CollapseTo(t, n - 1) + tail
    ensures if Blank(t[n - 1]) then tail == []
            else if n > 1 && Blank(t[n - 2]) && CollapseTo(t, n - 1) != [] then tail == [SPACE, t[n - 1]]
            else tail == [t[n - 1]]
  {
    tail := CollapseTo(t, n)[|CollapseTo(t, n - 1)|..];
  }

  /** A collapsed string without a space is a part of the string. */
  lemma {:induction false} OneWord(t: seq<byte>, n: nat) returns (j: nat)
    requires n <= |t| && NoBlank(CollapseTo(t, n))
    ensures At(t, j, CollapseTo(t, n)) && j + |CollapseTo(t, n)| <= n
    ensures CollapseTo(t, n) != [] ==> forall k :: j + |CollapseTo(t, n)| <= k < n ==> Blank(t[k])
  {
    j := 0;
    if n > 0 {
      var r, q := CollapseTo(t, n - 1), CollapseTo(t, n);
      var tail := CollapseTail(t, n);
      hide CollapseTo;
      NoBlankSplit(r, tail);
      j := OneWord(t, n - 1);
      if tail != [] && r == [] {
        j := n - 1;
      } else if tail != [] {
        assert |tail| == 1 && !Blank(t[n - 2]);
        assert j + |r| == n - 1;
      }
    }
  }

  lemma NoBlankSplit(r: seq<byte>, tail: seq<byte>)
    requires NoBlank(r + tail)
    ensures NoBlank(r) && NoBlank(tail) && (tail != [] ==> tail[0] != SPACE)
  {
    assert forall k :: 0 <= k < |r| ==> r[k] == (r + tail)[k];
    assert forall k :: 0 <= k < |tail| ==> tail[k] == (r + tail)[|r| + k];
  }

  lemma {:induction false} PrefixOccurs(t: seq<byte>, n: nat, p: seq<byte>) returns (j: nat)
    requires n <= |t| && HasPrefix(CollapseTo(t, n), p) && NoBlank(p)
    ensures At(t, j, p)
  {
    if CollapseTo(t, n) == p {
      j := OneWord(t, n);
    } else {
      var r, q := CollapseTo(t, n - 1), CollapseTo(t, n);
      var tail := CollapseTail(t, n);
      hide CollapseTo;
      PrefixShorter(r, tail, p);
      j := PrefixOccurs(t, n - 1, p);
    }
  }

  lemma PrefixShorter(r: seq<byte>, tail: seq<byte>, p: seq<byte>)
    requires HasPrefix(r + tail, p) && NoBlank(p) && r + tail != p
    requires |tail| <= 1 || (|tail| == 2 && Blank(tail[0]))
    ensures HasPrefix(r, p)
  {
    var q := r + tail;
    assert |tail| > 0 ==> q[|r|] == tail[0];
    assert forall k :: 0 <= k < |p| ==> p[k] == q[..|p|][k] == q[k];
    assert |p| <= |r|;
    assert q[..|p|] == r[..|p|];
  }

  /** A name that begins with the prefix still does after normalization. */
  lemma {:induction false} PrefixCollapses(s: seq<byte>, n: nat, p: seq<byte>)
    requires |p| <= n <= |s| && HasPrefix(s, p) && NoBlank(p)
    ensures HasPrefix(CollapseTo(s, n), p)
    decreases n
  {
    if n == |p| {
      assert forall k :: 0 <= k < n ==> s[k] == p[k];
      NormalIsKept(s, n);
    } else {
      PrefixCollapses(s, n - 1, p);
    }
  }

  lemma UrnPrefix()
    ensures NoBlank(URN_PUBID) && Percents(URN_PUBID) == 0
  {
    assert |URN_PUBID| == 13;
    forall k | 0 <= k < 13
      ensures !Blank(URN_PUBID[k]) && URN_PUBID[k] != PERCENT
    {
    }
    NoPercents(URN_PUBID);
  }

  lemma UrnHasLoneColon(t: seq<byte>, j: nat)
    requires At(t, j, URN_PUBID)
    ensures LoneColon(t, j + 3)
  {
    var w := URN_PUBID;
    assert t[j + 2] == w[2] && t[j + 3] == w[3] && t[j + 4] == w[4];
  }

  /** Unwrapping makes the measure smaller. */
  lemma UnwrapFalls(s: seq<byte>)
    requires HasPrefix(s, URN_PUBID)
    ensures Measure(Expand(s[|URN_PUBID|..], 0)) < Measure(s)
  {
    hide Percents, CollapseTo, Expand;
    var n := |URN_PUBID|;
    var t := Expand(s[n..], 0);
    UrnPrefix();
    PrefixCollapses(s, |s|, URN_PUBID);
    PercentsSplit(s, n);
    ExpandPercents(s[n..], 0);
    if HasPrefix(Collapse(t), URN_PUBID) {
      var j := PrefixOccurs(t, |t|, URN_PUBID);
      UrnHasLoneColon(t, j);
      LoneColonCosts(s[n..], 0, j + 3);
    }
  }

  lemma MeasureOfNormal(s: seq<byte>)
    ensures Measure(Collapse(s)) == Measure(s)
  {
    CollapseTwice(s);
    CollapseKeepsPercents(s, |s|);
    assert s[..|s|] == s;
  }

  // --- Wrapping -------------------------------------------------------------------------------

  /** The transcription of RFC 3151, section 1.2, without the prefix. */
  ghost function Transcribe(p: seq<byte>): (r: seq<byte>) {
    if p == [] then []
    else if |p| >= 2 && p[0] == 0x2F && p[1] == 0x2F then [COLON] + Transcribe(p[2..])
    else if |p| >= 2 && p[0] == COLON && p[1] == COLON then [0x3B] + Transcribe(p[2..])
    else EscapeByte(p[0]) + Transcribe(p[1..])
  }

  function EscapeByte(c: byte): seq<byte> {
    if c == SPACE then [0x2B]
    else if c == 0x2B then [PERCENT, 0x32, 0x42]
    else if c == COLON then [PERCENT, 0x33, 0x41]
    else if c == 0x2F then [PERCENT, 0x32, 0x46]
    else if c == 0x3B then [PERCENT, 0x33, 0x42]
    else if c == 0x27 then [PERCENT, 0x32, 0x37]
    else if c == 0x3F then [PERCENT, 0x33, 0x46]
    else if c == 0x23 then [PERCENT, 0x32, 0x33]
    else if c == PERCENT then [PERCENT, 0x32, 0x35]
    else [c]
  }

  /** The first unit of a transcription: the bytes that it stands for, and how many it takes. */
  lemma TranscriptionStep(p: seq<byte>) returns (n: nat, k: nat)
    requires p != []
    ensures 1 <= n <= |p| && 1 <= k <= |Transcribe(p)|
    ensures Transcribe(p) != [] && NextUnit(Transcribe(p)) == Unit(p[..n], k)
    ensures Transcribe(p)[k..] == Transcribe(p[n..])
  {
    n := if |p| >= 2 && p[0] == p[1] && (p[0] == 0x2F || p[0] == COLON) then 2 else 1;
    var head := if n == 1 then EscapeByte(p[0]) else if p[0] == COLON then [0x3B] else [COLON];
    k := |head|;
    assert Transcribe(p) == head + Transcribe(p[n..]);
    hide Transcribe, NextUnit;
    UnitOfHead(p, head, n, Transcribe(p[n..]));
  }

  lemma NothingTranscribed()
    ensures Transcribe([]) == []
  {
  }

  /** Unwrapping undoes the transcription of every identifier that fits. */
  lemma {:induction false} UnwrapsTranscription(p: seq<byte>, i: nat)
    requires i + |p| <= UNWRAP_LIMIT + 1
    ensures Expand(Transcribe(p), i) == p
    decreases |p|
  {
    hide Expand, Transcribe, NextUnit;
    if p == [] {
      NothingTranscribed();
      ExpandStops([], i);
    } else {
      var n, k := TranscriptionStep(p);
      ExpandStep(Transcribe(p), i);
      UnwrapsTranscription(p[n..], i + n);
      assert p == p[..n] + p[n..];
    }
  }

  lemma UnitOfHead(p: seq<byte>, head: seq<byte>, n: nat, rest: seq<byte>)
    requires 1 <= n <= 2 && n <= |p|
    requires if n == 1 then head == EscapeByte(p[0])
             else p[0] == p[1] && ((p[0] == COLON && head == [0x3B]) || (p[0] == 0x2F && head == [COLON]))
    ensures head != [] && NextUnit(head + rest) == Unit(p[..n], |head|)
  {
    if n == 1 {
      UnitOfEscape(p[0], rest);
      assert p[..1] == [p[0]];
    } else {
      assert p[..2] == [p[0], p[1]];
    }
  }

  lemma UnitOfEscape(c: byte, rest: seq<byte>)
    ensures NextUnit(EscapeByte(c) + rest) == Unit([c], |EscapeByte(c)|)
  {
    var s := EscapeByte(c) + rest;
    assert s[0] == EscapeByte(c)[0];
    if |EscapeByte(c)| == 3 {
      assert s[1] == EscapeByte(c)[1] && s[2] == EscapeByte(c)[2];
    }
  }

  /** So every normal identifier of at most 1997 bytes survives wrapping and unwrapping. */
  lemma UrnRoundTrip(p: seq<byte>)
    requires |p| <= 1997
    ensures HasPrefix(URN_PUBID + Transcribe(p), URN_PUBID)
    ensures Expand((URN_PUBID + Transcribe(p))[|URN_PUBID|..], 0) == p
  {
    assert (URN_PUBID + Transcribe(p))[|URN_PUBID|..] == Transcribe(p);
    UnwrapsTranscription(p, 0);
  }

  /** The escapes that are undone are those of the transcription, and no others. */
  lemma EscapesUndone(s: seq<byte>, c: byte)
    ensures Unescape(s) == Some(c) <==> |s| >= 3 && |EscapeByte(c)| == 3 && s[..3] == EscapeByte(c)
  {
    if |s| >= 3 {
      assert s[..3] == [s[0], s[1], s[2]];
    }
  }
}
