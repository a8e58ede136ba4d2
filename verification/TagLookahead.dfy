/** The push parser's lookahead for the end of a tag (htmlParseLookupGt): an automaton over
    the bytes after `<a` or `</` that can stop at the end of any chunk and resume. */
module TagLookahead {
  import opened Bytes
  import opened HtmlBytes

  datatype LState =
    | TagName | BeforeAttrName | AttrName | AfterAttrName
    | BeforeAttrValue | DQuoted | SQuoted | Unquoted

  predicate InQuotes(st: LState) {
    st.DQuoted? || st.SQuoted?
  }

  /** The tag ends here. */
  predicate Accepts(st: LState, c: byte) {
    !InQuotes(st) && c == GT
  }

  function Next(st: LState, c: byte): LState
    requires !Accepts(st, c)
  {
    if !InQuotes(st) && c == SLASH && st != BeforeAttrValue && st != Unquoted then BeforeAttrName
    else match st
      case TagName => if IsWs(c) then BeforeAttrName else TagName
      case BeforeAttrName => if IsWs(c) then BeforeAttrName else AttrName
      case AttrName => if c == EQ then BeforeAttrValue else if IsWs(c) then AfterAttrName else AttrName
      case AfterAttrName => if c == EQ then BeforeAttrValue else if IsWs(c) then AfterAttrName else AttrName
      case BeforeAttrValue =>
        if c == DQUOTE then DQuoted else if c == SQUOTE then SQuoted
        else if IsWs(c) then BeforeAttrValue else Unquoted
      case DQuoted => if c == DQUOTE then BeforeAttrName else DQuoted
      case SQuoted => if c == SQUOTE then BeforeAttrName else SQuoted
      case Unquoted => if IsWs(c) then BeforeAttrName else Unquoted
  }

  datatype Outcome = Found(pos: nat) | Pending(state: LState)

  /** The automaton from byte i to the end of the data. */
  function Scan(st: LState, s: seq<byte>, i: nat): (r: Outcome)
    requires i <= |s|
    ensures r.Found? ==> i <= r.pos < |s| && s[r.pos] == GT
    decreases |s| - i
  {
    if i == |s| then Pending(st)
    else if Accepts(st, s[i]) then Found(i)
    else Scan(Next(st, s[i]), s, i + 1)
  }

  /** More data does not change a success, and resumes a pending scan where it stopped. */
  lemma {:induction false} ScanResumes(st: LState, s: seq<byte>, more: seq<byte>, i: nat)
    requires i <= |s|
    ensures Scan(st, s + more, i) ==
            match Scan(st, s, i)
            case Found(g) => Found(g)
            case Pending(st') => Scan(st', s + more, |s|)
    decreases |s| - i
  {
    if i < |s| {
      assert (s + more)[i] == s[i];
      if !Accepts(st, s[i]) {
        ScanResumes(Next(st, s[i]), s, more, i + 1);
      }
    }
  }

  /** The parser context fields of the lookahead. */
  class Lookahead {
    var checkIndex: nat
    var endCheckState: LState

    /** Entering a tag in the push parser: no index yet, and endCheckState is 0. */
    constructor ()
      ensures checkIndex == 0 && endCheckState == TagName
    {
      checkIndex, endCheckState := 0, TagName;
    }

    /** What a fresh tag, or the calls before this one on prefixes of `buf`, leave behind. */
    ghost predicate Resumes(buf: seq<byte>)
      reads this
    {
      if checkIndex == 0 then endCheckState == TagName
      else 2 <= checkIndex <= |buf| && Scan(TagName, buf[..checkIndex], 2) == Pending(endCheckState)
    }

    /** htmlParseLookupGt on the bytes from input->cur to input->end: it succeeds exactly when
        the automaton run on all of them from the start does. */
    method LookupGt(buf: seq<byte>) returns (ok: bool, ghost gt: nat)
      requires |buf| >= 2 && Resumes(buf)
      modifies this
      ensures ok <==> Scan(TagName, buf, 2).Found?
      ensures ok ==> Scan(TagName, buf, 2) == Found(gt) && checkIndex == 0 && endCheckState == TagName
      ensures !ok ==> checkIndex == |buf| && Resumes(buf)
    {
      var state := endCheckState;
      var cur := if checkIndex == 0 then 2 else checkIndex;
      gt := 0;
      ResumeAt(buf, cur, state);
      while cur < |buf|
        invariant 2 <= cur <= |buf| && Scan(TagName, buf, 2) == Scan(state, buf, cur)
      {
        var c := buf[cur];
        if Accepts(state, c) {
          gt := cur;
          checkIndex, endCheckState := 0, TagName;
          return true, gt;
        }
        state := Next(state, c);
        cur := cur + 1;
      }
      checkIndex, endCheckState := cur, state;
      assert buf[..cur] == buf;
      return false, 0;
    }
  }

  lemma ResumeAt(buf: seq<byte>, cur: nat, state: LState)
    requires 2 <= cur <= |buf|
    requires (cur == 2 && state == TagName) || Scan(TagName, buf[..cur], 2) == Pending(state)
    ensures Scan(TagName, buf, 2) == Scan(state, buf, cur)
  {
    assert buf[..cur] + buf[cur..] == buf;
    ScanResumes(TagName, buf[..cur], buf[cur..], 2);
  }

  /** Fed in any chunks, the lookahead succeeds first on exactly the byte where one scan of
      everything would: feeding stops at the first chunk that holds it. */
  method FeedAll(first: seq<byte>, chunks: seq<seq<byte>>) returns (buf: seq<byte>, ok: bool, ghost gt: nat)
    requires |first| >= 2
    ensures ok <==> Scan(TagName, first + Flatten(chunks), 2).Found?
    ensures ok ==> Scan(TagName, first + Flatten(chunks), 2) == Found(gt) && gt < |buf|
    ensures ok ==> |buf| >= 2 && Scan(TagName, buf, 2) == Found(gt)
    ensures buf <= first + Flatten(chunks) && (!ok ==> buf == first + Flatten(chunks))
  {
    var l := new Lookahead();
    buf := first;
    ok, gt := l.LookupGt(buf);
    var k := 0;
    assert chunks[0..] == chunks;
    while !ok && k < |chunks|
      invariant k <= |chunks| && |buf| >= 2 && first + Flatten(chunks) == buf + Flatten(chunks[k..])
      invariant ok <==> Scan(TagName, buf, 2).Found?
      invariant ok ==> Scan(TagName, buf, 2) == Found(gt)
      invariant !ok ==> l.checkIndex == |buf| && l.Resumes(buf)
      decreases |chunks| - k
    {
      assert (buf + chunks[k])[..|buf|] == buf[..|buf|] == buf;
      assert buf + Flatten(chunks[k..]) == (buf + chunks[k]) + Flatten(chunks[k + 1..]);
      buf := buf + chunks[k];
      k := k + 1;
      ok, gt := l.LookupGt(buf);
    }
    ScanResumes(TagName, buf, Flatten(chunks[k..]), 2);
    assert !ok ==> Flatten(chunks[k..]) == [];
  }
}
