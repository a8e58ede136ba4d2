/** The lookahead automaton of the push parser and the real tag parser agree on where a tag
    ends. */
module TagAgreement {
  import opened Bytes
  import opened HtmlBytes
  import opened TagLookahead
  import opened TagGrammar
  import opened TagParser

  /** What the automaton becomes on white space. */
  function OnBlank(st: LState): LState {
    match st
    case TagName => BeforeAttrName
    case AttrName => AfterAttrName
    case Unquoted => BeforeAttrName
    case _ => st
  }

  function OverBlanks(st: LState, i: nat, j: nat): LState {
    if i < j then OnBlank(st) else st
  }

  lemma {:induction false} BlanksAgree(st: LState, s: seq<byte>, i: nat)
    requires i <= |s| && !InQuotes(st)
    ensures Scan(st, s, i) == Scan(OverBlanks(st, i, BlanksEnd(s, i)), s, BlanksEnd(s, i))
    decreases |s| - i
  {
    if i < |s| && IsWs(s[i]) {
      BlanksAgree(OnBlank(st), s, i + 1);
    }
  }

  lemma {:induction false} NameAgrees(s: seq<byte>, i: nat, attr: bool)
    requires i <= |s|
    ensures var st := if attr then AttrName else TagName;
            Scan(st, s, i) == Scan(st, s, NameRest(s, i, attr))
    decreases |s| - i
  {
    if i < |s| && !EndsName(s[i], attr) {
      NameAgrees(s, i + 1, attr);
    }
  }

  lemma {:induction false} QuotedAgrees(s: seq<byte>, i: nat, mask: Mask)
    requires i <= |s| && (mask == MaskDQ || mask == MaskSQ)
    ensures var st, e := if mask == MaskDQ then DQuoted else SQuoted, QuotedEnd(s, i, mask);
            Scan(st, s, i) == Scan(BeforeAttrName, s, e) || (e == |s| && Scan(st, s, i).Pending?)
    decreases |s| - i
  {
    if i < |s| && !Matches(mask, s[i]) {
      QuotedAgrees(s, i + 1, mask);
    }
  }

  lemma {:induction false} UnquotedAgrees(s: seq<byte>, i: nat)
    requires i <= |s|
    ensures Scan(Unquoted, s, i) == Scan(Unquoted, s, DataEnd(s, i, MaskWsGt, false))
    ensures var e := DataEnd(s, i, MaskWsGt, false); e < |s| ==> Matches(MaskWsGt, s[e])
    decreases |s| - i
  {
    if i < |s| && !Matches(MaskWsGt, s[i]) {
      UnquotedAgrees(s, i + 1);
    }
  }

  /** The automaton's state at byte i fits a parser that looks for the next attribute there. */
  ghost predicate AtAttr(st: LState, s: seq<byte>, i: nat) {
    i < |s| ==>
      && !IsWs(s[i]) && !InQuotes(st)
      && (s[i] == SLASH ==> st != BeforeAttrValue && st != Unquoted)
      && (s[i] != SLASH && s[i] != GT ==> st == BeforeAttrName || (st == AfterAttrName && s[i] != EQ))
  }

  /** From byte i on, the automaton does what it does from byte j on in some state that fits. */
  ghost predicate Follows(st: LState, s: seq<byte>, i: nat, j: nat) {
    && i <= |s| && j <= |s|
    && if j == |s| then Scan(st, s, i).Pending?
       else exists st' :: AtAttr(st', s, j) && Scan(st, s, i) == Scan(st', s, j)
  }

  lemma FollowsBy(st: LState, s: seq<byte>, i: nat, j: nat, st': LState)
    requires i <= |s| && j <= |s| && AtAttr(st', s, j) && Scan(st, s, i) == Scan(st', s, j)
    ensures Follows(st, s, i, j)
  {
  }

  /** A value, and the blanks behind it. */
  lemma ValueAgrees(s: seq<byte>, i: nat)
    requires i <= |s| && (i < |s| ==> !IsWs(s[i]))
    ensures Follows(BeforeAttrValue, s, i, BlanksEnd(s, AttValueEnd(s, i)))
  {
    var e := AttValueEnd(s, i);
    var b := BlanksEnd(s, e);
    if i < |s| && (s[i] == DQUOTE || s[i] == SQUOTE) {
      QuotedAgrees(s, i + 1, if s[i] == DQUOTE then MaskDQ else MaskSQ);
      BlanksAgree(BeforeAttrName, s, e);
      if b < |s| {
        FollowsBy(BeforeAttrValue, s, i, b, BeforeAttrName);
      }
    } else if i < |s| && s[i] != GT {
      assert Scan(BeforeAttrValue, s, i) == Scan(Unquoted, s, i + 1);
      assert e == DataEnd(s, i + 1, MaskWsGt, false);
      UnquotedAgrees(s, i + 1);
      BlanksAgree(Unquoted, s, e);
      if b < |s| {
        FollowsBy(BeforeAttrValue, s, i, b, OverBlanks(Unquoted, e, b));
      }
    } else if i < |s| {
      assert e == i && b == i;
      FollowsBy(BeforeAttrValue, s, i, b, BeforeAttrValue);
    }
  }

  lemma AttrNameAgrees(st: LState, s: seq<byte>, i: nat)
    requires i < |s| && AtAttr(st, s, i) && s[i] != SLASH && s[i] != GT
    ensures var n := NameEnd(s, i, true);
            Scan(st, s, i) == Scan(OverBlanks(AttrName, n, BlanksEnd(s, n)), s, BlanksEnd(s, n))
  {
    assert Scan(st, s, i) == Scan(AttrName, s, i + 1);
    NameAgrees(s, i + 1, true);
    BlanksAgree(AttrName, s, NameEnd(s, i, true));
  }

  /** An attribute, and the blanks behind it. */
  lemma AttributeAgrees(st: LState, s: seq<byte>, i: nat)
    requires i < |s| && AtAttr(st, s, i) && s[i] != SLASH && s[i] != GT
    ensures Follows(st, s, i, BlanksEnd(s, AttributeEnd(s, i)))
  {
    var b := BlanksEnd(s, NameEnd(s, i, true));
    var name := OverBlanks(AttrName, NameEnd(s, i, true), b);
    AttrNameAgrees(st, s, i);
    if b < |s| && s[b] == EQ {
      assert Scan(name, s, b) == Scan(BeforeAttrValue, s, b + 1);
      BlanksAgree(BeforeAttrValue, s, b + 1);
      ValueAgrees(s, BlanksEnd(s, b + 1));
    } else {
      assert BlanksEnd(s, b) == b;
      if b < |s| {
        FollowsBy(st, s, i, b, name);
      }
    }
  }

  /** The attribute list: the automaton accepts where the parser's loop ends. */
  lemma {:induction false} AttrsAgree(st: LState, s: seq<byte>, i: nat)
    requires i <= |s| && AtAttr(st, s, i)
    ensures Scan(st, s, i) ==
            var e := AttrsEnd(s, i);
            if e == |s| then Scan(st, s, i) else if s[e] == GT then Found(e) else Found(e + 1)
    ensures AttrsEnd(s, i) == |s| ==> Scan(st, s, i).Pending?
    decreases |s| - i
  {
    hide Scan;
    SlashAgrees(st, s, i);
    if AttrsDone(s, i) {
      DoneAgrees(st, s, i);
    } else if s[i] == SLASH {
      BlanksAgree(BeforeAttrName, s, i + 1);
      AttrsAgree(BeforeAttrName, s, BlanksEnd(s, i + 1));
    } else {
      var b := BlanksEnd(s, AttributeEnd(s, i));
      AttributeAgrees(st, s, i);
      if b < |s| {
        var st' :| AtAttr(st', s, b) && Scan(st, s, i) == Scan(st', s, b);
        AttrsAgree(st', s, b);
      }
    }
  }

  lemma DoneAgrees(st: LState, s: seq<byte>, i: nat)
    requires i <= |s| && AtAttr(st, s, i) && AttrsDone(s, i)
    ensures if i == |s| then Scan(st, s, i).Pending? else Scan(st, s, i) == Found(if s[i] == GT then i else i + 1)
  {
    if i < |s| && s[i] == SLASH {
      assert Scan(st, s, i) == Scan(BeforeAttrName, s, i + 1);
    }
  }

  lemma SlashAgrees(st: LState, s: seq<byte>, i: nat)
    requires i <= |s| && AtAttr(st, s, i)
    ensures i < |s| && s[i] == SLASH ==> Scan(st, s, i) == Scan(BeforeAttrName, s, i + 1)
  {
  }

  /** Whatever the chunks before it, the lookahead reports exactly the `>` at which the tag
      parser stops, quotes and stray solidi included; without one, both run out of data. */
  lemma TagsAgree(s: seq<byte>, i: nat)
    requires 1 <= i <= 2 <= |s| && (i == 1 || (|s| > 2 && IsLetter(s[2])))
    ensures Scan(TagName, s, 2).Found? <==> TagGt(s, i).Some?
    ensures TagGt(s, i).Some? ==> Scan(TagName, s, 2) == Found(TagGt(s, i).value)
  {
    var n := NameEnd(s, i, false);
    var b := BlanksEnd(s, n);
    assert n == NameRest(s, 2, false);
    NameAgrees(s, 2, false);
    BlanksAgree(TagName, s, n);
    AttrsAgree(OverBlanks(TagName, n, b), s, b);
  }

  /** The push parser on a start tag: wait until the lookahead succeeds or the input ends, then
      parse. However the input is cut, the tag has the end, the name and the attributes that one parse
      of all of it gives. */
  method PushStartTag(first: seq<byte>, chunks: seq<seq<byte>>, find: Matcher)
    returns (gt: Option<nat>, name: seq<byte>, atts: seq<Attribute>)
    requires |first| >= 2 && MatcherOk(find)
    ensures var all := first + Flatten(chunks);
            gt == TagGt(all, 1) && name == NameText(all, 1, false, []) && atts == TagAttrs(find, all, 1)
    ensures forall k :: 0 <= k < |name| ==> !(0x41 <= name[k] <= 0x5A)
    ensures var all := first + Flatten(chunks);
            var end := NameEnd(all, 1, false);
            PlainAscii(all, 1, end) && end - 1 <= 100 ==> Lowered(name, all, 1, end)
  {
    hide Scan, TagGt, NameText, TagAttrs;
    var buf, ok, pos := FeedAll(first, chunks);
    var input := new TagInput(buf, find);
    gt, name, atts := input.ParseStartTag();
    ghost var all := first + Flatten(chunks);
    if ok {
      TagsAgree(buf, 1);
      assert buf + all[|buf|..] == all;
      TagStays(find, buf, all[|buf|..], 1);
    }
    WholeNameIsLower(all, 1, false);
    if PlainAscii(all, 1, NameEnd(all, 1, false)) && NameEnd(all, 1, false) - 1 <= 100 {
      AsciiName(all, 1, false);
    }
  }

  /** The same for every end tag, bogus ones included: there the lookahead may wait too long, but
      never too short. */
  method PushEndTag(first: seq<byte>, chunks: seq<seq<byte>>, find: Matcher)
    returns (gt: Option<nat>, name: Option<seq<byte>>)
    requires |first| >= 2 && MatcherOk(find)
    ensures var all := first + Flatten(chunks); gt == EndTagGt(all) && name == EndTagName(all)
  {
    hide Scan, EndTagGt, EndTagName;
    var buf, ok, pos := FeedAll(first, chunks);
    var input := new TagInput(buf, find);
    gt, name := input.ParseEndTag();
    ghost var all := first + Flatten(chunks);
    if ok {
      assert buf + all[|buf|..] == all;
      EndTagStays(find, buf, all[|buf|..]);
    }
  }

  /** When the lookahead succeeds, more data changes neither where the end tag ends nor what it
      closes. */
  lemma EndTagStays(find: Matcher, s: seq<byte>, more: seq<byte>)
    requires MatcherOk(find) && |s| >= 2 && Scan(TagName, s, 2).Found?
    ensures EndTagGt(s + more) == EndTagGt(s) && EndTagName(s + more) == EndTagName(s)
  {
    hide Scan, TagGt, NameText;
    LookaheadSuffices(s);
    ScanNeedsData(s);
    assert (s + more)[2] == s[2];
    if IsLetter(s[2]) {
      TagStays(find, s, more, 2);
    } else {
      FirstGtStays(s, more, 2);
    }
  }

  lemma ScanNeedsData(s: seq<byte>)
    requires |s| >= 2 && Scan(TagName, s, 2).Found?
    ensures |s| > 2
  {
  }

  lemma {:induction false} FirstGtStays(s: seq<byte>, more: seq<byte>, i: nat)
    requires i <= |s| && FirstGt(s, i).Some?
    ensures FirstGt(s + more, i) == FirstGt(s, i)
    decreases |s| - i
  {
    assert (s + more)[i] == s[i];
    if s[i] != GT {
      FirstGtStays(s, more, i + 1);
    }
  }

  /** For an end tag whose name does not begin with a letter they disagree: this one ends, as a
      bogus comment, at the quoted `>` that the lookahead passes over. */
  lemma BogusEndTagDisagrees()
    ensures var s := [LT, SLASH, 0x20, 0x61, EQ, DQUOTE, GT, DQUOTE, GT];
            EndTagGt(s) == Some(6) && Scan(TagName, s, 2) == Found(8)
  {
    var s := [LT, SLASH, 0x20, 0x61, EQ, DQUOTE, GT, DQUOTE, GT];
    assert Scan(TagName, s, 2) == Scan(AttrName, s, 4) == Scan(BeforeAttrValue, s, 5) == Scan(DQuoted, s, 6);
    assert Scan(DQuoted, s, 6) == Scan(DQuoted, s, 7) == Scan(BeforeAttrName, s, 8);
    assert FirstGt(s, 2) == FirstGt(s, 4) == FirstGt(s, 6);
  }

  /** In every end tag, though, the data already holds the real end when the lookahead succeeds. */
  lemma LookaheadSuffices(s: seq<byte>)
    requires |s| >= 2 && Scan(TagName, s, 2).Found?
    ensures EndTagGt(s).Some? && EndTagGt(s).value <= Scan(TagName, s, 2).pos
  {
    if |s| > 2 && IsLetter(s[2]) {
      TagsAgree(s, 2);
    }
  }

  /** For end tags that are bogus comments, lookahead and parser agree exactly if the automaton is
      not inside quotes at the first `>`; without any `>` both run out of data. */
  lemma BogusEndTagIff(s: seq<byte>)
    requires |s| >= 2 && !(|s| > 2 && IsLetter(s[2]))
    ensures EndTagGt(s).None? ==> Scan(TagName, s, 2).Pending?
    ensures EndTagGt(s).Some? ==>
              var before := Scan(TagName, s[..EndTagGt(s).value], 2);
              before.Pending? && (Scan(TagName, s, 2) == Found(EndTagGt(s).value) <==> !InQuotes(before.state))
  {
    var r := EndTagGt(s);
    if r.Some? {
      var g := r.value;
      assert forall k :: 2 <= k < g ==> s[..g][k] == s[k];
      assert s[..g] + s[g..] == s;
      ScanResumes(TagName, s[..g], s[g..], 2);
    }
  }
}
