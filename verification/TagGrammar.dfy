/** The grammar of tags, attributes, data and comments in HTMLparser.c: where each ends, and what it
    says. Data that ends inside the input is not changed by input behind it. */
module TagGrammar {
  import opened Bytes
  import opened HtmlBytes
  import opened HtmlText

  /** The terminator masks of htmlParseData. */
  datatype Mask = MaskDQ | MaskSQ | MaskGt | MaskDash | MaskWsGt

  predicate Matches(mask: Mask, c: byte) {
    match mask
    case MaskDQ => c == DQUOTE
    case MaskSQ => c == SQUOTE
    case MaskGt => c == GT
    case MaskDash => c == DASH
    case MaskWsGt => IsWs(c) || c == GT
  }

  // --- Where the parsers end ------------------------------------------------------------

  function BlanksEnd(s: seq<byte>, i: nat): (n: nat)
    requires i <= |s|
    ensures i <= n <= |s| && (n < |s| ==> !IsWs(s[n]))
    decreases |s| - i
  {
    if i < |s| && IsWs(s[i]) then BlanksEnd(s, i + 1) else i
  }

  /** The bytes that end a tag name (and an attribute name, for `=`). */
  predicate EndsName(c: byte, attr: bool) {
    c == SLASH || c == GT || (attr && c == EQ) || IsWs(c)
  }

  function NameRest(s: seq<byte>, i: nat, attr: bool): (n: nat)
    requires i <= |s|
    ensures i <= n <= |s| && (n < |s| ==> EndsName(s[n], attr))
    decreases |s| - i
  {
    if i == |s| || EndsName(s[i], attr) then i else NameRest(s, i + 1, attr)
  }

  /** A name: whatever byte comes first, and then up to the first byte that ends names. */
  function NameEnd(s: seq<byte>, i: nat, attr: bool): (n: nat)
    requires i <= |s|
    ensures i <= n <= |s| && (i < |s| ==> i < n)
    ensures n < |s| ==> EndsName(s[n], attr)
  {
    if i == |s| then i else NameRest(s, i + 1, attr)
  }

  /** How many bytes to skip where data ends at byte i, or -1 if it does not end there: a
      comment ends at `-->` or `--!>`, and at a prefix of these at the end of the input. */
  function TermSkip(s: seq<byte>, i: nat, mask: Mask, comment: bool): (n: int)
    requires i < |s|
    ensures -1 <= n <= |s| - i
  {
    if !Matches(mask, s[i]) then -1
    else if !comment then 0
    else if i + 1 >= |s| then 1
    else if s[i + 1] != DASH then -1
    else if i + 2 >= |s| then 2
    else if s[i + 2] == GT then 3
    else if s[i + 2] != BANG then -1
    else if i + 3 >= |s| then 3
    else if s[i + 3] == GT then 4
    else -1
  }

  /** Where htmlParseData leaves the input. */
  function DataEnd(s: seq<byte>, i: nat, mask: Mask, comment: bool): (n: nat)
    requires i <= |s|
    ensures i <= n <= |s|
    decreases |s| - i
  {
    if i == |s| then i
    else if TermSkip(s, i, mask, comment) >= 0 then i + TermSkip(s, i, mask, comment)
    else DataEnd(s, i + 1, mask, comment)
  }

  lemma {:induction false} SkipPlain(s: seq<byte>, i: nat, j: nat, mask: Mask, comment: bool)
    requires i <= j <= |s| && forall k :: i <= k < j ==> !Matches(mask, s[k])
    ensures DataEnd(s, i, mask, comment) == DataEnd(s, j, mask, comment)
    decreases j - i
  {
    if i < j {
      SkipPlain(s, i + 1, j, mask, comment);
    }
  }

  /** Behind a closing quote, if there is one. */
  function QuotedEnd(s: seq<byte>, i: nat, mask: Mask): (n: nat)
    requires i <= |s| && (mask == MaskDQ || mask == MaskSQ)
    ensures i <= n <= |s|
  {
    var e := DataEnd(s, i, mask, false);
    if e < |s| && Matches(mask, s[e]) then e + 1 else e
  }

  function AttValueEnd(s: seq<byte>, i: nat): (n: nat)
    requires i <= |s|
    ensures i <= n <= |s|
  {
    if i < |s| && s[i] == DQUOTE then QuotedEnd(s, i + 1, MaskDQ)
    else if i < |s| && s[i] == SQUOTE then QuotedEnd(s, i + 1, MaskSQ)
    else DataEnd(s, i, MaskWsGt, false)
  }

  function AttributeEnd(s: seq<byte>, i: nat): (n: nat)
    requires i <= |s|
    ensures i <= n <= |s| && (i < |s| ==> i < n)
  {
    var b := BlanksEnd(s, NameEnd(s, i, true));
    if b < |s| && s[b] == EQ then AttValueEnd(s, BlanksEnd(s, b + 1)) else b
  }

  /** `>` or `/>`, or no input left. */
  predicate AttrsDone(s: seq<byte>, i: nat) {
    i >= |s| || s[i] == GT || (s[i] == SLASH && i + 1 < |s| && s[i + 1] == GT)
  }

  /** Where the attribute list of a tag ends. */
  function AttrsEnd(s: seq<byte>, i: nat): (n: nat)
    requires i <= |s|
    ensures i <= n <= |s| && AttrsDone(s, n)
    decreases |s| - i
  {
    if AttrsDone(s, i) then i
    else if s[i] == SLASH then AttrsEnd(s, BlanksEnd(s, i + 1))
    else AttrsEnd(s, BlanksEnd(s, AttributeEnd(s, i)))
  }

  /** The `>` at which a tag whose name starts at byte i ends, if the data holds it. */
  function TagGt(s: seq<byte>, i: nat): (r: Option<nat>)
    requires i <= |s|
    ensures r.Some? ==> r.value < |s| && s[r.value] == GT
  {
    var e := AttrsEnd(s, BlanksEnd(s, NameEnd(s, i, false)));
    if e == |s| then None else if s[e] == GT then Some(e) else Some(e + 1)
  }

  /** The `>` at which an end tag ends: a name that does not begin with a letter makes it a
      bogus comment, which ends at the first one. */
  function EndTagGt(s: seq<byte>): (r: Option<nat>)
    requires |s| >= 2
    ensures r.Some? ==> r.value < |s| && s[r.value] == GT
  {
    if |s| > 2 && IsLetter(s[2]) then TagGt(s, 2) else FirstGt(s, 2)
  }

  function FirstGt(s: seq<byte>, i: nat): (r: Option<nat>)
    requires i <= |s|
    ensures r.Some? ==> i <= r.value < |s| && s[r.value] == GT && forall k :: i <= k < r.value ==> s[k] != GT
    ensures r.None? ==> forall k :: i <= k < |s| ==> s[k] != GT
    decreases |s| - i
  {
    if i == |s| then None else if s[i] == GT then Some(i) else FirstGt(s, i + 1)
  }

  lemma {:induction false} DataEndsAtGt(s: seq<byte>, i: nat)
    requires i <= |s|
    ensures DataEnd(s, i, MaskGt, false) == match FirstGt(s, i) case Some(g) => g case None => |s|
    decreases |s| - i
  {
    if i < |s| {
      DataEndsAtGt(s, i + 1);
    }
  }

  /** Where the comment parser leaves the input: behind `<!-->`, `<!--->`, or what ends the data. */
  function CommentStop(s: seq<byte>): (n: nat)
    requires |s| >= 4
    ensures 4 <= n <= |s|
  {
    if |s| > 4 && s[4] == GT then 5
    else if |s| > 5 && s[4] == DASH && s[5] == GT then 6
    else DataEnd(s, 4, MaskDash, true)
  }

  // --- What they say ----------------------------------------------------------------------

  /** References in attribute values: the entity search has a mode of its own there. */
  function AttrMatcher(find: Matcher): Matcher {
    (s: seq<byte>, attr: bool) => find(s, true)
  }

  lemma AttrMatcherOk(find: Matcher)
    requires MatcherOk(find)
    ensures MatcherOk(AttrMatcher(find))
  {
    var m := AttrMatcher(find);
    forall s: seq<byte>, attr: bool
      ensures m(s, attr) == m(s[..NameBound(s)], attr)
    {
      assert find(s, true) == find(s[..NameBound(s)], true);
    }
  }

  /** The piece at the head of some data: references where they are allowed, and everything else as
      in plain text. */
  ghost function DataPiece(find: Matcher, s: seq<byte>, refs: bool): (p: Piece)
    requires MatcherOk(find) && s != []
    ensures p.Emit? && 0 < p.len <= |s|
  {
    AttrMatcherOk(find);
    Step(Context([], AttrMatcher(find)), if refs && s[0] == AMP then RcData else PlainText, s, false)
  }

  /** The text that htmlParseData returns. */
  ghost function DataText(find: Matcher, s: seq<byte>, i: nat, mask: Mask, comment: bool, refs: bool): (r: seq<byte>)
    requires MatcherOk(find) && i <= |s|
    decreases |s| - i
  {
    if i == |s| || TermSkip(s, i, mask, comment) >= 0 then []
    else
      var p := DataPiece(find, s[i..], refs);
      p.text + DataText(find, s, i + p.len, mask, comment, refs)
  }

  ghost function AttValueText(find: Matcher, s: seq<byte>, i: nat): (r: seq<byte>)
    requires MatcherOk(find) && i <= |s|
  {
    if i < |s| && s[i] == DQUOTE then DataText(find, s, i + 1, MaskDQ, false, true)
    else if i < |s| && s[i] == SQUOTE then DataText(find, s, i + 1, MaskSQ, false, true)
    else DataText(find, s, i, MaskWsGt, false, true)
  }

  const NAME_MAX: nat := 100

  function LowerCase(c: byte): byte { if 0x41 <= c <= 0x5A then c + 0x20 else c }

  /** A character of a name: letters are lowered, and what is no character is replaced. */
  function NamePiece(s: seq<byte>): (p: Piece)
    requires s != []
    ensures p.Emit? && 0 < p.len <= |s| && 0 < |p.text| <= 4
    ensures forall k :: 0 < k < p.len ==> IsCont(s[k])
  {
    if s[0] == NUL then Emit(1, REPLACEMENT, PlainText)
    else if s[0] < 0x80 then Emit(1, [LowerCase(s[0])], PlainText)
    else
      var n := ValidateUtf8(s, false);
      if n > 0 then Emit(n, s[..n], PlainText) else Emit(1, REPLACEMENT, PlainText)
  }

  /** The name from byte i on, behind what was kept so far: characters that do not fit are dropped. */
  function NameText(s: seq<byte>, i: nat, attr: bool, kept: seq<byte>): (r: seq<byte>)
    requires i <= |s| && |kept| <= NAME_MAX
    ensures |r| <= NAME_MAX
    decreases |s| - i
  {
    if i == |s| || (kept != [] && EndsName(s[i], attr)) then kept
    else
      var p := NamePiece(s[i..]);
      NameText(s, i + p.len, attr, if |kept| + |p.text| <= NAME_MAX then kept + p.text else kept)
  }

  /** An attribute; one without `=` has no value. */
  datatype Attribute = Attribute(name: seq<byte>, value: Option<seq<byte>>)

  ghost function AttributeAt(find: Matcher, s: seq<byte>, i: nat): (a: Attribute)
    requires MatcherOk(find) && i <= |s|
  {
    var b := BlanksEnd(s, NameEnd(s, i, true));
    Attribute(NameText(s, i, true, []),
              if b < |s| && s[b] == EQ then Some(AttValueText(find, s, BlanksEnd(s, b + 1))) else None)
  }

  /** The attributes of a tag, in order. */
  ghost function Attrs(find: Matcher, s: seq<byte>, i: nat): (r: seq<Attribute>)
    requires MatcherOk(find) && i <= |s|
    decreases |s| - i
  {
    if AttrsDone(s, i) then []
    else if s[i] == SLASH then Attrs(find, s, BlanksEnd(s, i + 1))
    else [AttributeAt(find, s, i)] + Attrs(find, s, BlanksEnd(s, AttributeEnd(s, i)))
  }

  /** The attributes of a tag whose name starts at byte i. */
  ghost function TagAttrs(find: Matcher, s: seq<byte>, i: nat): (r: seq<Attribute>)
    requires MatcherOk(find) && i <= |s|
  {
    Attrs(find, s, BlanksEnd(s, NameEnd(s, i, false)))
  }

  /** The name that an end tag closes: only tags that end and whose name begins with a letter have
      one. */
  function EndTagName(s: seq<byte>): (r: Option<seq<byte>>)
    requires |s| >= 2
  {
    if |s| > 2 && IsLetter(s[2]) && TagGt(s, 2).Some? then Some(NameText(s, 2, false, [])) else None
  }

  ghost function CommentText(find: Matcher, s: seq<byte>): (r: seq<byte>)
    requires MatcherOk(find) && |s| >= 4
  {
    if (|s| > 4 && s[4] == GT) || (|s| > 5 && s[4] == DASH && s[5] == GT) then []
    else DataText(find, s, 4, MaskDash, true, false)
  }

  // --- Pieces ------------------------------------------------------------------------------

  /** Bytes that a reference or a character can have behind its first one. */
  predicate Inner(c: byte) { IsCont(c) || IsAlnum(c) || c == HASH || c == SEMI }

  lemma InnerIsNoTerminator(mask: Mask, c: byte)
    requires Inner(c)
    ensures !Matches(mask, c) && !EndsName(c, true)
  {
  }

  lemma {:induction false} DigitsAreInner(s: seq<byte>, i: nat, base: nat, cp: nat)
    requires i <= |s|
    ensures forall k :: i <= k < Digits(s, i, base, cp).0 ==> IsDigitOf(s[k], base)
    decreases |s| - i
  {
    if i < |s| && IsDigitOf(s[i], base) {
      DigitsAreInner(s, i + 1, base, NextCodePoint(cp, base, s[i]));
    }
  }

  /** A piece holds no terminator behind its first byte. */
  lemma PieceIsInner(find: Matcher, s: seq<byte>, refs: bool, k: nat)
    requires MatcherOk(find) && s != [] && 0 < k < DataPiece(find, s, refs).len
    ensures Inner(s[k])
  {
    AttrMatcherOk(find);
    if refs && s[0] == AMP {
      var (base, j) := RefBase(s);
      if |s| >= 2 && s[1] == HASH {
        if base != 0 {
          DigitsAreInner(s, j, base, 0);
        }
      } else {
        assert find(s[1..], true).Entity? && s[k] == s[1..][k - 1];
      }
    }
  }

  /** The data behind a piece ends where the data does. */
  lemma PieceEnds(find: Matcher, s: seq<byte>, i: nat, mask: Mask, comment: bool, refs: bool)
    requires MatcherOk(find) && i < |s| && TermSkip(s, i, mask, comment) < 0
    ensures DataEnd(s, i, mask, comment) == DataEnd(s, i + DataPiece(find, s[i..], refs).len, mask, comment)
  {
    hide DataPiece, Matches;
    var n := DataPiece(find, s[i..], refs).len;
    forall k | i + 1 <= k < i + n
      ensures !Matches(mask, s[k])
    {
      PieceIsInner(find, s[i..], refs, k - i);
      InnerIsNoTerminator(mask, s[k]);
    }
    SkipPlain(s, i + 1, i + n, mask, comment);
  }

  // --- More input changes nothing that has ended -------------------------------------------

  /** A byte that ends every reference and character before it. */
  predicate Breaks(c: byte) { c < 0x80 && !Inner(c) }

  lemma TerminatorBreaks(mask: Mask, c: byte)
    requires Matches(mask, c)
    ensures Breaks(c)
  {
  }

  lemma Utf8Stays(s: seq<byte>, more: seq<byte>, e: nat)
    requires 0 < e < |s| && s[e] < 0x80
    ensures ValidateUtf8(s + more, false) == ValidateUtf8(s, false)
  {
    assert forall k :: 0 <= k < |s| ==> (s + more)[k] == s[k];
  }

  lemma {:induction false} DigitsBreak(s: seq<byte>, i: nat, base: nat, cp: nat, e: nat)
    requires i <= e < |s| && Breaks(s[e])
    ensures Digits(s, i, base, cp).0 <= e
    decreases e - i
  {
    if i < e && IsDigitOf(s[i], base) {
      DigitsBreak(s, i + 1, base, NextCodePoint(cp, base, s[i]), e);
    }
  }

  lemma {:induction false} NameRunBreaks(s: seq<byte>, i: nat, e: nat)
    requires i <= e < |s| && Breaks(s[e])
    ensures NameRun(s, i) <= e
    decreases e - i
  {
    if i < e && i < 31 && (IsLetter(s[i]) || (i >= 1 && IsDigit(s[i]))) {
      NameRunBreaks(s, i + 1, e);
    }
  }

  /** A reference that something breaks is decided. */
  lemma RefDecided(ctx: Context, s: seq<byte>, e: nat)
    requires MatcherOk(ctx.find) && 0 < e < |s| && s[0] == AMP && Breaks(s[e])
    ensures RefStep(ctx, RcData, s, true) != Wait
  {
    var (base, j) := RefBase(s);
    if s[1] == HASH {
      assert e >= 2;
      if base != 0 {
        assert j <= e;
        DigitsBreak(s, j, base, 0, e);
      }
    } else {
      assert s[1..][e - 1] == s[e];
      NameRunBreaks(s[1..], 0, e - 1);
    }
  }

  lemma PieceStays(find: Matcher, s: seq<byte>, more: seq<byte>, refs: bool, e: nat)
    requires MatcherOk(find) && 0 < e < |s| && Breaks(s[e])
    ensures DataPiece(find, s + more, refs) == DataPiece(find, s, refs)
    ensures DataPiece(find, s, refs).len <= e
  {
    AttrMatcherOk(find);
    var ctx := Context([], AttrMatcher(find));
    assert (s + more)[0] == s[0] && s + [] == s;
    if refs && s[0] == AMP {
      hide RefStep;
      RefDecided(ctx, s, e);
      RefExtends(ctx, RcData, s, more, false);
      RefExtends(ctx, RcData, s, [], false);
    } else if s[0] >= 0x80 {
      Utf8Stays(s, more, e);
      var n := ValidateUtf8(s, false);
      if n > 0 {
        assert (s + more)[..n] == s[..n];
      }
    }
    if e < DataPiece(find, s, refs).len {
      PieceIsInner(find, s, refs, e);
    }
  }

  lemma SkipStays(s: seq<byte>, more: seq<byte>, i: nat, mask: Mask, comment: bool)
    requires i < |s|
    ensures TermSkip(s, i, mask, comment) < 0 || !comment ==>
              TermSkip(s + more, i, mask, comment) == TermSkip(s, i, mask, comment)
  {
    assert forall k :: 0 <= k < |s| ==> (s + more)[k] == s[k];
  }

  /** Data that ends at byte e, with or without what follows. */
  ghost predicate EndsAt(s: seq<byte>, more: seq<byte>, i: nat, mask: Mask, comment: bool, e: nat) {
    && i <= e < |s| && TermSkip(s, e, mask, comment) >= 0 && TermSkip(s + more, e, mask, comment) >= 0
    && forall k :: i <= k < e ==> TermSkip(s, k, mask, comment) < 0
  }

  lemma {:induction false} DataStays(find: Matcher, s: seq<byte>, more: seq<byte>, i: nat, mask: Mask, comment: bool,
                                     refs: bool, e: nat)
    requires MatcherOk(find) && EndsAt(s, more, i, mask, comment, e)
    ensures DataText(find, s + more, i, mask, comment, refs) == DataText(find, s, i, mask, comment, refs)
    decreases e - i
  {
    hide DataPiece, TermSkip, Breaks;
    if i < e {
      SkipStays(s, more, i, mask, comment);
      EndMatches(s, e, mask, comment);
      TerminatorBreaks(mask, s[e]);
      assert (s + more)[i..] == s[i..] + more && s[i..][e - i] == s[e];
      PieceStays(find, s[i..], more, refs, e - i);
      DataStays(find, s, more, i + DataPiece(find, s[i..], refs).len, mask, comment, refs, e);
    }
  }

  lemma EndMatches(s: seq<byte>, e: nat, mask: Mask, comment: bool)
    requires e < |s| && TermSkip(s, e, mask, comment) >= 0
    ensures Matches(mask, s[e])
  {
  }

  /** Values: the terminator is where the data ends. */
  lemma {:induction false} ValueEnds(s: seq<byte>, more: seq<byte>, i: nat, mask: Mask)
    requires i <= |s| && DataEnd(s, i, mask, false) < |s|
    ensures EndsAt(s, more, i, mask, false, DataEnd(s, i, mask, false))
    ensures DataEnd(s + more, i, mask, false) == DataEnd(s, i, mask, false)
    decreases |s| - i
  {
    SkipStays(s, more, i, mask, false);
    if TermSkip(s, i, mask, false) < 0 {
      ValueEnds(s, more, i + 1, mask);
    }
  }

  lemma AttValueStays(find: Matcher, s: seq<byte>, more: seq<byte>, i: nat)
    requires MatcherOk(find) && i <= |s| && AttValueEnd(s, i) < |s|
    ensures AttValueEnd(s + more, i) == AttValueEnd(s, i)
    ensures AttValueText(find, s + more, i) == AttValueText(find, s, i)
  {
    hide DataEnd, DataText, EndsAt;
    assert i < |s| && (s + more)[i] == s[i];
    var quoted := s[i] == DQUOTE || s[i] == SQUOTE;
    var mask := if s[i] == DQUOTE then MaskDQ else if s[i] == SQUOTE then MaskSQ else MaskWsGt;
    var from := if quoted then i + 1 else i;
    var e := DataEnd(s, from, mask, false);
    assert e < |s| && (s + more)[e] == s[e];
    ValueEnds(s, more, from, mask);
    DataStays(find, s, more, from, mask, false, true, e);
  }

  lemma {:induction false} BlanksStay(s: seq<byte>, more: seq<byte>, i: nat)
    requires i <= |s| && BlanksEnd(s, i) < |s|
    ensures BlanksEnd(s + more, i) == BlanksEnd(s, i)
    decreases |s| - i
  {
    assert (s + more)[i] == s[i];
    if IsWs(s[i]) {
      BlanksStay(s, more, i + 1);
    }
  }

  lemma {:induction false} NameRestStays(s: seq<byte>, more: seq<byte>, i: nat, attr: bool)
    requires i <= |s| && NameRest(s, i, attr) < |s|
    ensures NameRest(s + more, i, attr) == NameRest(s, i, attr)
    decreases |s| - i
  {
    assert (s + more)[i] == s[i];
    if !EndsName(s[i], attr) {
      NameRestStays(s, more, i + 1, attr);
    }
  }

  lemma NamePieceStays(s: seq<byte>, more: seq<byte>, e: nat)
    requires 0 < e < |s| && s[e] < 0x80
    ensures NamePiece(s + more) == NamePiece(s) && NamePiece(s).len <= e
  {
    assert (s + more)[0] == s[0];
    if s[0] >= 0x80 {
      Utf8Stays(s, more, e);
      var n := ValidateUtf8(s, false);
      if n > 0 {
        assert (s + more)[..n] == s[..n];
      }
    }
  }

  lemma {:induction false} NameTextStays(s: seq<byte>, more: seq<byte>, i: nat, attr: bool, kept: seq<byte>, e: nat)
    requires i <= e < |s| && |kept| <= NAME_MAX && EndsName(s[e], attr) && (i == e ==> kept != [])
    ensures NameText(s + more, i, attr, kept) == NameText(s, i, attr, kept)
    decreases e - i
  {
    hide NamePiece, EndsName;
    assert (s + more)[i] == s[i];
    if !(kept != [] && EndsName(s[i], attr)) {
      var p := NamePiece(s[i..]);
      assert (s + more)[i..] == s[i..] + more && s[i..][e - i] == s[e];
      EndIsAscii(s[e], attr);
      NamePieceStays(s[i..], more, e - i);
      NameTextStays(s, more, i + p.len, attr, if |kept| + |p.text| <= NAME_MAX then kept + p.text else kept, e);
    }
  }

  lemma EndIsAscii(c: byte, attr: bool)
    requires EndsName(c, attr)
    ensures c < 0x80
  {
  }

  lemma NameStays(s: seq<byte>, more: seq<byte>, i: nat, attr: bool)
    requires i <= |s| && NameEnd(s, i, attr) < |s|
    ensures NameEnd(s + more, i, attr) == NameEnd(s, i, attr)
    ensures NameText(s + more, i, attr, []) == NameText(s, i, attr, [])
  {
    NameRestStays(s, more, i + 1, attr);
    NameTextStays(s, more, i, attr, [], NameEnd(s, i, attr));
  }

  lemma AttributeStays(find: Matcher, s: seq<byte>, more: seq<byte>, i: nat)
    requires MatcherOk(find) && i <= |s| && AttributeEnd(s, i) < |s|
    ensures AttributeEnd(s + more, i) == AttributeEnd(s, i)
    ensures AttributeAt(find, s + more, i) == AttributeAt(find, s, i)
  {
    hide NameEnd, BlanksEnd, AttValueEnd, AttValueText, NameText;
    var n := NameEnd(s, i, true);
    var b := BlanksEnd(s, n);
    NameStays(s, more, i, true);
    BlanksStay(s, more, n);
    assert (s + more)[b] == s[b];
    if s[b] == EQ {
      BlanksStay(s, more, b + 1);
      AttValueStays(find, s, more, BlanksEnd(s, b + 1));
    }
  }

  lemma DoneStays(s: seq<byte>, more: seq<byte>, i: nat)
    requires i < |s|
    ensures AttrsDone(s, i) ==> AttrsDone(s + more, i)
    ensures AttrsDone(s + more, i) && !AttrsDone(s, i) ==> s[i] == SLASH && i + 1 == |s|
  {
  }

  lemma {:induction false} AttrsStay(find: Matcher, s: seq<byte>, more: seq<byte>, i: nat)
    requires MatcherOk(find) && i <= |s| && AttrsEnd(s, i) < |s|
    ensures AttrsEnd(s + more, i) == AttrsEnd(s, i)
    ensures Attrs(find, s + more, i) == Attrs(find, s, i)
    decreases |s| - i
  {
    hide BlanksEnd, AttributeEnd, AttributeAt, AttrsDone;
    DoneStays(s, more, i);
    assert (s + more)[i] == s[i];
    if !AttrsDone(s, i) {
      if s[i] == SLASH {
        BlanksStay(s, more, i + 1);
        AttrsStay(find, s, more, BlanksEnd(s, i + 1));
      } else {
        var e := AttributeEnd(s, i);
        AttributeStays(find, s, more, i);
        BlanksStay(s, more, e);
        AttrsStay(find, s, more, BlanksEnd(s, e));
      }
    }
  }

  /** A tag that has ended: more input changes neither its end nor its name nor its attributes. */
  lemma TagStays(find: Matcher, s: seq<byte>, more: seq<byte>, i: nat)
    requires MatcherOk(find) && i <= |s| && TagGt(s, i).Some?
    ensures TagGt(s + more, i) == TagGt(s, i)
    ensures NameText(s + more, i, false, []) == NameText(s, i, false, [])
    ensures TagAttrs(find, s + more, i) == TagAttrs(find, s, i)
  {
    hide AttrsEnd, BlanksEnd, NameEnd, NameText, Attrs;
    var n := NameEnd(s, i, false);
    var b := BlanksEnd(s, n);
    var e := AttrsEnd(s, b);
    NameStays(s, more, i, false);
    BlanksStay(s, more, n);
    AttrsStay(find, s, more, b);
    assert (s + more)[e] == s[e];
  }

  /** Without upper-case letters. */
  ghost predicate IsLower(r: seq<byte>) { forall k :: 0 <= k < |r| ==> !(0x41 <= r[k] <= 0x5A) }

  lemma PieceIsLower(s: seq<byte>)
    requires s != []
    ensures IsLower(NamePiece(s).text)
  {
  }

  lemma {:induction false} NameIsLower(s: seq<byte>, i: nat, attr: bool, kept: seq<byte>)
    requires i <= |s| && |kept| <= NAME_MAX && IsLower(kept)
    ensures IsLower(NameText(s, i, attr, kept))
    decreases |s| - i
  {
    hide NamePiece, LowerCase;
    if !(i == |s| || (kept != [] && EndsName(s[i], attr))) {
      var p := NamePiece(s[i..]);
      PieceIsLower(s[i..]);
      NameIsLower(s, i + p.len, attr, if |kept| + |p.text| <= NAME_MAX then kept + p.text else kept);
    }
  }

  /** These bytes with the letters A to Z replaced by a to z. */
  ghost predicate Lowered(r: seq<byte>, s: seq<byte>, from: nat, to: nat)
    requires from <= to <= |s|
  {
    && |r| == to - from
    && forall k :: 0 <= k < |r| ==> r[k] == if 0x41 <= s[from + k] <= 0x5A then s[from + k] + 0x20 else s[from + k]
  }

  ghost predicate PlainAscii(s: seq<byte>, from: nat, to: nat)
    requires from <= to <= |s|
  {
    forall k :: from <= k < to ==> 0 < s[k] < 0x80
  }

  lemma LowerCaseIs(c: byte)
    ensures LowerCase(c) == if 0x41 <= c <= 0x5A then c + 0x20 else c
  {
  }

  /** A name in ASCII of at most 100 bytes is kept whole, in lower case. */
  lemma AsciiName(s: seq<byte>, i: nat, attr: bool)
    requires i <= |s| && PlainAscii(s, i, NameEnd(s, i, attr)) && NameEnd(s, i, attr) - i <= 100
    ensures Lowered(NameText(s, i, attr, []), s, i, NameEnd(s, i, attr))
  {
    if i < |s| {
      var kept := [LowerCase(s[i])];
      LowerCaseIs(s[i]);
      AsciiPiece(s, i);
      assert [] + kept == kept && NameText(s, i, attr, []) == NameText(s, i + 1, attr, kept);
      AsciiNameRest(s, i, i + 1, attr, kept);
    }
  }

  lemma {:induction false} AsciiNameRest(s: seq<byte>, i: nat, j: nat, attr: bool, kept: seq<byte>)
    requires i < j <= |s| && PlainAscii(s, i, NameRest(s, j, attr)) && NameRest(s, j, attr) - i <= 100
    requires Lowered(kept, s, i, j)
    ensures Lowered(NameText(s, j, attr, kept), s, i, NameRest(s, j, attr))
    decreases |s| - j
  {
    hide EndsName;
    if j < |s| && !EndsName(s[j], attr) {
      LowerCaseIs(s[j]);
      AsciiPiece(s, j);
      hide NamePiece, LowerCase;
      AsciiNameRest(s, i, j + 1, attr, kept + [LowerCase(s[j])]);
    }
  }

  lemma AsciiPiece(s: seq<byte>, i: nat)
    requires i < |s| && 0 < s[i] < 0x80
    ensures NamePiece(s[i..]) == Emit(1, [LowerCase(s[i])], PlainText)
  {
  }

  /** Data without references, carriage returns and bytes beyond ASCII stands for itself. */
  predicate Verbatim(c: byte) { 0 < c < 0x80 && c != CR && c != AMP }

  lemma VerbatimPiece(find: Matcher, s: seq<byte>, refs: bool)
    requires MatcherOk(find) && s != [] && Verbatim(s[0])
    ensures DataPiece(find, s, refs) == Emit(1, [s[0]], PlainText)
  {
    AttrMatcherOk(find);
  }

  lemma {:induction false} PlainDataIsItself(find: Matcher, s: seq<byte>, i: nat, mask: Mask, refs: bool)
    requires MatcherOk(find) && i <= |s| && forall k :: i <= k < |s| ==> Verbatim(s[k])
    ensures DataText(find, s, i, mask, false, refs) == s[i..DataEnd(s, i, mask, false)]
    decreases |s| - i
  {
    hide DataPiece, TermSkip, Verbatim;
    OneByte(s, i, mask, false);
    if i < |s| && TermSkip(s, i, mask, false) < 0 {
      VerbatimPiece(find, s[i..], refs);
      PlainDataIsItself(find, s, i + 1, mask, refs);
    } else if i < |s| {
      NoSkip(s, i, mask);
    }
  }

  lemma NoSkip(s: seq<byte>, i: nat, mask: Mask)
    requires i < |s|
    ensures TermSkip(s, i, mask, false) <= 0
  {
  }

  lemma OneByte(s: seq<byte>, pos: nat, mask: Mask, comment: bool)
    requires pos <= |s|
    ensures pos == |s| ==> DataEnd(s, pos, mask, comment) == pos
    ensures pos < |s| ==>
              var skip := TermSkip(s, pos, mask, comment);
              DataEnd(s, pos, mask, comment) == if skip >= 0 then pos + skip else DataEnd(s, pos + 1, mask, comment)
  {
  }
}
