/** The tag, attribute and data parsers of HTMLparser.c. Each method works on `cur` like the original
    and is proved against functions that say where it ends and what it returns. */
module TagParser {
  import opened Bytes
  import opened HtmlBytes
  import opened HtmlText
  import opened TagGrammar

  // --- The parsers ------------------------------------------------------------------------

  class TagInput {
    const buf: seq<byte>
    const find: Matcher
    var cur: nat

    ghost predicate Valid()
      reads this
    {
      cur <= |buf| && MatcherOk(find)
    }

    constructor (buf: seq<byte>, find: Matcher)
      requires MatcherOk(find)
      ensures Valid() && cur == 0 && this.buf == buf && this.find == find
    {
      this.buf, this.find, cur := buf, find, 0;
    }

    /** The byte at the input position; the buffer is zero-terminated. */
    function Cur(): byte
      reads this
    {
      if cur < |buf| then buf[cur] else NUL
    }

    function Nxt(k: nat): byte
      reads this
    {
      if cur + k < |buf| then buf[cur + k] else NUL
    }

    /** htmlSkipBlankChars */
    method SkipBlanks()
      requires Valid()
      modifies this`cur
      ensures Valid() && cur == BlanksEnd(buf, old(cur))
    {
      while cur < |buf| && IsWs(buf[cur])
        invariant Valid() && BlanksEnd(buf, old(cur)) == BlanksEnd(buf, cur)
      {
        cur := cur + 1;
      }
    }

    /** htmlParseHTMLName: the name in lower case, kept up to 100 bytes. */
    method ParseHTMLName(attr: bool) returns (name: seq<byte>)
      requires Valid()
      modifies this`cur
      ensures Valid() && cur == NameEnd(buf, old(cur), attr) && name == NameText(buf, old(cur), attr, [])
      ensures forall k :: 0 <= k < |name| ==> !(0x41 <= name[k] <= 0x5A)
      ensures PlainAscii(buf, old(cur), cur) && cur - old(cur) <= 100 ==> Lowered(name, buf, old(cur), cur)
    {
      hide NamePiece, NameText, NameRest, MatcherOk, IsLower, EndsName;
      WholeNameIsLower(buf, cur, attr);
      if PlainAscii(buf, cur, NameEnd(buf, cur, attr)) && NameEnd(buf, cur, attr) - cur <= 100 {
        AsciiName(buf, cur, attr);
      }
      ghost var start, all := cur, NameText(buf, cur, attr, []);
      name := [];
      while cur < |buf|
        invariant Valid() && |name| <= NAME_MAX && all == NameText(buf, cur, attr, name)
        invariant if name == [] then cur == start
                  else start < cur && NameRest(buf, start + 1, attr) == NameRest(buf, cur, attr)
      {
        NameStep(buf, cur, attr, name);
        if name != [] && EndsName(buf[cur], attr) {
          break;
        }
        var size, text := NameChar();
        RestStep(buf, start, cur, attr);
        if |name| + |text| <= NAME_MAX {
          name := name + text;
        }
        cur := cur + size;
      }
      NameAtEnd(buf, cur, attr, name);
    }

    method NameChar() returns (size: nat, text: seq<byte>)
      requires Valid() && cur < |buf|
      ensures NamePiece(buf[cur..]) == Emit(size, text, PlainText)
    {
      var c := buf[cur];
      size := 1;
      if c == NUL {
        text := REPLACEMENT;
      } else if c < 0x80 {
        text := [LowerCase(c)];
      } else {
        var n := ValidateUtf8(buf[cur..], false);
        if n > 0 {
          size, text := n, buf[cur..cur + n];
          assert buf[cur..][..n] == text;
        } else {
          text := REPLACEMENT;
        }
      }
    }

    /** htmlParseData */
    method ParseData(mask: Mask, comment: bool, refs: bool) returns (value: seq<byte>)
      requires Valid()
      modifies this`cur
      ensures Valid() && cur == DataEnd(buf, old(cur), mask, comment)
      ensures value == DataText(find, buf, old(cur), mask, comment, refs)
    {
      hide DataEnd, DataText;
      ghost var start := cur;
      ghost var end, all := DataEnd(buf, start, mask, comment), DataText(find, buf, start, mask, comment, refs);
      var termSkip, text := -1, [];
      value := [];
      while termSkip < 0
        invariant Valid()
        invariant termSkip < 0 ==>
                    end == DataEnd(buf, cur, mask, comment) &&
                    all == value + DataText(find, buf, cur, mask, comment, refs)
        invariant termSkip >= 0 ==> end == cur + termSkip <= |buf| && all == value
        decreases |buf| - cur, termSkip < 0
      {
        termSkip, text := ParseChunk(mask, comment, refs);
        value := value + text;
      }
      cur := cur + termSkip;
    }

    /** One round of htmlParseData's outer loop: bytes up to a terminator, a reference, or a
        byte that is replaced. */
    method ParseChunk(mask: Mask, comment: bool, refs: bool) returns (termSkip: int, text: seq<byte>)
      requires Valid()
      modifies this`cur
      ensures Valid() && old(cur) <= cur
      ensures termSkip < 0 ==>
                old(cur) < cur && DataEnd(buf, old(cur), mask, comment) == DataEnd(buf, cur, mask, comment) &&
                DataText(find, buf, old(cur), mask, comment, refs) ==
                text + DataText(find, buf, cur, mask, comment, refs)
      ensures termSkip >= 0 ==>
                DataEnd(buf, old(cur), mask, comment) == cur + termSkip <= |buf| &&
                DataText(find, buf, old(cur), mask, comment, refs) == text
    {
      hide DataEnd, DataText, TermSkip, Copied, Stands, MatcherOk;
      var pos, skip, repl;
      termSkip, pos, skip, repl := ScanChunk(mask, comment, refs);
      ChunkDone(find, buf, cur, pos, skip, repl, mask, comment, refs);
      text := buf[cur..pos] + repl;
      cur := pos + skip;
    }

    /** The inner loop: the bytes up to `pos` are copied, `skip` bytes there are replaced, and behind
        them is a terminator unless `termSkip` is negative. */
    method ScanChunk(mask: Mask, comment: bool, refs: bool)
      returns (termSkip: int, pos: nat, skip: nat, repl: seq<byte>)
      requires Valid()
      ensures Copied(find, buf, cur, pos, mask, comment, refs) && cur <= pos && pos + skip <= |buf|
      ensures skip == 0 ==> repl == [] && termSkip >= 0
      ensures skip > 0 ==> TermSkip(buf, pos, mask, comment) < 0 && Stands(find, buf, pos, refs, skip, repl)
      ensures termSkip >= 0 ==> termSkip == SkipAt(buf, pos + skip, mask, comment)
    {
      hide TermSkip, Copied, InRef, Stands, MatcherOk, IsDigitOf, NextCodePoint, CodePointToUtf8, Valid;
      ValidHere();
      termSkip, pos, skip, repl := -1, cur, 0, [];
      var ncr, ncrSize, cp := 0, 0, 0;
      NothingCopied(find, buf, cur, mask, comment, refs);
      while true
        invariant termSkip == -1 && skip == 0 && repl == []
        invariant 0 <= ncrSize <= pos - cur && pos <= |buf| && (ncr == 0 <==> ncrSize == 0)
        invariant Copied(find, buf, cur, pos - ncrSize, mask, comment, refs)
        invariant if ncr == 0 then cp == 0 else refs && InRef(buf, pos - ncrSize, pos, ncr, cp)
        invariant ncr != 0 ==> TermSkip(buf, pos - ncrSize, mask, comment) < 0
        decreases |buf| - pos
      {
        if pos == |buf| {
          termSkip := 0;
          break;
        }
        termSkip := TermSkip(buf, pos, mask, comment);
        if termSkip >= 0 {
          break;
        }
        var size := 1;
        if ncr != 0 {
          if !IsDigitOf(buf[pos], ncr) {
            break;
          }
          RefDigit(buf, pos - ncrSize, pos, ncr, cp);
          cp := NextCodePoint(cp, ncr, buf[pos]);
          ncrSize := ncrSize + 1;
        } else {
          size, ncr, skip, repl := Examine(pos, refs);
          if skip > 0 {
            break;
          }
          if ncr != 0 {
            ncrSize := size;
          } else {
            CopiedOn(find, buf, cur, pos, size, mask, comment, refs);
          }
        }
        pos := pos + size;
      }
      if ncrSize > 0 {
        RefEnds(find, buf, pos - ncrSize, pos, ncr, cp, mask, comment, termSkip);
        if termSkip < 0 && buf[pos] == SEMI {
          pos := pos + 1;
          ncrSize := ncrSize + 1;
        }
        skip := ncrSize;
        pos := pos - ncrSize;
        repl := CodePointToUtf8(cp);
      }
    }

    lemma ValidHere()
      requires Valid()
      ensures cur <= |buf| && MatcherOk(find)
    {
    }

    /** The switch over the byte at `pos`: `size` bytes are copied, unless a numeric reference with
        base `ncr` starts there or `skip` bytes are replaced. */
    method Examine(pos: nat, refs: bool) returns (size: nat, ncr: nat, skip: nat, repl: seq<byte>)
      requires Valid() && pos < |buf|
      ensures skip > 0 ==> ncr == 0 && Stands(find, buf, pos, refs, skip, repl) && pos + skip <= |buf|
      ensures skip == 0 ==> repl == [] && size > 0 && pos + size <= |buf|
      ensures ncr != 0 ==> refs && InRef(buf, pos, pos + size, ncr, 0)
      ensures skip == 0 && ncr == 0 ==> Stands(find, buf, pos, refs, size, buf[pos..pos + size])
    {
      hide InRef, MatcherOk, DataPiece;
      size, ncr := 1, 0;
      if buf[pos] == AMP && refs {
        ncr, skip, repl := StartRef(pos);
        if ncr != 0 {
          size := if ncr == 16 then 3 else 2;
        }
        assert buf[pos..pos + 1] == [AMP];
      } else {
        size, skip, repl := ByteAt(pos, refs);
      }
    }

    /** The byte or character at `pos`: how long it is if it is copied, or what replaces it. */
    method ByteAt(pos: nat, refs: bool) returns (size: nat, skip: nat, repl: seq<byte>)
      requires Valid() && pos < |buf| && !(buf[pos] == AMP && refs)
      ensures skip > 0 ==> Stands(find, buf, pos, refs, skip, repl)
      ensures skip == 0 ==> repl == [] && size > 0 && pos + size <= |buf|
      ensures skip == 0 ==> Stands(find, buf, pos, refs, size, buf[pos..pos + size])
    {
      hide ValidateUtf8;
      var c := buf[pos];
      size, skip, repl := 1, 0, [];
      PlainPiece(find, buf[pos..], refs);
      if c == NUL {
        skip, repl := 1, REPLACEMENT;
      } else if c == CR {
        skip := 1;
        if !(pos + 1 < |buf| && buf[pos + 1] == LF) {
          repl := [LF];
        }
      } else if c >= 0x80 {
        var n := ValidateUtf8(buf[pos..], false);
        if n <= 0 {
          skip, repl := 1, REPLACEMENT;
        } else {
          size := n;
          assert buf[pos..][..n] == buf[pos..pos + n];
        }
      }
    }

    /** The start of a reference: a numeric one, whose base is returned, or a named one, whose
        length and text are returned. */
    method StartRef(pos: nat) returns (ncr: nat, skip: nat, repl: seq<byte>)
      requires Valid() && pos < |buf| && buf[pos] == AMP
      ensures ncr == 0 || ncr == 10 || ncr == 16
      ensures ncr != 0 ==> skip == 0 && repl == [] && pos + (if ncr == 16 then 3 else 2) < |buf|
      ensures ncr != 0 ==> InRef(buf, pos, pos + (if ncr == 16 then 3 else 2), ncr, 0)
      ensures skip > 0 ==> Stands(find, buf, pos, true, skip, repl)
      ensures ncr == 0 && skip == 0 ==> repl == [] && Stands(find, buf, pos, true, 1, [AMP])
    {
      ncr, skip, repl := 0, 0, [];
      var j := pos + 1;
      if j < |buf| && buf[j] == HASH {
        j := j + 1;
        if j < |buf| {
          if Lower(buf[j]) == 0x78 {
            j := j + 1;
            if j < |buf| && IsHexDigit(buf[j]) {
              ncr := 16;
            }
          } else if IsDigit(buf[j]) {
            ncr := 10;
          }
        }
      } else {
        var e := find(buf[j..], true);
        if e.Entity? {
          skip, repl := e.len + 1, e.text;
        }
        assert buf[pos..][1..] == buf[j..];
      }
      AttrMatcherOk(find);
    }

    /** htmlParseAttValue */
    method ParseAttValue() returns (value: seq<byte>)
      requires Valid()
      modifies this`cur
      ensures Valid() && cur == AttValueEnd(buf, old(cur)) && value == AttValueText(find, buf, old(cur))
    {
      hide DataEnd, DataText, MatcherOk;
      if Cur() == DQUOTE {
        cur := cur + 1;
        value := ParseData(MaskDQ, false, true);
        if Cur() == DQUOTE {
          cur := cur + 1;
        }
      } else if Cur() == SQUOTE {
        cur := cur + 1;
        value := ParseData(MaskSQ, false, true);
        if Cur() == SQUOTE {
          cur := cur + 1;
        }
      } else {
        value := ParseData(MaskWsGt, false, true);
      }
    }

    /** htmlParseAttribute */
    method ParseAttribute() returns (a: Attribute)
      requires Valid()
      modifies this`cur
      ensures Valid() && cur == AttributeEnd(buf, old(cur)) && a == AttributeAt(find, buf, old(cur))
    {
      hide NameEnd, NameText, BlanksEnd, AttValueEnd, AttValueText, MatcherOk;
      var name := ParseHTMLName(true);
      a := Attribute(name, None);
      SkipBlanks();
      if Cur() == EQ {
        cur := cur + 1;
        SkipBlanks();
        var value := ParseAttValue();
        a := Attribute(name, Some(value));
      }
    }

    /** The attribute loop of htmlParseStartTag and htmlParseEndTag. */
    method ParseAttributes() returns (atts: seq<Attribute>)
      requires Valid()
      modifies this`cur
      ensures Valid() && cur == AttrsEnd(buf, old(cur)) && atts == Attrs(find, buf, old(cur))
    {
      hide BlanksEnd, AttributeEnd, AttributeAt, MatcherOk;
      atts := [];
      while cur < |buf| && Cur() != GT && (Cur() != SLASH || Nxt(1) != GT)
        invariant Valid() && AttrsEnd(buf, old(cur)) == AttrsEnd(buf, cur)
        invariant Attrs(find, buf, old(cur)) == atts + Attrs(find, buf, cur)
        decreases |buf| - cur
      {
        if Cur() == SLASH {
          cur := cur + 1;
          SkipBlanks();
          continue;
        }
        var a := ParseAttribute();
        atts := atts + [a];
        SkipBlanks();
      }
    }

    /** htmlParseStartTag up to the end of its attributes, and the SKIP of its caller. */
    method ParseStartTag() returns (gt: Option<nat>, name: seq<byte>, atts: seq<Attribute>)
      requires Valid() && cur == 0 && |buf| >= 1
      modifies this`cur
      ensures Valid() && gt == TagGt(buf, 1)
      ensures name == NameText(buf, 1, false, []) && atts == TagAttrs(find, buf, 1)
      ensures cur == match gt case Some(g) => g + 1 case None => |buf|
    {
      hide NameEnd, NameText, BlanksEnd, AttrsEnd, Attrs, MatcherOk;
      cur := cur + 1;
      name := ParseHTMLName(false);
      SkipBlanks();
      atts := ParseAttributes();
      gt := SkipGt();
    }

    /** htmlParseEndTag up to the name that it closes, if it has one; its attributes are ignored. */
    method ParseEndTag() returns (gt: Option<nat>, name: Option<seq<byte>>)
      requires Valid() && cur == 0 && |buf| >= 2
      modifies this`cur
      ensures Valid() && gt == EndTagGt(buf) && name == EndTagName(buf)
      ensures cur == match gt case Some(g) => g + 1 case None => |buf|
    {
      hide NameEnd, NameText, BlanksEnd, AttrsEnd, Attrs, MatcherOk;
      cur := cur + 2;
      name := None;
      if cur >= |buf| {
        return None, None;
      }
      if Cur() == GT {
        cur := cur + 1;
        return Some(cur - 1), None;
      }
      if !IsLetter(Cur()) {
        var comment;
        gt, comment := ParseBogusComment();
        return;
      }
      var closed := ParseHTMLName(false);
      SkipBlanks();
      var ignored := ParseAttributes();
      gt := SkipGt();
      name := if gt.Some? then Some(closed) else None;
    }

    /** htmlParseComment for a bogus comment. */
    method ParseBogusComment() returns (gt: Option<nat>, comment: seq<byte>)
      requires Valid()
      modifies this`cur
      ensures Valid() && gt == FirstGt(buf, old(cur))
      ensures comment == DataText(find, buf, old(cur), MaskGt, false, false)
      ensures cur == match gt case Some(g) => g + 1 case None => |buf|
    {
      hide DataText, MatcherOk;
      DataEndsAtGt(buf, cur);
      comment := ParseData(MaskGt, false, false);
      gt := None;
      if Cur() == GT {
        cur := cur + 1;
        gt := Some(cur - 1);
      }
    }

    /** htmlParseComment for a real comment, behind `<!--`. */
    method ParseComment() returns (comment: seq<byte>)
      requires Valid() && cur == 4
      modifies this`cur
      ensures Valid() && cur == CommentStop(buf) && comment == CommentText(find, buf)
    {
      hide DataText, MatcherOk;
      comment := [];
      if Cur() == GT {
        cur := cur + 1;
      } else if Cur() == DASH && Nxt(1) == GT {
        cur := cur + 2;
      } else {
        comment := ParseData(MaskDash, true, false);
      }
    }

    method SkipGt() returns (gt: Option<nat>)
      requires Valid() && AttrsDone(buf, cur)
      modifies this`cur
      ensures Valid()
      ensures gt == if old(cur) == |buf| then None else if buf[old(cur)] == GT then Some(old(cur))
              else Some(old(cur) + 1)
      ensures cur == match gt case Some(g) => g + 1 case None => |buf|
    {
      if Cur() == SLASH && Nxt(1) == GT {
        cur := cur + 2;
        gt := Some(cur - 1);
      } else if Cur() == GT {
        cur := cur + 1;
        gt := Some(cur - 1);
      } else {
        gt := None;
      }
    }
  }

  // --- Chunks of data -----------------------------------------------------------------------

  /** The bytes from `cur` to `pos` stand for themselves. */
  ghost predicate Copied(find: Matcher, s: seq<byte>, cur: nat, pos: nat, mask: Mask, comment: bool, refs: bool)
    requires MatcherOk(find)
  {
    && cur <= pos <= |s| && DataEnd(s, cur, mask, comment) == DataEnd(s, pos, mask, comment)
    && DataText(find, s, cur, mask, comment, refs) == s[cur..pos] + DataText(find, s, pos, mask, comment, refs)
  }

  /** The piece at `pos` has this length and text. */
  ghost predicate Stands(find: Matcher, s: seq<byte>, pos: nat, refs: bool, n: nat, text: seq<byte>)
    requires MatcherOk(find) && pos < |s|
  {
    var p := DataPiece(find, s[pos..], refs);
    p.len == n && p.text == text
  }

  function SkipAt(s: seq<byte>, i: nat, mask: Mask, comment: bool): int
    requires i <= |s|
  {
    if i == |s| then 0 else TermSkip(s, i, mask, comment)
  }

  lemma NothingCopied(find: Matcher, s: seq<byte>, cur: nat, mask: Mask, comment: bool, refs: bool)
    requires MatcherOk(find) && cur <= |s|
    ensures Copied(find, s, cur, cur, mask, comment, refs)
  {
  }

  lemma PieceTaken(find: Matcher, s: seq<byte>, cur: nat, pos: nat, n: nat, text: seq<byte>, mask: Mask, comment: bool,
                   refs: bool)
    requires MatcherOk(find) && Copied(find, s, cur, pos, mask, comment, refs)
    requires pos < |s| && TermSkip(s, pos, mask, comment) < 0 && Stands(find, s, pos, refs, n, text)
    ensures 0 < n <= |s| - pos && DataEnd(s, cur, mask, comment) == DataEnd(s, pos + n, mask, comment)
    ensures DataText(find, s, cur, mask, comment, refs) ==
            s[cur..pos] + text + DataText(find, s, pos + n, mask, comment, refs)
  {
    hide DataPiece, TermSkip, DataEnd;
    PieceEnds(find, s, pos, mask, comment, refs);
  }

  lemma CopiedOn(find: Matcher, s: seq<byte>, cur: nat, pos: nat, n: nat, mask: Mask, comment: bool, refs: bool)
    requires MatcherOk(find) && Copied(find, s, cur, pos, mask, comment, refs)
    requires pos < |s| && TermSkip(s, pos, mask, comment) < 0 && pos + n <= |s|
    requires Stands(find, s, pos, refs, n, s[pos..pos + n])
    ensures Copied(find, s, cur, pos + n, mask, comment, refs)
  {
    hide DataText, DataEnd, TermSkip, Stands;
    PieceTaken(find, s, cur, pos, n, s[pos..pos + n], mask, comment, refs);
    assert s[cur..pos] + s[pos..pos + n] == s[cur..pos + n];
  }

  /** The end of a chunk: in front of a terminator, or behind a piece that is replaced. */
  lemma ChunkDone(find: Matcher, s: seq<byte>, cur: nat, pos: nat, skip: nat, repl: seq<byte>, mask: Mask,
                  comment: bool, refs: bool)
    requires MatcherOk(find) && Copied(find, s, cur, pos, mask, comment, refs)
    requires skip == 0 ==> repl == []
    requires skip > 0 ==> pos < |s| && TermSkip(s, pos, mask, comment) < 0 && Stands(find, s, pos, refs, skip, repl)
    ensures pos + skip <= |s| && DataEnd(s, cur, mask, comment) == DataEnd(s, pos + skip, mask, comment)
    ensures DataText(find, s, cur, mask, comment, refs) ==
            s[cur..pos] + repl + DataText(find, s, pos + skip, mask, comment, refs)
    ensures pos + skip == |s| || TermSkip(s, pos + skip, mask, comment) >= 0 ==>
              && DataText(find, s, pos + skip, mask, comment, refs) == []
              && DataEnd(s, cur, mask, comment) ==
                 pos + skip + if pos + skip == |s| then 0 else TermSkip(s, pos + skip, mask, comment)
  {
    hide TermSkip, Stands;
    if skip > 0 {
      PieceTaken(find, s, cur, pos, skip, repl, mask, comment, refs);
    } else {
      assert s[cur..pos] + repl == s[cur..pos];
    }
  }

  /** Bytes that are no reference. */
  lemma PlainPiece(find: Matcher, s: seq<byte>, refs: bool)
    requires MatcherOk(find) && s != [] && !(s[0] == AMP && refs)
    ensures var c, n := s[0], ValidateUtf8(s, false);
            DataPiece(find, s, refs) ==
            if c == NUL then Emit(1, REPLACEMENT, PlainText)
            else if c == CR then Emit(1, if |s| > 1 && s[1] == LF then [] else [LF], PlainText)
            else if c < 0x80 then Emit(1, [c], PlainText)
            else if n > 0 then Emit(n, s[..n], PlainText) else Emit(1, REPLACEMENT, PlainText)
  {
    AttrMatcherOk(find);
  }

  // --- Numeric references -------------------------------------------------------------------

  /** The digits up to `pos` of a numeric reference make `cp`. */
  ghost predicate InRef(s: seq<byte>, start: nat, pos: nat, ncr: nat, cp: nat) {
    && start < pos <= |s| && s[start] == AMP
    && var (base, j) := RefBase(s[start..]);
       base == ncr && ncr != 0 && Digits(s[start..], j, ncr, 0) == Digits(s[start..], pos - start, ncr, cp)
  }

  lemma RefDigit(s: seq<byte>, start: nat, pos: nat, ncr: nat, cp: nat)
    requires InRef(s, start, pos, ncr, cp) && pos < |s| && IsDigitOf(s[pos], ncr)
    ensures InRef(s, start, pos + 1, ncr, NextCodePoint(cp, ncr, s[pos]))
  {
    hide RefBase, NextCodePoint, IsDigitOf;
    assert s[start..][pos - start] == s[pos];
  }

  lemma EndOfDigits(s: seq<byte>, pos: nat, ncr: nat, mask: Mask, comment: bool, termSkip: int)
    requires pos <= |s| && (pos < |s| ==> termSkip == TermSkip(s, pos, mask, comment))
    requires termSkip >= 0 || (pos < |s| && !IsDigitOf(s[pos], ncr))
    ensures pos < |s| ==> !IsDigitOf(s[pos], ncr) && (termSkip >= 0 ==> s[pos] != SEMI)
  {
  }

  lemma RefDone(find: Matcher, s: seq<byte>, start: nat, pos: nat, ncr: nat, cp: nat)
    requires MatcherOk(find) && InRef(s, start, pos, ncr, cp) && (pos < |s| ==> !IsDigitOf(s[pos], ncr))
    ensures Stands(find, s, start, true, (if pos < |s| && s[pos] == SEMI then pos + 1 else pos) - start,
                   CodePointToUtf8(cp))
  {
    hide CodePointToUtf8, IsDigitOf;
    AttrMatcherOk(find);
    assert pos < |s| ==> s[start..][pos - start] == s[pos];
  }

  lemma RefEnds(find: Matcher, s: seq<byte>, start: nat, pos: nat, ncr: nat, cp: nat, mask: Mask, comment: bool,
                termSkip: int)
    requires MatcherOk(find) && InRef(s, start, pos, ncr, cp)
    requires pos < |s| ==> termSkip == TermSkip(s, pos, mask, comment)
    requires termSkip >= 0 || (pos < |s| && !IsDigitOf(s[pos], ncr))
    ensures start < pos <= |s|
    ensures Stands(find, s, start, true, (if termSkip < 0 && s[pos] == SEMI then pos + 1 else pos) - start,
                   CodePointToUtf8(cp))
  {
    hide IsDigitOf, CodePointToUtf8, Stands, MatcherOk, TermSkip, Digits, RefBase;
    EndOfDigits(s, pos, ncr, mask, comment, termSkip);
    RefDone(find, s, start, pos, ncr, cp);
  }

  // --- Names --------------------------------------------------------------------------------

  lemma NameStep(s: seq<byte>, i: nat, attr: bool, kept: seq<byte>)
    requires i < |s| && |kept| <= NAME_MAX
    ensures var p := NamePiece(s[i..]);
            NameText(s, i, attr, kept) ==
            if kept != [] && EndsName(s[i], attr) then kept
            else NameText(s, i + p.len, attr, if |kept| + |p.text| <= NAME_MAX then kept + p.text else kept)
    ensures kept != [] && EndsName(s[i], attr) ==> NameRest(s, i, attr) == i
  {
  }

  lemma WholeNameIsLower(s: seq<byte>, i: nat, attr: bool)
    requires i <= |s|
    ensures var r := NameText(s, i, attr, []); forall k :: 0 <= k < |r| ==> !(0x41 <= r[k] <= 0x5A)
  {
    NameIsLower(s, i, attr, []);
  }

  lemma NameAtEnd(s: seq<byte>, i: nat, attr: bool, kept: seq<byte>)
    requires i <= |s| && |kept| <= NAME_MAX && (i == |s| || (kept != [] && EndsName(s[i], attr)))
    ensures NameText(s, i, attr, kept) == kept && NameRest(s, i, attr) == i
  {
  }

  /** A character of a name does not end it, unless it comes first. */
  lemma RestStep(s: seq<byte>, start: nat, i: nat, attr: bool)
    requires start <= i < |s| && (start < i ==> !EndsName(s[i], attr))
    requires start < i ==> NameRest(s, start + 1, attr) == NameRest(s, i, attr)
    ensures NameRest(s, start + 1, attr) == NameRest(s, i + NamePiece(s[i..]).len, attr)
  {
    hide NamePiece, EndsName;
    var n := NamePiece(s[i..]).len;
    forall k | i < k < i + n
      ensures !EndsName(s[k], attr)
    {
      assert s[k] == s[i..][k - i];
      EndIsNoCont(s[k], attr);
    }
    NameSkips(s, if start < i then i else i + 1, i + n, attr);
  }

  lemma EndIsNoCont(c: byte, attr: bool)
    requires IsCont(c)
    ensures !EndsName(c, attr)
  {
  }

  lemma {:induction false} NameSkips(s: seq<byte>, i: nat, j: nat, attr: bool)
    requires i <= j <= |s| && forall k :: i <= k < j ==> !EndsName(s[k], attr)
    ensures NameRest(s, i, attr) == NameRest(s, j, attr)
    decreases j - i
  {
    if i < j {
      NameSkips(s, i + 1, j, attr);
    }
  }
}
