/** Where the parts of a tag end, said of the bytes alone: blanks, names, values, and which end tags
    are comments. */
module TagBytes {
  import opened Bytes
  import opened HtmlBytes
  import opened HtmlText
  import opened TagGrammar

  /** Tab, line feed, form feed, carriage return and space. */
  ghost predicate BlankByte(c: byte) { c in {0x09, 0x0A, 0x0C, 0x0D, 0x20} }

  /** No byte up to e has the property, and byte e has it if there is one. */
  ghost predicate FirstBy(s: seq<byte>, i: nat, e: nat, stops: byte -> bool) {
    && i <= e <= |s| && (forall k :: i <= k < e ==> !stops(s[k])) && (e < |s| ==> stops(s[e]))
  }

  lemma {:induction false} BlanksByBytes(s: seq<byte>, i: nat)
    requires i <= |s|
    ensures FirstBy(s, i, BlanksEnd(s, i), (c: byte) => !BlankByte(c))
    decreases |s| - i
  {
    if i < |s| && IsWs(s[i]) {
      BlanksByBytes(s, i + 1);
    }
  }

  ghost predicate EndsNameByte(c: byte, attr: bool) {
    BlankByte(c) || c == 0x2F || c == 0x3E || (attr && c == 0x3D)
  }

  /** A name holds anything behind its first byte but blanks, `/`, `>` and, for attributes, `=`. */
  lemma NameByBytes(s: seq<byte>, i: nat, attr: bool)
    requires i < |s|
    ensures i + 1 <= NameEnd(s, i, attr)
    ensures FirstBy(s, i + 1, NameEnd(s, i, attr), (c: byte) => EndsNameByte(c, attr))
  {
    NameRestByBytes(s, i + 1, attr);
  }

  lemma {:induction false} NameRestByBytes(s: seq<byte>, i: nat, attr: bool)
    requires i <= |s|
    ensures FirstBy(s, i, NameRest(s, i, attr), (c: byte) => EndsNameByte(c, attr))
    decreases |s| - i
  {
    if i < |s| && !EndsName(s[i], attr) {
      NameRestByBytes(s, i + 1, attr);
    }
  }

  /** What ends a value or a bogus comment. */
  ghost predicate Ends(mask: Mask, c: byte) {
    match mask
    case MaskDQ => c == 0x22
    case MaskSQ => c == 0x27
    case MaskGt => c == 0x3E
    case MaskDash => c == 0x2D
    case MaskWsGt => BlankByte(c) || c == 0x3E
  }

  lemma {:induction false} DataByBytes(s: seq<byte>, i: nat, mask: Mask)
    requires i <= |s|
    ensures FirstBy(s, i, DataEnd(s, i, mask, false), (c: byte) => Ends(mask, c))
    decreases |s| - i
  {
    if i < |s| && TermSkip(s, i, mask, false) < 0 {
      DataByBytes(s, i + 1, mask);
    }
  }

  /** A value is quoted with either quote, or ends at a blank or `>`. */
  lemma ValueByBytes(s: seq<byte>, i: nat)
    requires i < |s|
    ensures s[i] == 0x22 ==>
              var e := DataEnd(s, i + 1, MaskDQ, false); AttValueEnd(s, i) == if e < |s| then e + 1 else e
    ensures s[i] == 0x27 ==>
              var e := DataEnd(s, i + 1, MaskSQ, false); AttValueEnd(s, i) == if e < |s| then e + 1 else e
    ensures s[i] != 0x22 && s[i] != 0x27 ==> AttValueEnd(s, i) == DataEnd(s, i, MaskWsGt, false)
  {
    DataByBytes(s, i + 1, MaskDQ);
    DataByBytes(s, i + 1, MaskSQ);
  }

  /** An end tag has a name if a letter follows; otherwise it ends at the first `>`. */
  lemma EndTagByBytes(s: seq<byte>)
    requires |s| > 2
    ensures 0x41 <= s[2] <= 0x5A || 0x61 <= s[2] <= 0x7A ==> EndTagGt(s) == TagGt(s, 2)
    ensures !(0x41 <= s[2] <= 0x5A || 0x61 <= s[2] <= 0x7A) ==>
              && EndTagName(s) == None
              && match EndTagGt(s)
                 case Some(g) => 2 <= g < |s| && s[g] == 0x3E && forall k :: 2 <= k < g ==> s[k] != 0x3E
                 case None => forall k :: 2 <= k < |s| ==> s[k] != 0x3E
  {
  }

  /** An attribute list ends at `>` or `/>`. */
  lemma {:induction false} AttrsByBytes(s: seq<byte>, i: nat)
    requires i <= |s|
    ensures var e := AttrsEnd(s, i); e == |s| || s[e] == 0x3E || (e + 1 < |s| && s[e] == 0x2F && s[e + 1] == 0x3E)
  {
  }

  // --- Text -------------------------------------------------------------------------------------------

  /** One piece of the text of a value or comment: zero bytes and what is no UTF-8 are replaced, line
      ends become line feeds, and everything else but references stands for itself. */
  lemma PieceByBytes(find: Matcher, s: seq<byte>, refs: bool)
    requires MatcherOk(find) && s != [] && !(s[0] == 0x26 && refs)
    ensures var c, p := s[0], DataPiece(find, s, refs);
            && (c == 0x00 ==> p.len == 1 && p.text == [0xEF, 0xBF, 0xBD])
            && (c == 0x0D ==> p.len == 1 && p.text == if |s| > 1 && s[1] == 0x0A then [] else [0x0A])
            && (0 < c < 0x80 && c != 0x0D ==> p.len == 1 && p.text == [c])
            && (c >= 0x80 && ValidateUtf8(s, false) > 0 ==> p.text == s[..p.len])
            && (c >= 0x80 && ValidateUtf8(s, false) <= 0 ==> p.len == 1 && p.text == [0xEF, 0xBF, 0xBD])
  {
    AttrMatcherOk(find);
  }

  /** The text of a comment in plain ASCII is the bytes between its delimiters. */
  lemma {:induction false} PlainComment(find: Matcher, s: seq<byte>, more: seq<byte>, i: nat, e: nat)
    requires MatcherOk(find) && EndsAt(s, more, i, MaskDash, true, e)
    requires forall k :: i <= k < e ==> 0 < s[k] < 0x80 && s[k] != 0x0D
    ensures DataText(find, s, i, MaskDash, true, false) == s[i..e]
    decreases e - i
  {
    hide DataPiece, TermSkip;
    if i < e {
      PieceByBytes(find, s[i..], false);
      PlainComment(find, s, more, i + 1, e);
    }
  }
}
