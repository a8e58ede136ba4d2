/** Where the character data of HTML ends, said of the bytes alone: at the first `<` in ordinary
    text, and at the first matching end tag in the text of elements like title, style and script. */
module HtmlTextEnds {
  import opened Bytes
  import opened HtmlBytes
  import opened HtmlText

  /** `</`, the name in either case, and a byte that ends a tag name. */
  ghost predicate EndTagAt(name: seq<byte>, s: seq<byte>, j: nat) {
    && j + 2 + |name| < |s| && s[j] == 0x3C && s[j + 1] == 0x2F
    && (forall k :: 0 <= k < |name| ==> name[k] == Folded(s[j + 2 + k]))
    && s[j + 2 + |name|] in {0x09, 0x0A, 0x0C, 0x0D, 0x20, 0x2F, 0x3E}
  }

  /** The byte with bit 5 set. */
  ghost function Folded(c: byte): byte { if (c / 32) % 2 == 0 then c + 32 else c }

  /** `<!--` */
  ghost predicate CommentAt(s: seq<byte>, j: nat) {
    j + 4 <= |s| && s[j] == 0x3C && s[j + 1] == 0x21 && s[j + 2] == 0x2D && s[j + 3] == 0x2D
  }

  lemma {:induction false} NameMatches(name: seq<byte>, s: seq<byte>, i: nat, from: nat)
    requires i <= |name| && from + i <= |s|
    ensures NameMatch(name, s, i, from + i) == |name| <==>
            from + |name| <= |s| && forall k :: i <= k < |name| ==> name[k] == Folded(s[from + k])
    decreases |name| - i
  {
    if from + i < |s| && i < |name| && name[i] == Lower(s[from + i]) {
      NameMatches(name, s, i + 1, from);
    }
  }

  lemma EndsTagNameIs(c: byte)
    ensures EndsTagName(c) <==> c in {0x09, 0x0A, 0x0C, 0x0D, 0x20, 0x2F, 0x3E}
  {
  }

  /** The modes whose text ends at an end tag. */
  predicate TagEnded(mode: Mode) { mode == RcData || mode == RawText || mode == Script }

  lemma AtLt(ctx: Context, mode: Mode, s: seq<byte>)
    requires MatcherOk(ctx.find) && TagEnded(mode) && s != [] && s[0] == 0x3C
    requires mode == Script ==> !CommentAt(s, 0)
    ensures Step(ctx, mode, s, false) == if EndTagAt(ctx.name, s, 0) then Stop else Emit(1, [0x3C], mode)
  {
    if |s| >= 2 && s[1] == SLASH {
      NameMatches(ctx.name, s, 0, 2);
      if 2 + |ctx.name| < |s| {
        EndsTagNameIs(s[2 + |ctx.name|]);
      }
    }
  }

  /** The rest of a piece that is not `<` holds none. */
  lemma NoLtInside(ctx: Context, mode: Mode, s: seq<byte>)
    requires MatcherOk(ctx.find) && (TagEnded(mode) || mode == Data) && s != [] && s[0] != 0x3C
    ensures var p := Step(ctx, mode, s, false);
            p.Emit? && p.mode == mode && forall k :: 0 <= k < p.len ==> s[k] != 0x3C
  {
    if s[0] == AMP && (mode == Data || mode == RcData) {
      NoLtInRef(ctx, mode, s);
    }
  }

  lemma NoLtInRef(ctx: Context, mode: Mode, s: seq<byte>)
    requires MatcherOk(ctx.find) && (mode == Data || mode == RcData) && s != [] && s[0] == AMP
    ensures var p := RefStep(ctx, mode, s, false);
            p.Emit? && p.mode == mode && 0 < p.len <= |s| && forall k :: 0 <= k < p.len ==> s[k] != 0x3C
  {
    hide CodePointToUtf8;
    if |s| >= 2 && s[1] == HASH {
      var (base, j) := RefBase(s);
      LtIsNoHex(s, j);
      hide Digits, RefBase, IsDigitOf, Lower;
      if base != 0 {
        NoLtInDigits(s, j, base, 0);
      }
    } else if ctx.find(s[1..], false).Entity? {
      var n := ctx.find(s[1..], false).len;
      assert forall k :: 0 < k < n + 1 ==> s[k] == s[1..][k - 1];
    }
  }

  lemma LtIsNoHex(s: seq<byte>, j: nat)
    requires s != [] && s[0] == AMP && j == RefBase(s).1
    ensures RefBase(s).0 != 0 ==> forall k :: 0 <= k < j ==> s[k] != 0x3C
  {
  }

  lemma {:induction false} NoLtInDigits(s: seq<byte>, i: nat, base: nat, cp: nat)
    requires i <= |s|
    ensures forall k :: i <= k < Digits(s, i, base, cp).0 ==> s[k] != 0x3C
    decreases |s| - i
  {
    if i < |s| && IsDigitOf(s[i], base) {
      NoLtInDigits(s, i + 1, base, NextCodePoint(cp, base, s[i]));
    }
  }

  /** The text has ended at the first end tag of that name, or there is none. */
  ghost predicate EndsAtTag(r: TextResult, name: seq<byte>, s: seq<byte>) {
    && (r.complete ==> EndTagAt(name, s, r.used))
    && (!r.complete ==> r.used == |s|)
    && forall k :: 0 <= k < r.used ==> !EndTagAt(name, s, k)
  }

  /** The text has ended at the first `<`, or there is none. */
  ghost predicate EndsAtLt(r: TextResult, s: seq<byte>) {
    && (if r.complete then r.used < |s| && s[r.used] == 0x3C else r.used == |s|)
    && forall k :: 0 <= k < r.used ==> s[k] != 0x3C
  }

  /** In title, textarea, style and the like, and in scripts without `<!--`: at the first end tag of the
      element, and at no other byte. */
  lemma {:induction false} TagEndsText(ctx: Context, mode: Mode, s: seq<byte>)
    requires MatcherOk(ctx.find) && TagEnded(mode)
    requires mode == Script ==> forall j :: 0 <= j < |s| ==> !CommentAt(s, j)
    ensures EndsAtTag(Text(ctx, mode, s, false), ctx.name, s)
    decreases |s|
  {
    hide Step, EndTagAt, CommentAt;
    if s != [] {
      var p := Step(ctx, mode, s, false);
      if s[0] == 0x3C {
        AtLt(ctx, mode, s);
      } else {
        NoLtInside(ctx, mode, s);
        NotAt(ctx.name, s, p.len);
      }
      if p.Emit? {
        var t := s[p.len..];
        CommentsShift(s, p.len);
        TagEndsText(ctx, mode, t);
        TagsShift(ctx.name, s, p.len);
      }
    }
  }

  lemma NotAt(name: seq<byte>, s: seq<byte>, n: nat)
    requires n <= |s| && forall k :: 0 <= k < n ==> s[k] != 0x3C
    ensures forall k :: 0 <= k < n ==> !EndTagAt(name, s, k)
  {
  }

  lemma TagsShift(name: seq<byte>, s: seq<byte>, n: nat)
    requires n <= |s|
    ensures forall k :: 0 <= k <= |s| - n ==> (EndTagAt(name, s[n..], k) <==> EndTagAt(name, s, n + k))
    ensures forall k :: n <= k <= |s| ==> (EndTagAt(name, s[n..], k - n) <==> EndTagAt(name, s, k))
  {
    forall k | 0 <= k <= |s| - n
      ensures EndTagAt(name, s[n..], k) <==> EndTagAt(name, s, n + k)
    {
      assert forall i :: 0 <= i < |s| - n ==> s[n..][i] == s[n + i];
      if EndTagAt(name, s, n + k) {
        assert forall i :: 0 <= i < |name| ==> name[i] == Folded(s[n + k + 2 + i]) == Folded(s[n..][k + 2 + i]);
      }
    }
  }

  lemma CommentsShift(s: seq<byte>, n: nat)
    requires n <= |s|
    ensures (forall j :: 0 <= j < |s| ==> !CommentAt(s, j)) ==> forall j :: 0 <= j < |s[n..]| ==> !CommentAt(s[n..], j)
  {
    forall j | 0 <= j < |s[n..]| && CommentAt(s[n..], j)
      ensures CommentAt(s, n + j)
    {
    }
  }

  /** In ordinary text: at the first `<`. */
  lemma {:induction false} LtEndsText(ctx: Context, s: seq<byte>)
    requires MatcherOk(ctx.find)
    ensures EndsAtLt(Text(ctx, Data, s, false), s)
    decreases |s|
  {
    hide Step;
    if s != [] {
      if s[0] == 0x3C {
        StopsAtLt(ctx, s);
      } else {
        NoLtInside(ctx, Data, s);
        var n := Step(ctx, Data, s, false).len;
        LtEndsText(ctx, s[n..]);
        assert forall k :: n <= k < |s| ==> s[k] == s[n..][k - n];
      }
    }
  }

  lemma StopsAtLt(ctx: Context, s: seq<byte>)
    requires MatcherOk(ctx.find) && s != [] && s[0] == 0x3C
    ensures Step(ctx, Data, s, false) == Stop
  {
  }

  /** Bytes that stand for themselves wherever they are no markup. */
  predicate Ordinary(c: byte) { 0 < c < 0x80 && c != 0x0D && c != 0x26 }

  lemma OrdinaryPiece(ctx: Context, mode: Mode, s: seq<byte>)
    requires MatcherOk(ctx.find) && s != [] && Ordinary(s[0])
    requires mode == Data || mode == RcData || mode == RawText || mode == PlainText
    ensures var p := Step(ctx, mode, s, false); p == Stop || p == Emit(1, [s[0]], mode)
  {
  }

  /** Text without references, carriage returns, zero bytes and bytes beyond ASCII is delivered as it
      is, up to where it ends. */
  lemma {:induction false} OrdinaryText(ctx: Context, mode: Mode, s: seq<byte>)
    requires MatcherOk(ctx.find) && forall k :: 0 <= k < |s| ==> Ordinary(s[k])
    requires mode == Data || mode == RcData || mode == RawText || mode == PlainText
    ensures var r := Text(ctx, mode, s, false); r.text == s[..r.used]
    decreases |s|
  {
    hide Step, Ordinary;
    if s != [] {
      OrdinaryPiece(ctx, mode, s);
      if Step(ctx, mode, s, false).Emit? {
        OrdinaryText(ctx, mode, s[1..]);
      }
    }
  }

  /** The text of plaintext never ends. */
  lemma {:induction false} PlainTextNeverEnds(ctx: Context, s: seq<byte>)
    requires MatcherOk(ctx.find)
    ensures var r := Text(ctx, PlainText, s, false); !r.complete && r.used == |s|
    decreases |s|
  {
    hide Step;
    if s != [] {
      PlainTextGoesOn(ctx, s);
      PlainTextNeverEnds(ctx, s[Step(ctx, PlainText, s, false).len..]);
    }
  }

  lemma PlainTextGoesOn(ctx: Context, s: seq<byte>)
    requires MatcherOk(ctx.find) && s != []
    ensures var p := Step(ctx, PlainText, s, false); p.Emit? && p.mode == PlainText
  {
  }
}
