/** htmlParseCharData itself: the loop over chunks of verbatim text, the accelerator, and the
    lookahead at `<`, `-` and `&`, proved to compute the function HtmlText.Text. */
module HtmlCharData {
  import opened Bytes
  import opened HtmlBytes
  import opened HtmlText

  /** The bytes at which the accelerator loop stops. */
  predicate Special(c: byte) {
    c == NUL || c == LF || c == CR || c == AMP || c == DASH || c == LT || c >= 0x80
  }

  class TextInput {
    const ctx: Context
    const buf: seq<byte>
    var cur: nat
    var endCheckState: Mode
    var out: seq<byte>

    constructor (ctx: Context, buf: seq<byte>, mode: Mode)
      ensures this.ctx == ctx && this.buf == buf && cur == 0 && endCheckState == mode && out == []
    {
      this.ctx, this.buf, cur, endCheckState, out := ctx, buf, 0, mode, [];
    }

    /** The lookahead at a `<` (HTMLparser.c:3083-3146). */
    method CheckLt(pos: nat, mode: Mode, partial: bool) returns (p: Piece)
      requires pos < |buf| && buf[pos] == LT
      ensures p == LtStep(ctx.name, mode, buf[pos..], partial)
    {
      if mode == Data {
        return Stop;
      }
      if mode == PlainText {
        return Emit(1, [LT], mode);
      }
      var in_, avail, mode' := buf[pos..], |buf| - pos, mode;
      var j := 1;
      if j < avail {
        if mode == Script && in_[j] == BANG {
          j := j + 1;
          if j < avail && in_[j] == DASH {
            j := j + 1;
            if j < avail && in_[j] == DASH {
              mode' := ScriptEsc1;
            }
          }
        } else {
          var i, solidus := 0, false;
          if in_[j] == SLASH {
            j := j + 1;
            solidus := true;
          }
          if solidus || mode == ScriptEsc1 {
            i, j := MatchName(in_, j);
            if i == |ctx.name| && j < avail {
              if EndsTagName(in_[j]) {
                if mode == ScriptEsc1 && !solidus {
                  mode' := ScriptEsc2;
                } else if mode == ScriptEsc2 {
                  mode' := ScriptEsc1;
                } else {
                  return Stop;
                }
              }
            }
          }
        }
      }
      if partial && j >= avail {
        return Wait;
      }
      p := Emit(1, [LT], mode');
    }

    method MatchName(in_: seq<byte>, from: nat) returns (i: nat, j: nat)
      requires from <= |in_|
      ensures i == NameMatch(ctx.name, in_, 0, from) && j == from + i
    {
      i, j := 0, from;
      while j < |in_| && i < |ctx.name| && ctx.name[i] == Lower(in_[j])
        invariant i <= |ctx.name| && j == from + i <= |in_|
        invariant NameMatch(ctx.name, in_, 0, from) == NameMatch(ctx.name, in_, i, j)
      {
        i, j := i + 1, j + 1;
      }
    }

    /** The lookahead at a `-` (HTMLparser.c:3148-3167). */
    method CheckDash(pos: nat, mode: Mode, partial: bool) returns (p: Piece)
      requires pos < |buf| && buf[pos] == DASH
      ensures p == DashStep(mode, buf[pos..], partial)
    {
      if mode != ScriptEsc1 && mode != ScriptEsc2 {
        return Emit(1, [DASH], mode);
      }
      var in_, avail, mode' := buf[pos..], |buf| - pos, mode;
      var j := 1;
      if j < avail && in_[j] == DASH {
        j := j + 1;
        if j < avail && in_[j] == GT {
          mode' := Script;
        }
      }
      if partial && j >= avail {
        return Wait;
      }
      p := Emit(1, [DASH], mode');
    }

    /** References (HTMLparser.c:3057-3079 and 3169-3236). */
    method CheckRef(pos: nat, mode: Mode, partial: bool) returns (p: Piece)
      requires MatcherOk(ctx.find) && pos < |buf| && buf[pos] == AMP
      ensures p == RefStep(ctx, mode, buf[pos..], partial)
    {
      if mode != Data && mode != RcData {
        return Emit(1, [AMP], mode);
      }
      var in_, avail := buf[pos..], |buf| - pos;
      var j, ncr := 1, 0;
      if j < avail && in_[j] == HASH {
        j := j + 1;
        if j < avail {
          if Lower(in_[j]) == 0x78 {
            j := j + 1;
            if j < avail && IsHexDigit(in_[j]) {
              ncr := 16;
            }
          } else if IsDigit(in_[j]) {
            ncr := 10;
          }
        }
        if ncr != 0 {
          p := NumericRef(in_, j, ncr, mode, partial);
          return;
        }
      } else {
        if partial {
          var terminated := NameEnds(in_[1..]);
          if !terminated {
            return Wait;
          }
        }
        var e := ctx.find(in_[1..], false);
        if e.Entity? {
          return Emit(e.len + 1, e.text, mode);
        }
      }
      if partial && j >= avail {
        return Wait;
      }
      p := Emit(1, [AMP], mode);
    }

    /** The digits of a numeric reference, and a semicolon; at the end of partial data the whole
        reference is left for the next call. */
    method NumericRef(in_: seq<byte>, first: nat, ncr: nat, mode: Mode, partial: bool) returns (p: Piece)
      requires first < |in_| && (ncr == 10 || ncr == 16)
      ensures var (e, cp) := Digits(in_, first, ncr, 0);
              p == if e == |in_| && partial then Wait
                   else Emit(if e < |in_| && in_[e] == SEMI then e + 1 else e, CodePointToUtf8(cp), mode)
    {
      var ncrSize, cp := first, 0;
      while ncrSize < |in_| && IsDigitOf(in_[ncrSize], ncr)
        invariant first <= ncrSize <= |in_| && Digits(in_, first, ncr, 0) == Digits(in_, ncrSize, ncr, cp)
      {
        cp := NextCodePoint(cp, ncr, in_[ncrSize]);
        ncrSize := ncrSize + 1;
      }
      if ncrSize == |in_| && partial {
        return Wait;
      }
      if ncrSize < |in_| && in_[ncrSize] == SEMI {
        ncrSize := ncrSize + 1;
      }
      p := Emit(ncrSize, CodePointToUtf8(cp), mode);
    }

    /** The test whether a name is known to have ended (HTMLparser.c:3196-3209). */
    method NameEnds(s: seq<byte>) returns (terminated: bool)
      ensures terminated <==> NameRun(s, 0) < |s|
    {
      var i := 1;
      terminated := false;
      while i < |s| + 1
        invariant 1 <= i <= |s| + 1 && !terminated && NameRun(s, 0) == NameRun(s, i - 1)
      {
        if i >= 32 || (!IsLetter(s[i - 1]) && (i < 2 || !IsDigit(s[i - 1]))) {
          return true;
        }
        i := i + 1;
      }
    }

    /** One round of the inner loop: bytes copied verbatim from `cur` to `pos`, and the piece
        found there, if any. */
    method ScanChunk(partial: bool, mode0: Mode) returns (mode: Mode, pos: nat, p: Option<Piece>)
      requires MatcherOk(ctx.find) && cur <= |buf|
      ensures cur <= pos <= |buf| && (p.None? <==> pos == |buf|)
      ensures Text(ctx, mode0, buf[cur..], partial) ==
              HtmlText.After(buf[cur..pos], pos - cur, Text(ctx, mode, buf[pos..], partial))
      ensures p.Some? ==> p.value == Step(ctx, mode, buf[pos..], partial)
    {
      hide Text, Step, HtmlText.After;
      pos, mode := cur, mode0;
      Verbatim0(ctx, buf, cur, mode, partial);
      while true
        invariant cur <= pos <= |buf|
        invariant Text(ctx, mode0, buf[cur..], partial) ==
                  HtmlText.After(buf[cur..pos], pos - cur, Text(ctx, mode, buf[pos..], partial))
        decreases |buf| - pos
      {
        pos := Accelerate(pos, mode, mode0, partial);
        if pos == |buf| {
          return mode, pos, None;
        }
        var piece := Examine(pos, mode, partial);
        if piece.Emit? && piece.text == buf[pos..pos + piece.len] {
          Verbatim(ctx, buf, cur, pos, mode0, mode, piece, partial);
          mode := piece.mode;
          pos := pos + piece.len;
        } else {
          return mode, pos, Some(piece);
        }
      }
    }

    /** The accelerator: ordinary bytes stand for themselves. */
    method Accelerate(from: nat, mode: Mode, ghost mode0: Mode, ghost partial: bool) returns (pos: nat)
      requires MatcherOk(ctx.find) && cur <= from <= |buf|
      requires Text(ctx, mode0, buf[cur..], partial) ==
               HtmlText.After(buf[cur..from], from - cur, Text(ctx, mode, buf[from..], partial))
      ensures from <= pos <= |buf|
      ensures Text(ctx, mode0, buf[cur..], partial) ==
              HtmlText.After(buf[cur..pos], pos - cur, Text(ctx, mode, buf[pos..], partial))
    {
      hide Text, HtmlText.After;
      pos := from;
      while pos < |buf| && !Special(buf[pos])
        invariant from <= pos <= |buf|
        invariant Text(ctx, mode0, buf[cur..], partial) ==
                  HtmlText.After(buf[cur..pos], pos - cur, Text(ctx, mode, buf[pos..], partial))
      {
        assert Step(ctx, mode, buf[pos..], partial) == Emit(1, [buf[pos]], mode);
        Verbatim(ctx, buf, cur, pos, mode0, mode, Emit(1, [buf[pos]], mode), partial);
        pos := pos + 1;
      }
    }

    /** The switch over the current byte. */
    method Examine(pos: nat, mode: Mode, partial: bool) returns (p: Piece)
      requires MatcherOk(ctx.find) && pos < |buf|
      ensures p == Step(ctx, mode, buf[pos..], partial)
    {
      var c := buf[pos];
      if c == LT {
        p := CheckLt(pos, mode, partial);
      } else if c == DASH {
        p := CheckDash(pos, mode, partial);
      } else if c == AMP {
        p := CheckRef(pos, mode, partial);
      } else if c == NUL {
        p := Emit(1, if mode == Data then [] else REPLACEMENT, mode);
      } else if c == CR {
        if partial && |buf| - pos < 2 {
          return Wait;
        }
        p := Emit(1, if pos + 1 < |buf| && buf[pos + 1] == LF then [] else [LF], mode);
      } else if c < 0x80 {
        p := Emit(1, [c], mode);
      } else {
        var size := ValidateUtf8(buf[pos..], partial);
        if partial && size == 0 {
          return Wait;
        }
        p := if size <= 0 then Emit(1, REPLACEMENT, mode) else Emit(size, buf[pos..][..size], mode);
      }
    }

    /** htmlParseCharData: the text, the position, the data mode and the result of the call are
        those of the function Text on the bytes at hand. */
    method ParseCharData(partial: bool) returns (complete: bool)
      requires MatcherOk(ctx.find) && cur <= |buf|
      modifies this
      ensures var r := Text(ctx, old(endCheckState), buf[old(cur)..], partial);
              && cur == old(cur) + r.used && out == old(out) + r.text
              && complete == r.complete && endCheckState == r.mode
    {
      hide Text, Step, HtmlText.After;
      var mode, done := endCheckState, false;
      complete := false;
      ghost var all := Text(ctx, mode, buf[cur..], partial);
      ghost var text := [];
      AfterNothing(all);
      while !done
        invariant cur <= |buf| && old(cur) <= cur && out == old(out) + text
        invariant !done ==>
                    !complete && all == HtmlText.After(text, cur - old(cur), Text(ctx, mode, buf[cur..], partial))
        invariant done ==> all == TextResult(text, cur - old(cur), if complete then Data else mode, complete)
        decreases |buf| - cur, !done
      {
        var mode', pos, p := ScanChunk(partial, mode);
        Copied(ctx, buf, all, text, old(cur), cur, mode, pos, mode', partial);
        out := out + buf[cur..pos];
        text := text + buf[cur..pos];
        cur, mode := pos, mode';
        Taken(ctx, buf, all, text, old(cur), pos, mode, p, partial);
        match p {
          case None =>
            done := true;
          case Some(Stop) =>
            done, complete := true, true;
          case Some(Wait) =>
            done := true;
          case Some(Emit(skip, repl, m)) =>
            cur := cur + skip;
            out := out + repl;
            text := text + repl;
            mode := m;
        }
      }
      endCheckState := if complete then Data else mode;
    }
  }

  /** The push parser on character data: partial calls on all chunks but the last, until one
      reports the end. However the input is cut, the text, the final mode and the stop position
      are those of one call on all of it. */
  method PushCharData(ctx: Context, mode: Mode, chunks: seq<seq<byte>>) returns (r: TextResult)
    requires MatcherOk(ctx.find) && chunks != []
    ensures r == Text(ctx, mode, Flatten(chunks), false)
  {
    hide Text, Push, HtmlText.After;
    var pending: seq<byte>, k, m := [], 0, mode;
    var text: seq<byte>, used: nat, complete := [], 0, false;
    assert [] + Flatten(chunks) == Flatten(chunks) && chunks[0..] == chunks;
    ChunksDoNotMatter(ctx, mode, [], chunks);
    AfterNothing(Push(ctx, mode, [], chunks));
    while k < |chunks| && !complete
      invariant k <= |chunks|
      invariant k < |chunks| && !complete ==>
                  Push(ctx, mode, [], chunks) == HtmlText.After(text, used, Push(ctx, m, pending, chunks[k..]))
      invariant k == |chunks| || complete ==> Push(ctx, mode, [], chunks) == TextResult(text, used, m, complete)
    {
      var input := new TextInput(ctx, pending + chunks[k], m);
      assert input.buf[0..] == pending + chunks[k];
      complete := input.ParseCharData(k + 1 < |chunks|);
      Pushed(ctx, m, pending, chunks[k..], text, used);
      ghost var q := Text(ctx, m, pending + chunks[k], k + 1 < |chunks|);
      assert chunks[k..][0] == chunks[k] && chunks[k..][1..] == chunks[k + 1..];
      assert input.out == q.text && input.cur == q.used && input.endCheckState == q.mode;
      pending := input.buf[input.cur..];
      text, used, m := text + input.out, used + input.cur, input.endCheckState;
      k := k + 1;
    }
    r := TextResult(text, used, m, complete);
  }

  /** One call of the push parser behind what was already handed out. */
  lemma Pushed(ctx: Context, mode: Mode, pending: seq<byte>, chunks: seq<seq<byte>>, text: seq<byte>, used: nat)
    requires MatcherOk(ctx.find) && chunks != []
    ensures var q := Text(ctx, mode, pending + chunks[0], |chunks| > 1);
            HtmlText.After(text, used, Push(ctx, mode, pending, chunks)) ==
            if |chunks| == 1 || q.complete then TextResult(text + q.text, used + q.used, q.mode, q.complete)
            else HtmlText.After(text + q.text, used + q.used,
                                Push(ctx, q.mode, (pending + chunks[0])[q.used..], chunks[1..]))
  {
    hide Text;
    var q := Text(ctx, mode, pending + chunks[0], |chunks| > 1);
    if |chunks| > 1 && !q.complete {
      AfterAfter(text, used, q.text, q.used, Push(ctx, q.mode, (pending + chunks[0])[q.used..], chunks[1..]));
    }
  }

  /** Verbatim text behind what was already handed out. */
  lemma Copied(ctx: Context, buf: seq<byte>, all: TextResult, text: seq<byte>, start: nat, cur: nat, mode: Mode,
               pos: nat, mode': Mode, partial: bool)
    requires MatcherOk(ctx.find) && start <= cur <= pos <= |buf|
    requires all == HtmlText.After(text, cur - start, Text(ctx, mode, buf[cur..], partial))
    requires Text(ctx, mode, buf[cur..], partial) ==
             HtmlText.After(buf[cur..pos], pos - cur, Text(ctx, mode', buf[pos..], partial))
    ensures all == HtmlText.After(text + buf[cur..pos], pos - start, Text(ctx, mode', buf[pos..], partial))
  {
    hide Text;
    AfterAfter(text, cur - start, buf[cur..pos], pos - cur, Text(ctx, mode', buf[pos..], partial));
  }

  /** A piece behind what was already handed out. */
  lemma Taken(ctx: Context, buf: seq<byte>, all: TextResult, text: seq<byte>, start: nat, pos: nat, mode: Mode,
              p: Option<Piece>, partial: bool)
    requires MatcherOk(ctx.find) && start <= pos <= |buf| && (p.None? <==> pos == |buf|)
    requires all == HtmlText.After(text, pos - start, Text(ctx, mode, buf[pos..], partial))
    requires p.Some? ==> p.value == Step(ctx, mode, buf[pos..], partial)
    ensures p == None || p == Some(Wait) ==> all == TextResult(text, pos - start, mode, false)
    ensures p == Some(Stop) ==> all == TextResult(text, pos - start, Data, true)
    ensures p.Some? && p.value.Emit? ==>
              var q := p.value;
              0 < q.len <= |buf| - pos &&
              all == HtmlText.After(text + q.text, pos + q.len - start, Text(ctx, q.mode, buf[pos + q.len..], partial))
  {
    hide Text, Step;
    TextUnfolds(ctx, mode, buf[pos..], partial);
    if p.Some? && p.value.Emit? {
      var q := p.value;
      assert buf[pos..][q.len..] == buf[pos + q.len..];
      AfterAfter(text, pos - start, q.text, q.len, Text(ctx, q.mode, buf[pos + q.len..], partial));
    }
  }

  lemma Verbatim0(ctx: Context, buf: seq<byte>, cur: nat, mode: Mode, partial: bool)
    requires MatcherOk(ctx.find) && cur <= |buf|
    ensures Text(ctx, mode, buf[cur..], partial) ==
            HtmlText.After(buf[cur..cur], cur - cur, Text(ctx, mode, buf[cur..], partial))
  {
    AfterNothing(Text(ctx, mode, buf[cur..], partial));
  }

  /** A step that stands for its own bytes extends the verbatim text. */
  lemma Verbatim(ctx: Context, buf: seq<byte>, cur: nat, pos: nat, mode0: Mode, mode: Mode, p: Piece, partial: bool)
    requires MatcherOk(ctx.find) && cur <= pos < |buf|
    requires Text(ctx, mode0, buf[cur..], partial) ==
             HtmlText.After(buf[cur..pos], pos - cur, Text(ctx, mode, buf[pos..], partial))
    requires p == Step(ctx, mode, buf[pos..], partial) && p.Emit? && p.text == buf[pos..pos + p.len]
    ensures Text(ctx, mode0, buf[cur..], partial) ==
            HtmlText.After(buf[cur..pos + p.len], pos + p.len - cur, Text(ctx, p.mode, buf[pos + p.len..], partial))
  {
    hide Text, Step;
    TextUnfolds(ctx, mode, buf[pos..], partial);
    assert buf[pos..][p.len..] == buf[pos + p.len..];
    AfterAfter(buf[cur..pos], pos - cur, p.text, p.len, Text(ctx, p.mode, buf[pos + p.len..], partial));
    assert buf[cur..pos] + p.text == buf[cur..pos + p.len];
  }
}
