/** Character data of the HTML tokenizer (htmlParseCharData): what one step does with the
    data at hand, and that cutting the input into chunks changes nothing. */
module HtmlText {
  import opened Bytes
  import opened HtmlBytes
  import Unicode

  /** ctxt->endCheckState as a data mode; `Data` is 0. */
  datatype Mode = Data | RcData | RawText | PlainText | Script | ScriptEsc1 | ScriptEsc2

  /** The name of the open element, in lower case, and the entity table. */
  datatype Context = Context(name: seq<byte>, find: Matcher)

  /** What happens at one byte: input replaced by text, the end of the character data, or a
      wait for more data. */
  datatype Piece = Emit(len: nat, text: seq<byte>, mode: Mode) | Stop | Wait

  const REPLACEMENT: seq<byte> := [0xEF, 0xBF, 0xBD]

  // --- Numeric references -----------------------------------------------------------------

  const C1_REMAP: seq<int> := [
    0x20AC, 0x0081, 0x201A, 0x0192, 0x201E, 0x2026, 0x2020, 0x2021,
    0x02C6, 0x2030, 0x0160, 0x2039, 0x0152, 0x008D, 0x017D, 0x008F,
    0x0090, 0x2018, 0x2019, 0x201C, 0x201D, 0x2022, 0x2013, 0x2014,
    0x02DC, 0x2122, 0x0161, 0x203A, 0x0153, 0x009D, 0x017E, 0x0178]

  function Remap(c: int): (r: int)
    ensures 0 < r <= 0x10FFFF && !(0xD800 <= r < 0xE000)
  {
    if 0x80 <= c < 0xA0 then C1_REMAP[c - 0x80]
    else if c <= 0 || 0xD800 <= c < 0xE000 || c > 0x10FFFF then 0xFFFD
    else c
  }

  /** htmlCodePointToUtf8 */
  function CodePointToUtf8(cp: int): (out: seq<byte>)
    ensures out != []
  {
    Unicode.Utf8Enc(Remap(cp))
  }

  predicate IsDigitOf(c: byte, base: nat) {
    IsDigit(c) || (base == 16 && 0x61 <= Lower(c) <= 0x66)
  }

  function DigitValue(c: byte): nat
    requires IsDigitOf(c, 16)
  {
    if IsDigit(c) then c - 0x30 else Lower(c) - 0x61 + 10
  }

  /** The end of the digits from i on, and the code point they make with `cp` so far. */
  function Digits(s: seq<byte>, i: nat, base: nat, cp: nat): (r: (nat, nat))
    requires i <= |s|
    ensures i <= r.0 <= |s| && (r.0 < |s| ==> !IsDigitOf(s[r.0], base))
    decreases |s| - i
  {
    if i == |s| || !IsDigitOf(s[i], base) then (i, cp)
    else Digits(s, i + 1, base, NextCodePoint(cp, base, s[i]))
  }

  function NextCodePoint(cp: nat, base: nat, c: byte): nat
    requires IsDigitOf(c, base)
  {
    var n := cp * base + DigitValue(c);
    if n >= 0x110000 then 0x110000 else n
  }

  // --- One step ---------------------------------------------------------------------------

  /** The base of a numeric reference that starts s, or 0, and the byte at which the decision fell. */
  function RefBase(s: seq<byte>): (r: (nat, nat))
    requires s != []
    ensures r.0 == 0 || r.0 == 10 || r.0 == 16
    ensures r.0 == 10 ==> r.1 == 2 < |s| && IsDigit(s[2])
    ensures r.0 == 16 ==> r.1 == 3 < |s| && IsHexDigit(s[3])
    ensures r.1 <= |s|
  {
    if |s| < 2 || s[1] != HASH then (0, 1)
    else if |s| < 3 then (0, 2)
    else if Lower(s[2]) == 0x78 then
      if |s| > 3 && IsHexDigit(s[3]) then (16, 3) else (0, 3)
    else if IsDigit(s[2]) then (10, 2) else (0, 2)
  }

  function RefStep(ctx: Context, mode: Mode, s: seq<byte>, partial: bool): Piece
    requires s != [] && s[0] == AMP
  {
    if mode != Data && mode != RcData then Emit(1, [AMP], mode)
    else if |s| >= 2 && s[1] == HASH then
      var (base, j) := RefBase(s);
      if base == 0 then if partial && j >= |s| then Wait else Emit(1, [AMP], mode)
      else
        var (e, cp) := Digits(s, j, base, 0);
        if e == |s| && partial then Wait
        else Emit(if e < |s| && s[e] == SEMI then e + 1 else e, CodePointToUtf8(cp), mode)
    else if partial && NameRun(s[1..], 0) == |s| - 1 then Wait
    else match ctx.find(s[1..], false)
      case Entity(n, text) => Emit(n + 1, text, mode)
      case NoEntity => Emit(1, [AMP], mode)
  }

  /** How far the element name matches from byte j on. */
  function NameMatch(name: seq<byte>, s: seq<byte>, i: nat, j: nat): (r: nat)
    requires i <= |name| && j <= |s|
    ensures i <= r <= |name| && j + (r - i) <= |s|
    decreases |name| - i
  {
    if j < |s| && i < |name| && name[i] == Lower(s[j]) then NameMatch(name, s, i + 1, j + 1) else i
  }

  predicate EndsTagName(c: byte) {
    c == GT || c == SLASH || IsWs(c)
  }

  /** The check for a tag at a `<`. */
  function TagStep(name: seq<byte>, mode: Mode, s: seq<byte>, partial: bool): Piece
    requires |s| >= 2 && s[0] == LT
  {
    var solidus := s[1] == SLASH;
    var from := if solidus then 2 else 1;
    var i := if solidus || mode == ScriptEsc1 then NameMatch(name, s, 0, from) else 0;
    var j := from + i;
    var tag := (solidus || mode == ScriptEsc1) && i == |name| && j < |s| && EndsTagName(s[j]);
    if tag then
      if mode == ScriptEsc1 && !solidus then Emit(1, [LT], ScriptEsc2)
      else if mode == ScriptEsc2 then Emit(1, [LT], ScriptEsc1)
      else Stop
    else if partial && j >= |s| then Wait
    else Emit(1, [LT], mode)
  }

  /** The check for a comment start at `<!`. */
  function EscapeStep(s: seq<byte>, partial: bool): Piece
    requires |s| >= 2 && s[0] == LT
  {
    if |s| < 3 then if partial then Wait else Emit(1, [LT], Script)
    else if s[2] != DASH then Emit(1, [LT], Script)
    else if |s| < 4 then if partial then Wait else Emit(1, [LT], Script)
    else Emit(1, [LT], if s[3] == DASH then ScriptEsc1 else Script)
  }

  function LtStep(name: seq<byte>, mode: Mode, s: seq<byte>, partial: bool): Piece
    requires s != [] && s[0] == LT
  {
    if mode == Data then Stop
    else if mode == PlainText then Emit(1, [LT], mode)
    else if |s| < 2 then if partial then Wait else Emit(1, [LT], mode)
    else if mode == Script && s[1] == BANG then EscapeStep(s, partial)
    else TagStep(name, mode, s, partial)
  }

  /** The check for a comment end at a `-`. */
  function DashStep(mode: Mode, s: seq<byte>, partial: bool): Piece
    requires s != [] && s[0] == DASH
  {
    if mode != ScriptEsc1 && mode != ScriptEsc2 then Emit(1, [DASH], mode)
    else if |s| < 2 then if partial then Wait else Emit(1, [DASH], mode)
    else if s[1] != DASH then Emit(1, [DASH], mode)
    else if |s| < 3 then if partial then Wait else Emit(1, [DASH], mode)
    else Emit(1, [DASH], if s[2] == GT then Script else mode)
  }

  function Step(ctx: Context, mode: Mode, s: seq<byte>, partial: bool): (p: Piece)
    requires MatcherOk(ctx.find) && s != []
    ensures p.Emit? ==> 0 < p.len <= |s|
    ensures p.Wait? ==> partial
  {
    var c := s[0];
    if c == LT then LtStep(ctx.name, mode, s, partial)
    else if c == DASH then DashStep(mode, s, partial)
    else if c == AMP then RefStep(ctx, mode, s, partial)
    else if c == NUL then Emit(1, if mode == Data then [] else REPLACEMENT, mode)
    else if c == CR then
      if partial && |s| < 2 then Wait
      else Emit(1, if |s| > 1 && s[1] == LF then [] else [LF], mode)
    else if c < 0x80 then Emit(1, [c], mode)
    else
      var n := ValidateUtf8(s, partial);
      if n == 0 then Wait else if n < 0 then Emit(1, REPLACEMENT, mode) else Emit(n, s[..n], mode)
  }

  // --- More data does not change a step that did not wait -----------------------------------

  lemma {:induction false} DigitsExtend(s: seq<byte>, more: seq<byte>, i: nat, base: nat, cp: nat)
    requires i <= |s| && Digits(s, i, base, cp).0 < |s|
    ensures Digits(s + more, i, base, cp) == Digits(s, i, base, cp)
    decreases |s| - i
  {
    if i < |s| {
      assert (s + more)[i] == s[i];
      if IsDigitOf(s[i], base) {
        DigitsExtend(s, more, i + 1, base, NextCodePoint(cp, base, s[i]));
      }
    }
  }

  lemma {:induction false} NameRunExtends(s: seq<byte>, more: seq<byte>, i: nat)
    requires i <= |s| && NameRun(s, i) < |s|
    ensures NameRun(s + more, i) == NameRun(s, i)
    decreases |s| - i
  {
    assert (s + more)[i] == s[i];
    if i < 31 && (IsLetter(s[i]) || (i >= 1 && IsDigit(s[i]))) {
      NameRunExtends(s, more, i + 1);
    }
  }

  lemma {:induction false} NameMatchExtends(name: seq<byte>, s: seq<byte>, more: seq<byte>, i: nat, j: nat)
    requires i <= |name| && j <= |s| && j + (NameMatch(name, s, i, j) - i) < |s|
    ensures NameMatch(name, s + more, i, j) == NameMatch(name, s, i, j)
    decreases |name| - i
  {
    if j < |s| {
      assert (s + more)[j] == s[j];
      if i < |name| && name[i] == Lower(s[j]) {
        NameMatchExtends(name, s, more, i + 1, j + 1);
      }
    }
  }

  lemma RefExtends(ctx: Context, mode: Mode, s: seq<byte>, more: seq<byte>, p: bool)
    requires MatcherOk(ctx.find) && s != [] && s[0] == AMP && RefStep(ctx, mode, s, true) != Wait
    ensures RefStep(ctx, mode, s + more, p) == RefStep(ctx, mode, s, true)
  {
    var t := s + more;
    if mode == Data || mode == RcData {
      if |s| >= 2 && s[1] == HASH {
        var (base, j) := RefBase(s);
        assert RefBase(t) == RefBase(s);
        if base != 0 {
          DigitsExtend(s, more, j, base, 0);
        }
      } else {
        assert t[1..] == s[1..] + more;
        NameRunExtends(s[1..], more, 0);
        var n := NameBound(s[1..]);
        assert NameBound(t[1..]) == n && t[1..][..n] == s[1..][..n];
        assert ctx.find(s[1..], false) == ctx.find(s[1..][..n], false);
        assert ctx.find(t[1..], false) == ctx.find(t[1..][..n], false);
      }
    }
  }

  lemma LtExtends(name: seq<byte>, mode: Mode, s: seq<byte>, more: seq<byte>, p: bool)
    requires s != [] && s[0] == LT && LtStep(name, mode, s, true) != Wait
    ensures LtStep(name, mode, s + more, p) == LtStep(name, mode, s, true)
  {
    if mode != Data && mode != PlainText && !(mode == Script && s[1] == BANG) {
      var solidus := s[1] == SLASH;
      if solidus || mode == ScriptEsc1 {
        NameMatchExtends(name, s, more, 0, if solidus then 2 else 1);
      }
    }
  }

  /** A step that did not wait for more data is the step taken with all the data, whether that
      is the last of the input or not. */
  lemma StepExtends(ctx: Context, mode: Mode, s: seq<byte>, more: seq<byte>, p: bool)
    requires MatcherOk(ctx.find) && s != [] && Step(ctx, mode, s, true) != Wait
    ensures Step(ctx, mode, s + more, p) == Step(ctx, mode, s, true)
  {
    var c := s[0];
    assert (s + more)[0] == c;
    if c == LT {
      LtExtends(ctx.name, mode, s, more, p);
    } else if c == AMP {
      RefExtends(ctx, mode, s, more, p);
    } else if c >= 0x80 {
      var n := ValidateUtf8(s, true);
      assert ValidateUtf8(s + more, p) == n;
      if n > 0 {
        assert (s + more)[..n] == s[..n];
      }
    }
  }

  // --- Whole calls --------------------------------------------------------------------------

  /** The result of a call: the text handed to SAX, the bytes consumed, the data mode left
      behind, and whether the character data ended. */
  datatype TextResult = TextResult(text: seq<byte>, used: nat, mode: Mode, complete: bool)

  function Text(ctx: Context, mode: Mode, s: seq<byte>, partial: bool): (r: TextResult)
    requires MatcherOk(ctx.find)
    ensures r.used <= |s|
    decreases |s|
  {
    if s == [] then TextResult([], 0, mode, false)
    else
      match Step(ctx, mode, s, partial)
      case Stop => TextResult([], 0, Data, true)
      case Wait => TextResult([], 0, mode, false)
      case Emit(n, text, mode') => After(text, n, Text(ctx, mode', s[n..], partial))
  }

  /** A result behind what was already consumed. */
  function After(text: seq<byte>, used: nat, r: TextResult): TextResult {
    r.(text := text + r.text, used := used + r.used)
  }

  /** A call on a prefix, and a call on the rest of the data in the mode it left behind. */
  lemma {:induction false} TextSplits(ctx: Context, mode: Mode, s: seq<byte>, more: seq<byte>, p: bool)
    requires MatcherOk(ctx.find)
    ensures var r := Text(ctx, mode, s, true);
            Text(ctx, mode, s + more, p) ==
            if r.complete then r else After(r.text, r.used, Text(ctx, r.mode, s[r.used..] + more, p))
    decreases |s|
  {
    hide Step, Text;
    TextUnfolds(ctx, mode, s, true);
    TextUnfolds(ctx, mode, s + more, p);
    if s == [] {
      assert s[0..] + more == more && s + more == more;
      AfterNothing(Text(ctx, mode, more, p));
    } else {
      var piece := Step(ctx, mode, s, true);
      if piece == Wait {
        assert s[0..] == s;
        AfterNothing(Text(ctx, mode, s + more, p));
      } else {
        StepExtends(ctx, mode, s, more, p);
        if piece.Emit? {
          TextSplits(ctx, piece.mode, s[piece.len..], more, p);
          SplitsBehind(ctx, s, more, p, piece);
        }
      }
    }
  }

  /** One step of a call. */
  lemma TextUnfolds(ctx: Context, mode: Mode, s: seq<byte>, partial: bool)
    requires MatcherOk(ctx.find)
    ensures s == [] ==> Text(ctx, mode, s, partial) == TextResult([], 0, mode, false)
    ensures s != [] && Step(ctx, mode, s, partial).Stop? ==>
              Text(ctx, mode, s, partial) == TextResult([], 0, Data, true)
    ensures s != [] && Step(ctx, mode, s, partial).Wait? ==>
              Text(ctx, mode, s, partial) == TextResult([], 0, mode, false)
    ensures s != [] && Step(ctx, mode, s, partial).Emit? ==>
              var p := Step(ctx, mode, s, partial);
              Text(ctx, mode, s, partial) == After(p.text, p.len, Text(ctx, p.mode, s[p.len..], partial))
  {
  }

  lemma AfterNothing(r: TextResult)
    ensures After([], 0, r) == r
  {
  }

  lemma SplitsBehind(ctx: Context, s: seq<byte>, more: seq<byte>, p: bool, piece: Piece)
    requires MatcherOk(ctx.find) && piece.Emit? && piece.len <= |s|
    requires var s', q := s[piece.len..], Text(ctx, piece.mode, s[piece.len..], true);
             Text(ctx, piece.mode, s' + more, p) ==
             if q.complete then q else After(q.text, q.used, Text(ctx, q.mode, s'[q.used..] + more, p))
    ensures var q := Text(ctx, piece.mode, s[piece.len..], true);
            var r := After(piece.text, piece.len, q);
            After(piece.text, piece.len, Text(ctx, piece.mode, (s + more)[piece.len..], p)) ==
            if q.complete then r else After(r.text, r.used, Text(ctx, q.mode, s[r.used..] + more, p))
  {
    hide Text;
    var n, q := piece.len, Text(ctx, piece.mode, s[piece.len..], true);
    assert (s + more)[n..] == s[n..] + more;
    assert s[n..][q.used..] == s[n + q.used..];
    AfterAfter(piece.text, n, q.text, q.used, Text(ctx, q.mode, s[n..][q.used..] + more, p));
  }

  lemma AfterAfter(t: seq<byte>, n: nat, t': seq<byte>, n': nat, r: TextResult)
    ensures After(t, n, After(t', n', r)) == After(t + t', n + n', r)
  {
  }

  /** The push parser on chunked input: a partial call per chunk, with what the calls before
      left over in front, and a final call on the last one. */
  function Push(ctx: Context, mode: Mode, pending: seq<byte>, chunks: seq<seq<byte>>): TextResult
    requires MatcherOk(ctx.find) && chunks != []
    decreases |chunks|
  {
    var buf := pending + chunks[0];
    var r := Text(ctx, mode, buf, |chunks| > 1);
    if |chunks| == 1 || r.complete then r
    else After(r.text, r.used, Push(ctx, r.mode, buf[r.used..], chunks[1..]))
  }

  /** Chunks do not matter: in every mode, any cutting of the input gives the same text, the
      same final mode and the same stop position as one call on all of it. */
  lemma {:induction false} ChunksDoNotMatter(ctx: Context, mode: Mode, pending: seq<byte>, chunks: seq<seq<byte>>)
    requires MatcherOk(ctx.find) && chunks != []
    ensures Push(ctx, mode, pending, chunks) == Text(ctx, mode, pending + Flatten(chunks), false)
    decreases |chunks|
  {
    var buf := pending + chunks[0];
    assert pending + Flatten(chunks) == buf + Flatten(chunks[1..]);
    if |chunks| == 1 {
      assert buf + Flatten(chunks[1..]) == buf;
    } else {
      var r := Text(ctx, mode, buf, true);
      TextSplits(ctx, mode, buf, Flatten(chunks[1..]), false);
      if !r.complete {
        ChunksDoNotMatter(ctx, r.mode, buf[r.used..], chunks[1..]);
      }
    }
  }
}
