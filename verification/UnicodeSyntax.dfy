/** The byte sequences of UTF-8 and UTF-16 by their published syntax: which bytes are a character and
    which one, and that the HTML tokenizer accepts the same UTF-8. */
module UnicodeSyntax {
  import opened Bytes
  import opened Unicode
  import HtmlBytes

  ghost predicate Tail(b: byte) { 0x80 <= b <= 0xBF }

  /** A byte counted from a base. */
  ghost function Off(b: byte, base: int): int {
    var i: int := b;
    i - base
  }

  /** Section 4 of RFC 3629: UTF8-octets that start a string, with their number. */
  ghost predicate IsUtf8(s: seq<byte>, c: int, n: nat) {
    match n
    case 1 => |s| >= 1 && s[0] <= 0x7F && c == s[0]
    case 2 => |s| >= 2 && 0xC2 <= s[0] <= 0xDF && Tail(s[1]) && c == Off(s[0], 0xC0) * 0x40 + Off(s[1], 0x80)
    case 3 =>
      && |s| >= 3 && 0xE0 <= s[0] <= 0xEF && Tail(s[1]) && Tail(s[2])
      && (s[0] == 0xE0 ==> s[1] >= 0xA0) && (s[0] == 0xED ==> s[1] <= 0x9F)
      && c == Off(s[0], 0xE0) * 0x1000 + Off(s[1], 0x80) * 0x40 + Off(s[2], 0x80)
    case 4 =>
      && |s| >= 4 && 0xF0 <= s[0] <= 0xF4 && Tail(s[1]) && Tail(s[2]) && Tail(s[3])
      && (s[0] == 0xF0 ==> s[1] >= 0x90) && (s[0] == 0xF4 ==> s[1] <= 0x8F)
      && c == Off(s[0], 0xF0) * 0x4_0000 + Off(s[1], 0x80) * 0x1000 + Off(s[2], 0x80) * 0x40 + Off(s[3], 0x80)
    case _ => false
  }

  lemma SixBits(b: byte)
    ensures Tail(b) ==> b % 64 == b - 0x80
    ensures 0xC0 <= b <= 0xDF ==> b % 32 == b - 0xC0
    ensures 0xE0 <= b <= 0xEF ==> b % 16 == b - 0xE0
    ensures 0xF0 <= b <= 0xFF ==> b % 16 == b - 0xF0
  {
  }

  lemma BitsAre(s: seq<byte>, n: nat)
    requires 1 <= n <= |s| && n <= 4 && forall k :: 1 <= k < n ==> Tail(s[k])
    ensures n == 1 ==> Bits(s, 1, 1) == s[0]
    ensures n == 2 && 0xC0 <= s[0] <= 0xDF ==> Bits(s, 2, 2) == Off(s[0], 0xC0) * 0x40 + Off(s[1], 0x80)
    ensures n == 3 && 0xE0 <= s[0] <= 0xEF ==>
              Bits(s, 3, 3) == Off(s[0], 0xE0) * 0x1000 + Off(s[1], 0x80) * 0x40 + Off(s[2], 0x80)
    ensures n == 4 && 0xF0 <= s[0] ==>
              Bits(s, 4, 4) ==
              Off(s[0], 0xF0) * 0x4_0000 + Off(s[1], 0x80) * 0x1000 + Off(s[2], 0x80) * 0x40 + Off(s[3], 0x80)
  {
    hide Bits, Off;
    SixBits(s[0]);
    FirstBits(s, n);
    if n > 1 {
      NextBits(s, n, 2);
    }
    if n > 2 {
      NextBits(s, n, 3);
    }
    if n > 3 {
      NextBits(s, n, 4);
    }
  }

  lemma FirstBits(s: seq<byte>, n: nat)
    requires 1 <= n <= |s| && n <= 4
    ensures n == 1 ==> Bits(s, n, 1) == s[0]
    ensures n == 2 && 0xC0 <= s[0] <= 0xDF ==> Bits(s, n, 1) == Off(s[0], 0xC0)
    ensures n == 3 && 0xE0 <= s[0] <= 0xEF ==> Bits(s, n, 1) == Off(s[0], 0xE0)
    ensures n == 4 && 0xF0 <= s[0] ==> Bits(s, n, 1) == Off(s[0], 0xF0)
  {
    SixBits(s[0]);
  }

  lemma NextBits(s: seq<byte>, n: nat, k: nat)
    requires 2 <= k <= n <= |s| && Tail(s[k - 1])
    ensures Bits(s, n, k) == Bits(s, n, k - 1) * 0x40 + Off(s[k - 1], 0x80)
  {
    SixBits(s[k - 1]);
  }

  /** The decoder accepts exactly the sequences of the RFC, with their characters. */
  lemma Utf8Syntax(s: seq<byte>, c: int, n: nat)
    ensures Next(Utf8, s) == Char(c, n) <==> IsUtf8(s, c, n)
  {
    if s != [] {
      var l := LeadLength(s[0]);
      if 1 <= l <= |s| && forall k :: 1 <= k < l ==> Tail(s[k]) {
        BitsAre(s, l);
      }
    }
  }

  /** Section 2 of RFC 2781: one unit that is no surrogate, or a pair of surrogates; `hi` and `lo` are
      the places of the bytes of the first unit. */
  ghost predicate IsUtf16(s: seq<byte>, hi: nat, lo: nat, c: int, n: nat)
    requires hi < 2 && lo < 2
  {
    match n
    case 2 => |s| >= 2 && c == Off(s[hi], 0) * 0x100 + Off(s[lo], 0) && !(0xD8 <= s[hi] <= 0xDF)
    case 4 =>
      && |s| >= 4 && 0xD8 <= s[hi] <= 0xDB && 0xDC <= s[hi + 2] <= 0xDF
      && c == 0x1_0000 + (Off(s[hi], 0xD8) * 0x100 + Off(s[lo], 0)) * 0x400
              + Off(s[hi + 2], 0xDC) * 0x100 + Off(s[lo + 2], 0)
    case _ => false
  }

  /** The decoders accept exactly these sequences: the high byte comes second in UTF-16LE and first in
      UTF-16BE. */
  lemma Utf16Syntax(s: seq<byte>, c: int, n: nat)
    ensures Next(Utf16LE, s) == Char(c, n) <==> IsUtf16(s, 1, 0, c, n)
    ensures Next(Utf16BE, s) == Char(c, n) <==> IsUtf16(s, 0, 1, c, n)
  {
  }

  /** What the encoders write is what the syntax says. */
  lemma EncodingsWritten(c: CodePoint)
    ensures IsUtf8(Enc(Utf8, c), c, |Enc(Utf8, c)|)
    ensures IsUtf16(Enc(Utf16LE, c), 1, 0, c, |Enc(Utf16LE, c)|)
    ensures IsUtf16(Enc(Utf16BE, c), 0, 1, c, |Enc(Utf16BE, c)|)
  {
    hide Next, Enc;
    Decodes(Utf8, c, []);
    Decodes(Utf16LE, c, []);
    Decodes(Utf16BE, c, []);
    Utf8Syntax(Enc(Utf8, c) + [], c, |Enc(Utf8, c)|);
    Utf16Syntax(Enc(Utf16LE, c) + [], c, |Enc(Utf16LE, c)|);
    Utf16Syntax(Enc(Utf16BE, c) + [], c, |Enc(Utf16BE, c)|);
    assert Enc(Utf8, c) + [] == Enc(Utf8, c) && Enc(Utf16LE, c) + [] == Enc(Utf16LE, c);
    assert Enc(Utf16BE, c) + [] == Enc(Utf16BE, c);
  }

  /** htmlValidateUtf8 and the UTF-8 decoder of the transcoders accept the same sequences. */
  lemma ValidatedAlike(s: seq<byte>, n: nat)
    requires s != [] && s[0] >= 0x80 && n > 0
    ensures HtmlBytes.ValidateUtf8(s, false) == n <==> exists c :: IsUtf8(s, c, n)
  {
    if HtmlBytes.ValidateUtf8(s, false) == n {
      var x := Off(s[0], if n == 2 then 0xC0 else if n == 3 then 0xE0 else 0xF0);
      var c := if n == 2 then x * 0x40 + Off(s[1], 0x80)
               else if n == 3 then x * 0x1000 + Off(s[1], 0x80) * 0x40 + Off(s[2], 0x80)
               else x * 0x4_0000 + Off(s[1], 0x80) * 0x1000 + Off(s[2], 0x80) * 0x40 + Off(s[3], 0x80);
      assert IsUtf8(s, c, n);
    }
  }
}
