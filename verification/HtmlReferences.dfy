/** What numeric character references stand for in HTML: digits by their places, the character of
    that number, and references that read back as the character that they were written for. */
module HtmlReferences {
  import opened Bytes
  import opened HtmlBytes
  import opened HtmlText
  import opened TagGrammar
  import Unicode
  import CharRef

  // --- Digits ------------------------------------------------------------------------------------

  ghost predicate DigitChar(c: byte, base: nat) {
    0x30 <= c <= 0x39 || (base == 16 && (0x41 <= c <= 0x46 || 0x61 <= c <= 0x66))
  }

  ghost predicate AllDigits(s: seq<byte>, base: nat) { forall k :: 0 <= k < |s| ==> DigitChar(s[k], base) }

  ghost function DigitWorth(c: byte): nat
    requires DigitChar(c, 16)
  {
    if c <= 0x39 then c - 0x30 else if c <= 0x46 then c - 0x37 else c - 0x57
  }

  /** What a digit is worth with `n` digits behind it. */
  ghost function Place(base: nat, n: nat): (p: nat)
    ensures base > 0 ==> p > 0
  {
    if n == 0 then 1 else base * Place(base, n - 1)
  }

  /** The number that a string of digits stands for. */
  ghost function Worth(s: seq<byte>, base: nat): nat
    requires AllDigits(s, base)
  {
    if s == [] then 0
    else
      assert DigitChar(s[0], 16);
      DigitWorth(s[0]) * Place(base, |s| - 1) + Worth(s[1..], base)
  }

  ghost function Capped(n: nat): nat { if n < 0x110000 then n else 0x110000 }

  lemma DigitIs(c: byte, base: nat)
    requires base == 10 || base == 16
    ensures IsDigitOf(c, base) <==> DigitChar(c, base)
    ensures DigitChar(c, base) ==> DigitChar(c, 16) && DigitValue(c) == DigitWorth(c) < base
  {
  }

  /** One more digit behind a number is worth what it is in its place. */
  lemma Shifted(cp: nat, d: nat, base: nat, n: nat, rest: nat)
    requires base > 0
    ensures cp * Place(base, n + 1) + (d * Place(base, n) + rest) == (cp * base + d) * Place(base, n) + rest
  {
    var p := Place(base, n);
    assert Place(base, n + 1) == base * p;
    assert cp * (base * p) == (cp * base) * p;
    assert (cp * base + d) * p == (cp * base) * p + d * p;
  }

  lemma CapStays(n: nat, p: nat, rest: nat)
    requires p > 0
    ensures Capped(Capped(n) * p + rest) == Capped(n * p + rest)
  {
    if n >= 0x110000 {
      assert n * p >= n && 0x110000 * p >= 0x110000;
    }
  }

  /** The digits that a reference takes are all that are there, and its code point is what they are
      worth, up to the first number that is too large. */
  lemma {:induction false} DigitsWorth(s: seq<byte>, i: nat, base: nat, cp: nat)
    requires i <= |s| && (base == 10 || base == 16) && cp <= 0x110000
    ensures var r := Digits(s, i, base, cp);
            && AllDigits(s[i..r.0], base) && (r.0 < |s| ==> !DigitChar(s[r.0], base))
            && r.1 == Capped(cp * Place(base, r.0 - i) + Worth(s[i..r.0], base))
    decreases |s| - i
  {
    hide DigitValue, DigitWorth, NextCodePoint, IsDigitOf, Place;
    PlaceOfNone(base);
    if i < |s| {
      DigitIs(s[i], base);
      if IsDigitOf(s[i], base) {
        var next := NextCodePoint(cp, base, s[i]);
        NextIs(cp, base, s[i]);
        DigitsWorth(s, i + 1, base, next);
        OneDigit(s, i, Digits(s, i + 1, base, next).0, base, cp, next);
      }
    }
  }

  lemma PlaceOfNone(base: nat)
    ensures Place(base, 0) == 1
  {
  }

  lemma NextIs(cp: nat, base: nat, c: byte)
    requires IsDigitOf(c, base) && (base == 10 || base == 16) && DigitChar(c, 16) && DigitValue(c) == DigitWorth(c)
    ensures NextCodePoint(cp, base, c) == Capped(cp * base + DigitWorth(c)) <= 0x110000
  {
  }

  lemma OneDigit(s: seq<byte>, i: nat, e: nat, base: nat, cp: nat, next: nat)
    requires i < e <= |s| && (base == 10 || base == 16) && DigitChar(s[i], base) && DigitChar(s[i], 16)
    requires AllDigits(s[i + 1..e], base) && next == Capped(cp * base + DigitWorth(s[i]))
    ensures AllDigits(s[i..e], base)
    ensures Capped(next * Place(base, e - i - 1) + Worth(s[i + 1..e], base)) ==
            Capped(cp * Place(base, e - i) + Worth(s[i..e], base))
  {
    hide DigitWorth, Place, Capped;
    assert s[i..e][1..] == s[i + 1..e] && forall k :: 1 <= k < e - i ==> s[i..e][k] == s[i + 1..e][k - 1];
    var d, p, rest := DigitWorth(s[i]), Place(base, e - i - 1), Worth(s[i + 1..e], base);
    CapStays(cp * base + d, p, rest);
    Shifted(cp, d, base, e - i - 1, rest);
  }

  // --- References ----------------------------------------------------------------------------------

  /** "&#" and digits, or "&#x" and hexadecimal digits, up to byte e, where the digits end. */
  ghost predicate NumericReference(s: seq<byte>, base: nat, e: nat) {
    && (base == 10 || base == 16) && |s| > 3 && s[0] == 0x26 && s[1] == 0x23
    && (base == 16 ==> s[2] == 0x78 || s[2] == 0x58)
    && FirstDigit(base) < e <= |s| && AllDigits(s[FirstDigit(base)..e], base)
    && (e < |s| ==> !DigitChar(s[e], base))
  }

  ghost function FirstDigit(base: nat): nat { if base == 16 then 3 else 2 }

  lemma DigitsEnd(s: seq<byte>, base: nat, e: nat)
    requires NumericReference(s, base, e)
    ensures Digits(s, FirstDigit(base), base, 0) == (e, Capped(Worth(s[FirstDigit(base)..e], base)))
  {
    hide Digits, Worth, Capped, Place;
    var i := FirstDigit(base);
    DigitsWorth(s, i, base, 0);
    var r := Digits(s, i, base, 0);
    assert forall k :: i <= k < e ==> s[k] == s[i..e][k - i];
    assert forall k :: i <= k < r.0 ==> s[k] == s[i..r.0][k - i];
  }

  lemma BaseIs(s: seq<byte>, base: nat, e: nat)
    requires NumericReference(s, base, e)
    ensures RefBase(s) == (base, FirstDigit(base))
  {
    var i := FirstDigit(base);
    assert s[i] == s[i..e][0];
    DigitIs(s[i], base);
  }

  /** In text, a numeric reference stands for the character of the number that its digits are worth;
      a semicolon behind it belongs to it. */
  lemma ReferenceStands(ctx: Context, mode: Mode, s: seq<byte>, base: nat, e: nat)
    requires NumericReference(s, base, e) && (mode == Data || mode == RcData)
    ensures RefStep(ctx, mode, s, false) ==
            Emit(if e < |s| && s[e] == 0x3B then e + 1 else e,
                 CodePointToUtf8(Capped(Worth(s[FirstDigit(base)..e], base))), mode)
  {
    hide Worth, Capped, CodePointToUtf8, Digits, RefBase;
    BaseIs(s, base, e);
    DigitsEnd(s, base, e);
  }

  /** The bytes of a character, but for the C1 controls, which are read as in Windows-1252; the
      replacement character for what is no character. */
  lemma CodePointText(c: int)
    ensures Unicode.Scalar(c) && c != 0 && !(0x80 <= c < 0xA0) ==> CodePointToUtf8(c) == Unicode.Utf8Enc(c)
    ensures !Unicode.Scalar(c) || c == 0 ==> CodePointToUtf8(c) == [0xEF, 0xBF, 0xBD]
    ensures c == 0x80 ==> CodePointToUtf8(c) == [0xE2, 0x82, 0xAC]
    ensures c == 0x9F ==> CodePointToUtf8(c) == [0xC5, 0xB8]
  {
  }

  /** Only the five C1 controls that Windows-1252 does not use are left. */
  lemma ControlsLeft(c: int)
    requires 0x80 <= c < 0xA0
    ensures 0x80 <= Remap(c) < 0xA0 <==> c in {0x81, 0x8D, 0x8F, 0x90, 0x9D}
  {
  }

  // --- Round trips --------------------------------------------------------------------------------------

  lemma {:induction false} WorthAppend(s: seq<byte>, d: byte, base: nat)
    requires AllDigits(s + [d], base) && AllDigits(s, base) && DigitChar(d, 16) && base > 0
    ensures Worth(s + [d], base) == Worth(s, base) * base + DigitWorth(d)
    decreases |s|
  {
    hide DigitWorth;
    if s == [] {
      assert s + [d] == [d] && [d][1..] == [] && Place(base, 0) == 1;
    } else {
      assert (s + [d])[1..] == s[1..] + [d] && (s + [d])[0] == s[0];
      assert forall k :: 0 <= k < |s[1..]| ==> s[1..][k] == s[k + 1];
      assert forall k :: 0 <= k < |s| ==> (s[1..] + [d])[k] == (s + [d])[k + 1];
      WorthAppend(s[1..], d, base);
      assert DigitChar(s[0], 16);
      Regroup(DigitWorth(s[0]), Place(base, |s| - 1), Worth(s[1..], base), base);
    }
  }

  lemma Regroup(a: nat, p: nat, w: nat, base: nat)
    ensures a * (base * p) + w * base == (a * p + w) * base
  {
    assert a * (base * p) == (a * p) * base;
  }

  lemma {:induction false} DecimalWorth(c: nat)
    ensures AllDigits(CharRef.Decimal(c), 10) && Worth(CharRef.Decimal(c), 10) == c
    decreases c
  {
    var s := CharRef.Decimal(c);
    assert forall k :: 0 <= k < |s| ==> CharRef.Digit(s[k]);
    if c < 10 {
      assert s[1..] == [] && Place(10, 0) == 1;
    } else {
      DecimalWorth(c / 10);
      WorthAppend(CharRef.Decimal(c / 10), 0x30 + c % 10, 10);
    }
  }

  /** A whole text that is a numeric reference is read as the character, all of it. */
  lemma ReferenceReads(ctx: Context, s: seq<byte>, base: nat, c: int)
    requires MatcherOk(ctx.find) && Unicode.Scalar(c) && c != 0 && !(0x80 <= c < 0xA0)
    requires |s| > 3 && NumericReference(s, base, |s| - 1) && s[|s| - 1] == 0x3B
    requires Worth(s[FirstDigit(base)..|s| - 1], base) == c
    ensures Text(ctx, Data, s, false) == TextResult(Unicode.Utf8Enc(c), |s|, Data, false)
  {
    hide Worth, CodePointToUtf8, RefStep;
    ReferenceStands(ctx, Data, s, base, |s| - 1);
    CodePointText(c);
    assert s[|s|..] == [] && Unicode.Utf8Enc(c) + [] == Unicode.Utf8Enc(c);
    assert Text(ctx, Data, [], false) == TextResult([], 0, Data, false);
  }

  /** The decimal reference that the serializer writes for a character is read back as its UTF-8. */
  lemma DecimalRoundTrip(ctx: Context, c: nat)
    requires MatcherOk(ctx.find) && Unicode.Scalar(c) && c != 0 && !(0x80 <= c < 0xA0)
    ensures var s := CharRef.Reference(c); Text(ctx, Data, s, false) == TextResult(Unicode.Utf8Enc(c), |s|, Data, false)
  {
    hide Text, Worth;
    DecimalWorth(c);
    var s, d := CharRef.Reference(c), CharRef.Decimal(c);
    assert s[2..|s| - 1] == d;
    ReferenceReads(ctx, s, 10, c);
  }

  /** So is every hexadecimal reference, in either case and with any leading zeros. */
  lemma HexRoundTrip(ctx: Context, x: byte, d: seq<byte>)
    requires MatcherOk(ctx.find) && (x == 0x78 || x == 0x58) && d != [] && AllDigits(d, 16)
    requires var c := Worth(d, 16); Unicode.Scalar(c) && c != 0 && !(0x80 <= c < 0xA0)
    ensures var s := [0x26, 0x23, x] + d + [0x3B];
            Text(ctx, Data, s, false) == TextResult(Unicode.Utf8Enc(Worth(d, 16)), |s|, Data, false)
  {
    hide Text, Worth;
    var s := [0x26, 0x23, x] + d + [0x3B];
    assert s[3..|s| - 1] == d;
    ReferenceReads(ctx, s, 16, Worth(d, 16));
  }

  /** In attribute values too: a value that is a numeric reference is the character. */
  lemma ValueReads(find: Matcher, s: seq<byte>, base: nat, c: int)
    requires MatcherOk(find) && Unicode.Scalar(c) && c != 0 && !(0x80 <= c < 0xA0)
    requires |s| > 3 && NumericReference(s, base, |s| - 1) && s[|s| - 1] == 0x3B
    requires Worth(s[FirstDigit(base)..|s| - 1], base) == c
    ensures DataText(find, s, 0, MaskDQ, false, true) == Unicode.Utf8Enc(c)
  {
    hide Worth, CodePointToUtf8, RefStep;
    AttrMatcherOk(find);
    ReferenceStands(Context([], AttrMatcher(find)), RcData, s, base, |s| - 1);
    CodePointText(c);
    assert s[0..] == s && Unicode.Utf8Enc(c) + [] == Unicode.Utf8Enc(c);
    assert DataPiece(find, s[0..], true) == Emit(|s|, Unicode.Utf8Enc(c), RcData);
    assert DataText(find, s, |s|, MaskDQ, false, true) == [];
  }
}
