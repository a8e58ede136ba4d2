/** Encoding forms of Unicode as RFC 3629 and RFC 2781 define them, and what converting between
    them means. */
module Unicode {
  import opened Bytes

  /** A code point that is not a surrogate. */
  predicate Scalar(c: int) { 0 <= c <= 0x10FFFF && !(0xD800 <= c <= 0xDFFF) }

  datatype Form = Utf8 | Utf16LE | Utf16BE

  // --- Encoding one character ---------------------------------------------------------------------

  /** Section 3 of RFC 3629 */
  function Utf8Enc(c: int): (r: seq<byte>)
    requires Scalar(c)
    ensures 1 <= |r| <= 4
  {
    if c < 0x80 then [c]
    else if c < 0x800 then [0xC0 + c / 64, 0x80 + c % 64]
    else if c < 0x10000 then [0xE0 + c / 4096, 0x80 + c / 64 % 64, 0x80 + c % 64]
    else [0xF0 + c / 262144, 0x80 + c / 4096 % 64, 0x80 + c / 64 % 64, 0x80 + c % 64]
  }

  /** The bytes of a code unit of 16 bits. */
  function UnitBytes(form: Form, u: int): (r: seq<byte>)
    requires 0 <= u < 0x10000
    ensures |r| == 2
  {
    if form == Utf16BE then [u / 256, u % 256] else [u % 256, u / 256]
  }

  function UnitAt(form: Form, s: seq<byte>): (u: int)
    requires |s| >= 2
    ensures 0 <= u < 0x10000
    ensures form != Utf8 ==> UnitBytes(form, u) == s[..2]
  {
    var a: int, b: int := s[0], s[1];
    if form == Utf16BE then a * 256 + b else a + b * 256
  }

  /** Section 2.1 of RFC 2781 */
  function Utf16Enc(form: Form, c: int): (r: seq<byte>)
    requires Scalar(c)
    ensures |r| == if c < 0x10000 then 2 else 4
  {
    if c < 0x10000 then UnitBytes(form, c)
    else UnitBytes(form, 0xD800 + (c - 0x10000) / 1024) + UnitBytes(form, 0xDC00 + (c - 0x10000) % 1024)
  }

  function Enc(form: Form, c: int): (r: seq<byte>)
    requires Scalar(c)
    ensures 1 <= |r| <= 4
  {
    if form == Utf8 then Utf8Enc(c) else Utf16Enc(form, c)
  }

  // --- Decoding one character ---------------------------------------------------------------------

  /** What comes next: nothing, a character of which bytes are missing, something that is not a
      character, or one. */
  datatype Piece = AtEnd | Short | Bad | Char(c: int, read: nat)

  /** The number of bytes that a lead byte announces; 0 for bytes that cannot lead. */
  function LeadLength(b: byte): (n: nat)
    ensures n <= 4
  {
    if b < 0x80 then 1 else if b < 0xC2 then 0 else if b < 0xE0 then 2 else if b < 0xF0 then 3 else 4
  }

  /** The bits that a lead byte of a sequence of `n` bytes contributes. */
  function LeadBits(b: byte, n: nat): int {
    if n == 1 then b else if n == 2 then b % 32 else b % 16
  }

  /** The number that the bits of the first `k` bytes of a sequence of `n` bytes stand for. */
  function Bits(s: seq<byte>, n: nat, k: nat): (c: int)
    requires 1 <= k <= n <= |s|
    ensures c >= 0
  {
    if k == 1 then LeadBits(s[0], n) else Bits(s, n, k - 1) * 64 + s[k - 1] % 64
  }

  function MinOf(n: nat): int { if n == 2 then 0x80 else if n == 3 then 0x800 else if n == 4 then 0x10000 else 0 }

  function Utf8Next(s: seq<byte>): (p: Piece)
    ensures p.Char? ==> 1 <= p.read <= |s| && Scalar(p.c)
  {
    if s == [] then AtEnd
    else
      var n := LeadLength(s[0]);
      if n == 0 then Bad
      else if |s| < n then Short
      else if exists i | 1 <= i < n :: !IsCont(s[i]) then Bad
      else if Bits(s, n, n) < MinOf(n) || !Scalar(Bits(s, n, n)) then Bad
      else Char(Bits(s, n, n), n)
  }

  function Utf16Next(form: Form, s: seq<byte>): (p: Piece)
    ensures p.Char? ==> 1 <= p.read <= |s| && Scalar(p.c)
  {
    if s == [] then AtEnd
    else if |s| < 2 then Short
    else
      var u := UnitAt(form, s);
      if u < 0xD800 || u >= 0xE000 then Char(u, 2)
      else if u >= 0xDC00 then Bad
      else if |s| < 4 then Short
      else
        var v := UnitAt(form, s[2..]);
        if v < 0xDC00 || v >= 0xE000 then Bad
        else Char(0x10000 + (u - 0xD800) * 1024 + (v - 0xDC00), 4)
  }

  function Next(form: Form, s: seq<byte>): (p: Piece)
    ensures p.Char? ==> 1 <= p.read <= |s| && Scalar(p.c)
  {
    if form == Utf8 then Utf8Next(s) else Utf16Next(form, s)
  }

  // --- Decoding is exact --------------------------------------------------------------------------

  /** Groups of six bits. */
  lemma Sextets(x: int, y: int, z: int, w: int)
    requires 0 <= y < 64 && 0 <= z < 64 && 0 <= w < 64
    ensures (x * 64 + y) / 64 == x && (x * 64 + y) % 64 == y
    ensures ((x * 64 + y) * 64 + z) / 64 == x * 64 + y && ((x * 64 + y) * 64 + z) % 64 == z &&
            ((x * 64 + y) * 64 + z) / 4096 == x
    ensures var c := ((x * 64 + y) * 64 + z) * 64 + w;
            c / 64 == (x * 64 + y) * 64 + z && c % 64 == w && c / 4096 == x * 64 + y && c / 262144 == x
  {
  }

  /** The bytes of a sequence determine its number and are determined by it. */
  lemma Utf8DecodesTo(s: seq<byte>)
    ensures var p := Utf8Next(s); p.Char? ==> s[..p.read] == Utf8Enc(p.c)
  {
    var p := Utf8Next(s);
    if p.Char? {
      var n := p.read;
      assert forall i :: 1 <= i < n ==> IsCont(s[i]) && s[i] % 64 == s[i] - 0x80;
      if n == 1 {
        assert s[..1] == [s[0]];
      } else if n == 2 {
        SequenceOfTwo(s);
      } else if n == 3 {
        SequenceOfThree(s);
      } else {
        SequenceOfFour(s);
      }
    }
  }

  lemma EncOfTwo(x: int, y: int)
    requires 2 <= x < 32 && 0 <= y < 64
    ensures var c := x * 64 + y; Scalar(c) && c >= 0x80 && Utf8Enc(c) == [0xC0 + x, 0x80 + y]
  {
    Sextets(x, y, 0, 0);
  }

  lemma EncOfThree(x: int, y: int, z: int)
    requires 0 <= x < 16 && 0 <= y < 64 && 0 <= z < 64
    ensures var c := (x * 64 + y) * 64 + z; Scalar(c) && c >= 0x800 ==> Utf8Enc(c) == [0xE0 + x, 0x80 + y, 0x80 + z]
  {
    Sextets(x, y, z, 0);
  }

  lemma EncOfFour(x: int, y: int, z: int, w: int)
    requires 0 <= x < 16 && 0 <= y < 64 && 0 <= z < 64 && 0 <= w < 64
    ensures var c := ((x * 64 + y) * 64 + z) * 64 + w;
            Scalar(c) && c >= 0x10000 ==> Utf8Enc(c) == [0xF0 + x, 0x80 + y, 0x80 + z, 0x80 + w]
  {
    Sextets(x, y, z, w);
  }

  lemma SequenceOfTwo(s: seq<byte>)
    requires |s| >= 2 && IsCont(s[1]) && 0xC2 <= s[0] < 0xE0
    ensures var c := Bits(s, 2, 2); Scalar(c) && s[..2] == Utf8Enc(c)
  {
    hide Bits, Utf8Enc;
    var x: int, y: int := s[0] - 0xC0, s[1] - 0x80;
    BitsOf(s, 2, x, [y]);
    EncOfTwo(x, y);
    assert s[..2] == [0xC0 + x, 0x80 + y];
  }

  lemma SequenceOfThree(s: seq<byte>)
    requires |s| >= 3 && IsCont(s[1]) && IsCont(s[2]) && 0xE0 <= s[0] < 0xF0 && Bits(s, 3, 3) >= 0x800 &&
             Scalar(Bits(s, 3, 3))
    ensures s[..3] == Utf8Enc(Bits(s, 3, 3))
  {
    hide Bits, Utf8Enc;
    var x: int, y: int, z: int := s[0] - 0xE0, s[1] - 0x80, s[2] - 0x80;
    BitsOf(s, 3, x, [y, z]);
    EncOfThree(x, y, z);
    assert s[..3] == [0xE0 + x, 0x80 + y, 0x80 + z];
  }

  lemma SequenceOfFour(s: seq<byte>)
    requires |s| >= 4 && IsCont(s[1]) && IsCont(s[2]) && IsCont(s[3]) && 0xF0 <= s[0] && Bits(s, 4, 4) >= 0x10000 &&
             Scalar(Bits(s, 4, 4))
    ensures s[..4] == Utf8Enc(Bits(s, 4, 4))
  {
    hide Bits, Utf8Enc;
    var x: int, y: int, z: int, w: int := s[0] - 0xF0, s[1] - 0x80, s[2] - 0x80, s[3] - 0x80;
    BitsOf(s, 4, x, [y, z, w]);
    EncOfFour(x, y, z, w);
    assert s[..4] == [0xF0 + x, 0x80 + y, 0x80 + z, 0x80 + w];
  }

  lemma Utf8Decodes(c: int, rest: seq<byte>)
    requires Scalar(c)
    ensures Utf8Next(Utf8Enc(c) + rest) == Char(c, |Utf8Enc(c)|)
  {
    var s, n := Utf8Enc(c) + rest, |Utf8Enc(c)|;
    assert forall i :: 0 <= i < n ==> s[i] == Utf8Enc(c)[i];
    assert LeadLength(s[0]) == n;
    assert forall i :: 1 <= i < n ==> IsCont(s[i]);
    EncodedBits(c, s);
  }

  lemma EncodedBits(c: int, s: seq<byte>)
    requires Scalar(c) && |s| >= |Utf8Enc(c)| && forall i :: 0 <= i < |Utf8Enc(c)| ==> s[i] == Utf8Enc(c)[i]
    ensures Bits(s, |Utf8Enc(c)|, |Utf8Enc(c)|) == c >= MinOf(|Utf8Enc(c)|)
  {
    var n := |Utf8Enc(c)|;
    if n == 2 {
      BitsOf(s, 2, c / 64, [c % 64]);
    } else if n == 3 {
      BitsOf(s, 3, c / 4096, [c / 64 % 64, c % 64]);
      Regroup(c);
    } else if n == 4 {
      BitsOf(s, 4, c / 262144, [c / 4096 % 64, c / 64 % 64, c % 64]);
      Regroup(c);
    }
  }

  lemma Regroup(c: int)
    requires c >= 0
    ensures (c / 4096 * 64 + c / 64 % 64) * 64 + c % 64 == c
    ensures ((c / 262144 * 64 + c / 4096 % 64) * 64 + c / 64 % 64) * 64 + c % 64 == c
  {
    assert c / 64 / 64 == c / 4096 && c / 4096 / 64 == c / 262144;
  }

  /** The bits of a sequence, read off the lead byte and the groups in the bytes that follow. */
  lemma BitsOf(s: seq<byte>, n: nat, x: int, groups: seq<int>)
    requires 2 <= n <= 4 && n <= |s| && |groups| == n - 1 && 0 <= x < (if n == 2 then 32 else 16)
    requires s[0] == (if n == 2 then 0xC0 else if n == 3 then 0xE0 else 0xF0) + x
    requires forall i :: 0 <= i < n - 1 ==> 0 <= groups[i] < 64 && s[i + 1] == 0x80 + groups[i]
    ensures n == 2 ==> Bits(s, n, n) == x * 64 + groups[0]
    ensures n == 3 ==> Bits(s, n, n) == (x * 64 + groups[0]) * 64 + groups[1]
    ensures n == 4 ==> Bits(s, n, n) == ((x * 64 + groups[0]) * 64 + groups[1]) * 64 + groups[2]
  {
    assert Bits(s, n, 1) == LeadBits(s[0], n) == x;
    assert s[1] % 64 == groups[0] && Bits(s, n, 2) == x * 64 + groups[0];
    if n >= 3 {
      assert s[2] % 64 == groups[1] && Bits(s, n, 3) == Bits(s, n, 2) * 64 + groups[1];
    }
    if n == 4 {
      assert s[3] % 64 == groups[2] && Bits(s, n, 4) == Bits(s, n, 3) * 64 + groups[2];
    }
  }

  lemma Utf16DecodesTo(form: Form, s: seq<byte>)
    requires form != Utf8
    ensures var p := Utf16Next(form, s); p.Char? ==> s[..p.read] == Utf16Enc(form, p.c)
  {
  }

  lemma Utf16Decodes(form: Form, c: int, rest: seq<byte>)
    requires form != Utf8 && Scalar(c)
    ensures Utf16Next(form, Utf16Enc(form, c) + rest) == Char(c, |Utf16Enc(form, c)|)
  {
    var s := Utf16Enc(form, c) + rest;
    if c < 0x10000 {
      UnitOfBytes(form, c, s);
    } else {
      var u, v := 0xD800 + (c - 0x10000) / 1024, 0xDC00 + (c - 0x10000) % 1024;
      UnitOfBytes(form, u, s);
      UnitOfBytes(form, v, s[2..]);
    }
  }

  lemma UnitOfBytes(form: Form, u: int, s: seq<byte>)
    requires form != Utf8 && 0 <= u < 0x10000 && |s| >= 2
    ensures s[0] == UnitBytes(form, u)[0] && s[1] == UnitBytes(form, u)[1] ==> UnitAt(form, s) == u
  {
  }

  lemma DecodesTo(form: Form, s: seq<byte>)
    ensures var p := Next(form, s); p.Char? ==> s[..p.read] == Enc(form, p.c)
  {
    if form == Utf8 { Utf8DecodesTo(s); } else { Utf16DecodesTo(form, s); }
  }

  lemma Decodes(form: Form, c: int, rest: seq<byte>)
    requires Scalar(c)
    ensures Next(form, Enc(form, c) + rest) == Char(c, |Enc(form, c)|)
  {
    if form == Utf8 { Utf8Decodes(c, rest); } else { Utf16Decodes(form, c, rest); }
  }

  /** Decoding accepts exactly the encoded characters. */
  lemma NextIff(form: Form, s: seq<byte>, c: int)
    requires Scalar(c)
    ensures Next(form, s) == Char(c, |Enc(form, c)|) <==> Enc(form, c) <= s
  {
    hide Next, Enc;
    var n := |Enc(form, c)|;
    DecodesTo(form, s);
    if Enc(form, c) <= s {
      assert s == Enc(form, c) + s[n..];
      Decodes(form, c, s[n..]);
    }
  }

  /** More input changes neither a character nor an error. */
  lemma NextStays(form: Form, s: seq<byte>, t: seq<byte>)
    ensures Next(form, s).Char? ==> Next(form, s + t) == Next(form, s)
    ensures Next(form, s) == Bad ==> Next(form, s + t) == Bad
  {
    if Next(form, s).Char? {
      DecodesTo(form, s);
      var p := Next(form, s);
      hide Next, Enc;
      NextIff(form, s, p.c);
      NextIff(form, s + t, p.c);
    } else if Next(form, s) == Bad {
      if form == Utf8 { BadStays8(s, t); } else { BadStays16(form, s, t); }
    }
  }

  lemma BadStays8(s: seq<byte>, t: seq<byte>)
    requires Utf8Next(s) == Bad
    ensures Utf8Next(s + t) == Bad
  {
    var n := LeadLength(s[0]);
    if n > 0 {
      BitsKept(s, t, n, n);
      assert forall i :: 0 <= i < n ==> (s + t)[i] == s[i];
      if exists i | 1 <= i < n :: !IsCont(s[i]) {
        var i :| 1 <= i < n && !IsCont(s[i]);
        assert !IsCont((s + t)[i]);
      }
    }
  }

  lemma {:induction false} BitsKept(s: seq<byte>, t: seq<byte>, n: nat, k: nat)
    requires 1 <= k <= n <= |s|
    ensures Bits(s + t, n, k) == Bits(s, n, k)
  {
    if k > 1 { BitsKept(s, t, n, k - 1); }
  }

  lemma BadStays16(form: Form, s: seq<byte>, t: seq<byte>)
    requires Utf16Next(form, s) == Bad
    ensures Utf16Next(form, s + t) == Bad
  {
    assert UnitAt(form, s + t) == UnitAt(form, s);
    if |s| >= 4 {
      assert UnitAt(form, (s + t)[2..]) == UnitAt(form, s[2..]);
    }
  }

  // --- Texts --------------------------------------------------------------------------------------

  type CodePoint = c: int | Scalar(c)

  ghost function EncAll(form: Form, cs: seq<CodePoint>): (r: seq<byte>) {
    if cs == [] then [] else Enc(form, cs[0]) + EncAll(form, cs[1..])
  }

  ghost predicate WellFormed(form: Form, s: seq<byte>) {
    exists cs: seq<CodePoint> :: EncAll(form, cs) == s
  }

  lemma {:induction false} EncAllSum(form: Form, cs: seq<CodePoint>, ds: seq<CodePoint>)
    ensures EncAll(form, cs + ds) == EncAll(form, cs) + EncAll(form, ds)
  {
    if cs == [] {
      assert cs + ds == ds;
    } else {
      assert (cs + ds)[1..] == cs[1..] + ds;
      EncAllSum(form, cs[1..], ds);
    }
  }

  // --- Conversion ---------------------------------------------------------------------------------

  /** Why a conversion stops: the input is used up, ends within a character, is malformed, or the
      next character does not fit. */
  datatype Stop = Finished | Truncated | Malformed | NoRoom

  datatype Outcome = Outcome(chars: seq<CodePoint>, read: nat, stop: Stop)

  ghost function Cons(c: CodePoint, n: nat, r: Outcome): Outcome {
    Outcome([c] + r.chars, n + r.read, r.stop)
  }

  /** Converting `s` into at most `room` bytes. */
  ghost function Convert(from: Form, to: Form, s: seq<byte>, room: nat): (r: Outcome)
    ensures r.read <= |s|
    decreases |s|
  {
    match Next(from, s)
    case AtEnd => Outcome([], 0, Finished)
    case Short => Outcome([], 0, Truncated)
    case Bad => Outcome([], 0, Malformed)
    case Char(c, n) =>
      if |Enc(to, c)| > room then Outcome([], 0, NoRoom)
      else Cons(c, n, Convert(from, to, s[n..], room - |Enc(to, c)|))
  }

  /** The bytes written. */
  ghost function Out(to: Form, r: Outcome): seq<byte> { EncAll(to, r.chars) }

  /** What an outcome says of input and output. */
  ghost predicate Sound(from: Form, to: Form, s: seq<byte>, room: nat, r: Outcome) {
    && r.read <= |s| && s[..r.read] == EncAll(from, r.chars)
    && |Out(to, r)| <= room
    && match r.stop
       case Finished => r.read == |s|
       case Truncated => Next(from, s[r.read..]) == Short
       case Malformed => Next(from, s[r.read..]) == Bad
       case NoRoom => Next(from, s[r.read..]).Char? && |Out(to, r)| + |Enc(to, Next(from, s[r.read..]).c)| > room
  }

  /** Converting unrolled once. */
  lemma ConvertStep(from: Form, to: Form, s: seq<byte>, room: nat)
    ensures var p, r := Next(from, s), Convert(from, to, s, room);
            && (p == AtEnd ==> s == [] && r == Outcome([], 0, Finished))
            && (p == Short ==> r == Outcome([], 0, Truncated))
            && (p == Bad ==> r == Outcome([], 0, Malformed))
            && (p.Char? && |Enc(to, p.c)| > room ==> r == Outcome([], 0, NoRoom))
            && (p.Char? && |Enc(to, p.c)| <= room ==>
                  r == Cons(p.c, p.read, Convert(from, to, s[p.read..], room - |Enc(to, p.c)|)))
  {
    AtEndIff(from, s);
    hide Next, Enc;
  }

  lemma AtEndIff(form: Form, s: seq<byte>)
    ensures Next(form, s) == AtEnd <==> s == []
  {
  }

  lemma {:induction false} ConvertIsSound(from: Form, to: Form, s: seq<byte>, room: nat)
    ensures Sound(from, to, s, room, Convert(from, to, s, room))
    decreases |s|
  {
    hide Next, Enc, Convert;
    var p, r := Next(from, s), Convert(from, to, s, room);
    ConvertStep(from, to, s, room);
    if p.Char? && |Enc(to, p.c)| <= room {
      var rest, k := s[p.read..], |Enc(to, p.c)|;
      DecodesTo(from, s);
      ConvertIsSound(from, to, rest, room - k);
      SoundCons(from, to, s, room, Convert(from, to, rest, room - k));
    } else {
      assert s[0..] == s;
    }
  }

  lemma SoundCons(from: Form, to: Form, s: seq<byte>, room: nat, r: Outcome)
    requires Next(from, s).Char? && |Enc(to, Next(from, s).c)| <= room
    requires var p := Next(from, s);
             Sound(from, to, s[p.read..], room - |Enc(to, p.c)|, r) && s[..p.read] == Enc(from, p.c)
    ensures var p := Next(from, s); Sound(from, to, s, room, Cons(p.c, p.read, r))
  {
    hide Next, Enc;
    var p := Next(from, s);
    var rest, q := s[p.read..], Cons(p.c, p.read, r);
    assert s[..q.read] == s[..p.read] + rest[..r.read];
    assert s[q.read..] == rest[r.read..];
    assert q.chars[1..] == r.chars;
  }

  /** A conversion may be taken up again where it stopped, with more room, more input, or both:
      the result is that of one conversion. */
  lemma {:induction false} ConvertResumes(from: Form, to: Form, s: seq<byte>, t: seq<byte>, room: nat, room': nat)
    ensures var r := Convert(from, to, s, room);
            r.read <= |s| && |Out(to, r)| <= room &&
            Convert(from, to, s + t, |Out(to, r)| + room') == After(r, Convert(from, to, s[r.read..] + t, room'))
    decreases |s|
  {
    hide Next, Enc, Convert;
    var p, r := Next(from, s), Convert(from, to, s, room);
    ConvertStep(from, to, s, room);
    if p.Char? && |Enc(to, p.c)| <= room {
      var rest, k := s[p.read..], |Enc(to, p.c)|;
      var r' := Convert(from, to, rest, room - k);
      ConvertResumes(from, to, rest, t, room - k, room');
      NextStays(from, s, t);
      assert r.chars[1..] == r'.chars;
      assert (s + t)[p.read..] == rest + t && s[r.read..] == rest[r'.read..];
      ConvertStep(from, to, s + t, |Out(to, r)| + room');
      assert [p.c] + r'.chars + Convert(from, to, rest[r'.read..] + t, room').chars
          == [p.c] + (r'.chars + Convert(from, to, rest[r'.read..] + t, room').chars);
    } else {
      assert r.chars == [] && s[0..] == s;
      assert [] + Convert(from, to, s + t, room').chars == Convert(from, to, s + t, room').chars;
    }
  }

  ghost function After(r: Outcome, q: Outcome): Outcome {
    Outcome(r.chars + q.chars, r.read + q.read, q.stop)
  }

  /** A well-formed text is converted completely if there is room. */
  lemma {:induction false} ConvertAll(from: Form, to: Form, cs: seq<CodePoint>, room: nat)
    requires |EncAll(to, cs)| <= room
    ensures Convert(from, to, EncAll(from, cs), room) == Outcome(cs, |EncAll(from, cs)|, Finished)
    decreases |cs|
  {
    hide Next, Enc, Convert;
    var s := EncAll(from, cs);
    ConvertStep(from, to, s, room);
    AtEndIff(from, s);
    if cs != [] {
      Decodes(from, cs[0], EncAll(from, cs[1..]));
      assert s[|Enc(from, cs[0])|..] == EncAll(from, cs[1..]);
      ConvertAll(from, to, cs[1..], room - |Enc(to, cs[0])|);
      assert [cs[0]] + cs[1..] == cs;
    }
  }

  /** Acceptance is exact: with room for everything, a conversion finishes exactly on well-formed
      input. */
  lemma AcceptsIff(from: Form, to: Form, s: seq<byte>, room: nat)
    requires Convert(from, to, s, room).stop != NoRoom
    ensures Convert(from, to, s, room).stop == Finished <==> WellFormed(from, s)
  {
    hide Next, Enc, Convert;
    var r := Convert(from, to, s, room);
    ConvertIsSound(from, to, s, room);
    assert s[..|s|] == s;
    if WellFormed(from, s) {
      var cs: seq<CodePoint> :| EncAll(from, cs) == s;
      RoomEnough(from, to, cs, room);
    }
  }

  lemma {:induction false} RoomEnough(from: Form, to: Form, cs: seq<CodePoint>, room: nat)
    requires Convert(from, to, EncAll(from, cs), room).stop != NoRoom
    ensures Convert(from, to, EncAll(from, cs), room).stop == Finished
    decreases |cs|
  {
    hide Next, Enc, Convert;
    var s := EncAll(from, cs);
    ConvertStep(from, to, s, room);
    AtEndIff(from, s);
    if cs != [] {
      Decodes(from, cs[0], EncAll(from, cs[1..]));
      assert s[|Enc(from, cs[0])|..] == EncAll(from, cs[1..]);
      RoomEnough(from, to, cs[1..], room - |Enc(to, cs[0])|);
    }
  }

  /** Converting there and back gives the text again. */
  lemma RoundTrip(from: Form, to: Form, s: seq<byte>, room: nat, room': nat)
    requires Convert(from, to, s, room).stop == Finished && |s| <= room'
    ensures var there := Out(to, Convert(from, to, s, room));
            WellFormed(to, there) && Convert(to, from, there, room').stop == Finished &&
            Convert(to, from, there, room').read == |there| && Out(from, Convert(to, from, there, room')) == s
  {
    hide Next, Enc, Convert;
    var r := Convert(from, to, s, room);
    ConvertIsSound(from, to, s, room);
    assert s[..r.read] == s;
    ConvertAll(to, from, r.chars, room');
  }
}
