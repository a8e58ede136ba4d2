/** The converters between UTF-8 and UTF-16 of encoding.c, writing into a part of an array. */
module Transcoders {
  import opened Bytes
  import opened Unicode
  import opened ByteBuffer

  /** The result of a converter: the number of bytes written, or an error. */
  datatype Ret = Count(n: nat) | ErrSpace | ErrInput

  function RetOf(stop: Stop, written: nat): Ret {
    match stop
    case Finished => Count(written)
    case Truncated => Count(written)
    case Malformed => ErrInput
    case NoRoom => ErrSpace
  }

  // --- Decoding -----------------------------------------------------------------------------------

  /** The decoder inside UTF8ToUTF16LE and UTF8ToUTF16BE (encoding.c:2581-2628, 2777-2824). */
  method DecodeUtf8(input: seq<byte>, pos: nat) returns (p: Piece)
    requires pos < |input|
    ensures p == Utf8Next(input[pos..])
  {
    ghost var s := input[pos..];
    var lead: int := input[pos];
    if lead < 0x80 {
      return Char(lead, 1);
    }
    var c: int, len: nat, min;
    if lead < 0xE0 {
      if lead < 0xC2 {
        return Bad;
      }
      c, len, min := lead % 32, 2, 0x80;
    } else if lead < 0xF0 {
      c, len, min := lead % 16, 3, 0x800;
    } else {
      c, len, min := lead % 16, 4, 0x10000;
    }
    if |input| - pos < len {
      return Short;
    }
    var i := 1;
    while i < len
      invariant 1 <= i <= len <= |s| && c == Bits(s, len, i)
      invariant forall k :: 1 <= k < i ==> IsCont(s[k])
    {
      if !IsCont(input[pos + i]) {
        assert !IsCont(s[i]);
        return Bad;
      }
      c := c * 64 + input[pos + i] % 64;
      i := i + 1;
    }
    if c < min || 0xD800 <= c <= 0xDFFF || c > 0x10FFFF {
      return Bad;
    }
    p := Char(c, len);
  }

  /** The decoder inside UTF16LEToUTF8 and UTF16BEToUTF8 (encoding.c:2501-2539, 2698-2736). */
  method DecodeUtf16(form: Form, input: seq<byte>, pos: nat) returns (p: Piece)
    requires form != Utf8 && pos < |input|
    ensures p == Utf16Next(form, input[pos..])
  {
    if |input| - pos < 2 {
      return Short;
    }
    var c := UnitAt(form, input[pos..]);
    if c < 0xD800 || c > 0xDFFF {
      return Char(c, 2);
    }
    if c >= 0xDC00 {
      return Bad;
    }
    if |input| - pos < 4 {
      return Short;
    }
    assert input[pos..][2..] == input[pos + 2..];
    var d := UnitAt(form, input[pos + 2..]);
    if d < 0xDC00 || d > 0xDFFF {
      return Bad;
    }
    p := Char(c * 1024 + d - (0xD800 * 1024 + 0xDC00 - 0x10000), 4);
  }

  method Decode(form: Form, input: seq<byte>, pos: nat) returns (p: Piece)
    requires pos <= |input|
    ensures p == Next(form, input[pos..])
  {
    if pos == |input| {
      return AtEnd;
    }
    if form == Utf8 {
      p := DecodeUtf8(input, pos);
    } else {
      p := DecodeUtf16(form, input, pos);
    }
  }

  // --- Converting ---------------------------------------------------------------------------------

  lemma WrittenMore(m: seq<byte>, at: nat, a: seq<byte>, b: seq<byte>)
    requires at + |a| + |b| <= |m|
    ensures Written(Written(m, at, a), at + |a|, b) == Written(m, at, a + b)
  {
  }

  /** What has been converted so far, and what is left to do. */
  ghost predicate Progress(from: Form, to: Form, input: seq<byte>, outlen: nat, cs: seq<CodePoint>, pos: nat, n: nat) {
    && pos <= |input| && n <= outlen && n == |EncAll(to, cs)|
    && Convert(from, to, input, outlen) ==
      After(Outcome(cs, pos, Finished), Convert(from, to, input[pos..], outlen - n))
  }

  lemma NoProgressYet(from: Form, to: Form, input: seq<byte>, outlen: nat)
    ensures Progress(from, to, input, outlen, [], 0, 0)
  {
    assert input[0..] == input && [] + Convert(from, to, input, outlen).chars == Convert(from, to, input, outlen).chars;
  }

  lemma ProgressStep(from: Form, to: Form, input: seq<byte>, outlen: nat, cs: seq<CodePoint>, pos: nat, n: nat)
    requires Progress(from, to, input, outlen, cs, pos, n)
    ensures var p := Next(from, input[pos..]);
            p.Char? && |Enc(to, p.c)| <= outlen - n ==>
              EncAll(to, cs + [p.c]) == EncAll(to, cs) + Enc(to, p.c) &&
              Progress(from, to, input, outlen, cs + [p.c], pos + p.read, n + |Enc(to, p.c)|)
  {
    hide Next, Enc, Convert;
    var p := Next(from, input[pos..]);
    ConvertStep(from, to, input[pos..], outlen - n);
    if p.Char? && |Enc(to, p.c)| <= outlen - n {
      EncAllSum(to, cs, [p.c]);
      assert EncAll(to, [p.c]) == Enc(to, p.c) by {
        assert EncAll(to, [p.c][1..]) == [];
      }
      assert input[pos..][p.read..] == input[pos + p.read..];
      var rest := Convert(from, to, input[pos + p.read..], outlen - n - |Enc(to, p.c)|).chars;
      assert cs + ([p.c] + rest) == cs + [p.c] + rest;
    }
  }

  lemma ProgressEnds(from: Form, to: Form, input: seq<byte>, outlen: nat, cs: seq<CodePoint>, pos: nat, n: nat)
    requires Progress(from, to, input, outlen, cs, pos, n)
    ensures var p, r := Next(from, input[pos..]), Convert(from, to, input, outlen);
            !(p.Char? && |Enc(to, p.c)| <= outlen - n) ==>
              r == Outcome(cs, pos, if p == AtEnd then Finished else if p == Short then Truncated
                           else if p == Bad then Malformed else NoRoom)
  {
    hide Next, Enc, Convert;
    ConvertStep(from, to, input[pos..], outlen - n);
    assert cs + [] == cs;
  }

  /** UTF16LEToUTF8, UTF16BEToUTF8, UTF8ToUTF16LE and UTF8ToUTF16BE: the conversion of as much of
      the input as fits, written to out[at..] and nowhere else. */
  method Transcode(from: Form, to: Form, out: array<byte>, at: nat, outlen: nat, input: seq<byte>)
    returns (ret: Ret, written: nat, read: nat)
    requires at + outlen <= out.Length && (from == Utf8) != (to == Utf8)
    modifies out
    ensures var r := Convert(from, to, input, outlen);
            && read == r.read <= |input| && written == |Out(to, r)| <= outlen
            && out[..] == Written(old(out[..]), at, Out(to, r))
            && ret == RetOf(r.stop, written)
  {
    hide Next, Enc, Convert, Progress, Written, EncAll, Utf8Next, Utf16Next;
    ghost var before, cs: seq<CodePoint> := out[..], [];
    written, read := 0, 0;
    NoProgressYet(from, to, input, outlen);
    NothingWritten(before, at, to);
    while true
      invariant Progress(from, to, input, outlen, cs, read, written) && read <= |input| &&
                written == |EncAll(to, cs)| <= outlen
      invariant out[..] == Written(before, at, EncAll(to, cs))
      decreases |input| - read
    {
      var p := Decode(from, input, read);
      ProgressStep(from, to, input, outlen, cs, read, written);
      ProgressEnds(from, to, input, outlen, cs, read, written);
      match p {
        case AtEnd => return Count(written), written, read;
        case Short => return Count(written), written, read;
        case Bad => return ErrInput, written, read;
        case Char(c, n) =>
          var bytes := Enc(to, c);
          if outlen - written < |bytes| {
            return ErrSpace, written, read;
          }
          Put(out, at + written, bytes);
          WrittenMore(before, at, EncAll(to, cs), bytes);
          cs := cs + [c];
          written, read := written + |bytes|, read + n;
      }
    }
  }

  lemma NothingWritten(m: seq<byte>, at: nat, to: Form)
    requires at <= |m|
    ensures EncAll(to, []) == [] && Written(m, at, EncAll(to, [])) == m
  {
  }
}
