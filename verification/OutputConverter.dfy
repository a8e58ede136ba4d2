/** Output conversion to ASCII and ISO Latin 1 (encoding.c): asciiToAscii, UTF8ToLatin1 and
    xmlCharEncOutput, which replaces what the encoding lacks by character references. */
module OutputConverter {
  import opened Bytes
  import opened Unicode
  import opened ByteBuffer
  import opened Transcoders
  import opened CharRef

  datatype Target = Ascii | Latin1

  datatype OutCode = Fine | NoMemory | BadInput | Internal

  function Limit(t: Target): int { if t == Ascii then 0x80 else 0x100 }

  /** A character in the target encoding: itself, or a reference to it. */
  ghost function Image(t: Target, c: int): seq<byte>
    requires Scalar(c)
  {
    if c < Limit(t) then [c] else Reference(c)
  }

  ghost function ImageAll(t: Target, cs: seq<CodePoint>): seq<byte> {
    if cs == [] then [] else ImageAll(t, cs[..|cs| - 1]) + Image(t, cs[|cs| - 1])
  }

  // --- Converters -----------------------------------------------------------------------------------

  /** The first `k` characters of the text take `pos` bytes, and all belong to the target. */
  ghost predicate Narrow(t: Target, text: seq<CodePoint>, k: nat, pos: nat, bytes: seq<byte>) {
    && k <= |text| && pos == |EncAll(Utf8, text[..k])| && |bytes| == k
    && forall i :: 0 <= i < k ==> text[i] < Limit(t) && bytes[i] == text[i]
  }

  /** What a converter did: bytes read, bytes written, and why it stopped. */
  ghost predicate Stopped(t: Target, input: seq<byte>, text: seq<CodePoint>, k: nat, room: nat, read: nat, ret: Ret) {
    && read <= |input|
    && match ret
       case Count(_) => read == |input| || (t == Latin1 && read == |input| - 1 && k < |text| && text[k] >= 0x80)
       case ErrSpace => k == room && read < |input|
       case ErrInput => read < |input| && k < |text| && text[k] >= Limit(t)
  }

  /** The text at a position: the bytes of its next character. */
  lemma {:induction false} TextAt(text: seq<CodePoint>, k: nat)
    requires k <= |text|
    ensures EncAll(Utf8, text) == EncAll(Utf8, text[..k]) + EncAll(Utf8, text[k..])
    ensures k < |text| ==> EncAll(Utf8, text[k..]) == Utf8Enc(text[k]) + EncAll(Utf8, text[k + 1..])
    ensures k < |text| ==> EncAll(Utf8, text[..k + 1]) == EncAll(Utf8, text[..k]) + Utf8Enc(text[k])
  {
    assert text == text[..k] + text[k..];
    EncAllSum(Utf8, text[..k], text[k..]);
    if k < |text| {
      assert text[k..][1..] == text[k + 1..];
      assert text[..k + 1] == text[..k] + [text[k]];
      EncAllSum(Utf8, text[..k], [text[k]]);
      assert EncAll(Utf8, [text[k]]) == Utf8Enc(text[k]) + EncAll(Utf8, [text[k]][1..]);
      assert [text[k]][1..] == [];
    }
  }

  /** What the first byte of a character says of it. */
  lemma LeadSays(c: CodePoint)
    ensures var b: int := Utf8Enc(c)[0];
            && (b < 0x80 <==> c < 0x80) && (b < 0x80 ==> b == c && |Utf8Enc(c)| == 1)
            && (0xC2 <= b <= 0xC3 <==> 0x80 <= c < 0x100)
            && (0xC2 <= b <= 0xC3 ==> |Utf8Enc(c)| == 2 && (b * 64) % 256 + Utf8Enc(c)[1] % 64 == c)
  {
  }

  /** The character at a position of the input, as far as the input goes. */
  lemma AtPosition(input: seq<byte>, text: seq<CodePoint>, k: nat, pos: nat)
    requires input <= EncAll(Utf8, text) && k <= |text| && pos == |EncAll(Utf8, text[..k])| < |input|
    ensures k < |text| && input[pos] == Utf8Enc(text[k])[0]
    ensures pos + 1 < |input| && |Utf8Enc(text[k])| >= 2 ==> input[pos + 1] == Utf8Enc(text[k])[1]
    ensures |EncAll(Utf8, text[..k + 1])| == pos + |Utf8Enc(text[k])|
  {
    hide Utf8Enc;
    TextAt(text, k);
    var all := EncAll(Utf8, text);
    assert text[..|text|] == text;
    if k < |text| {
      assert all[pos] == Utf8Enc(text[k])[0];
    }
  }

  /** asciiToAscii */
  method AsciiToAscii(out: array<byte>, at: nat, outlen: nat, input: seq<byte>, ghost text: seq<CodePoint>)
    returns (ret: Ret, n: nat)
    requires at + outlen <= out.Length
    modifies out
    ensures n <= outlen && n <= |input| && out[..] == Written(old(out[..]), at, input[..n])
    ensures forall i :: 0 <= i < n ==> input[i] < 0x80
    ensures match ret
            case Count(_) => n == |input|
            case ErrSpace => n == outlen < |input|
            case ErrInput => n < |input| && input[n] >= 0x80
    ensures input <= EncAll(Utf8, text) ==>
              Narrow(Ascii, text, n, n, input[..n]) && Stopped(Ascii, input, text, n, outlen, n, ret)
  {
    hide EncAll, Utf8Enc, Written;
    var inlen := |input|;
    ret := Count(inlen);
    if outlen < inlen {
      inlen := outlen;
      ret := ErrSpace;
    }
    ghost var before := out[..];
    n := 0;
    NarrowStarts(Ascii, text);
    WrittenNothing(before, at);
    assert input[..0] == [];
    while n < inlen
      invariant 0 <= n <= inlen && out[..] == Written(before, at, input[..n])
      invariant forall i :: 0 <= i < n ==> input[i] < 0x80
      invariant input <= EncAll(Utf8, text) ==> Narrow(Ascii, text, n, n, input[..n])
    {
      if input <= EncAll(Utf8, text) {
        AtPosition(input, text, n, n);
        LeadSays(text[n]);
      }
      if input[n] >= 0x80 {
        return ErrInput, n;
      }
      Put(out, at + n, [input[n]]);
      WrittenMore(before, at, input[..n], [input[n]]);
      assert input[..n + 1] == input[..n] + [input[n]];
      n := n + 1;
    }
  }

  lemma NarrowStarts(t: Target, text: seq<CodePoint>)
    ensures Narrow(t, text, 0, 0, [])
  {
  }

  lemma WrittenNothing(m: seq<byte>, at: nat)
    requires at <= |m|
    ensures Written(m, at, []) == m
  {
  }

  /** UTF8ToLatin1: for UTF-8, the characters converted are those of Latin 1. */
  method Utf8ToLatin1(out: array<byte>, at: nat, outlen: nat, input: seq<byte>, ghost text: seq<CodePoint>)
    returns (ret: Ret, written: nat, read: nat, ghost bytes: seq<byte>)
    requires at + outlen <= out.Length
    modifies out
    ensures written == |bytes| <= outlen && written <= read <= |input| && out[..] == Written(old(out[..]), at, bytes)
    ensures match ret
            case Count(_) => read == |input| || (read == |input| - 1 && 0xC2 <= input[read] <= 0xC3)
            case ErrSpace => written == outlen && read < |input|
            case ErrInput => read < |input| && input[read] >= 0x80 && !(0xC2 <= input[read] <= 0xC3)
    ensures input <= EncAll(Utf8, text) ==>
              && Narrow(Latin1, text, written, read, bytes)
              && Stopped(Latin1, input, text, written, outlen, read, ret)
  {
    hide EncAll, Utf8Enc, Written;
    ghost var before := out[..];
    written, read, bytes := 0, 0, [];
    NarrowStarts(Latin1, text);
    WrittenNothing(before, at);
    while read < |input|
      invariant written == |bytes| <= outlen && written <= read <= |input| && out[..] == Written(before, at, bytes)
      invariant input <= EncAll(Utf8, text) ==> Narrow(Latin1, text, written, read, bytes)
    {
      if written >= outlen {
        return ErrSpace, written, read, bytes;
      }
      if input <= EncAll(Utf8, text) {
        AtPosition(input, text, written, read);
        LeadSays(text[written]);
      }
      var c: int, len := input[read], 1;
      if c >= 0x80 {
        if c < 0xC2 || c > 0xC3 {
          return ErrInput, written, read, bytes;
        }
        if |input| - read < 2 {
          break;
        }
        c, len := (c * 64) % 256 + input[read + 1] % 64, 2;
      }
      Put(out, at + written, [c]);
      WrittenMore(before, at, bytes, [c]);
      bytes := bytes + [c];
      written, read := written + 1, read + len;
    }
    ret := Count(written);
  }

  // --- Images -----------------------------------------------------------------------------------------

  lemma ImageNext(t: Target, text: seq<CodePoint>, k: nat)
    requires k < |text|
    ensures ImageAll(t, text[..k + 1]) == ImageAll(t, text[..k]) + Image(t, text[k])
  {
    assert text[..k + 1][..k] == text[..k];
  }

  /** Characters of the target are their own image. */
  lemma {:induction false} NarrowImage(t: Target, cs: seq<CodePoint>, part: seq<CodePoint>, bytes: seq<byte>)
    requires |bytes| == |part| && forall i :: 0 <= i < |part| ==> part[i] < Limit(t) && bytes[i] == part[i]
    ensures ImageAll(t, cs + part) == ImageAll(t, cs) + bytes
    decreases |part|
  {
    hide Reference, ImageAll;
    var n := |part| - 1;
    if n < 0 {
      assert cs + part == cs && ImageAll(t, cs) + bytes == ImageAll(t, cs);
    } else {
      NarrowImage(t, cs, part[..n], bytes[..n]);
      var all := cs + part;
      assert all[..|cs| + n] == cs + part[..n] && all[..|cs| + n + 1] == all && all[|cs| + n] == part[n];
      ImageNext(t, all, |cs| + n);
      assert bytes == bytes[..n] + [bytes[n]];
    }
  }

  /** What the input buffer has lost is a prefix of the text, and what the output buffer has gained
      is the image of that prefix. */
  ghost predicate OutState(t: Target, text: seq<CodePoint>, k: nat, input0: seq<byte>, input: seq<byte>,
                           output0: seq<byte>, output: seq<byte>) {
    && k <= |text| && input0 <= EncAll(Utf8, text)
    && input0 == EncAll(Utf8, text[..k]) + input
    && output == output0 + ImageAll(t, text[..k])
  }

  lemma OutStarts(t: Target, text: seq<CodePoint>, input0: seq<byte>, output0: seq<byte>)
    requires input0 <= EncAll(Utf8, text)
    ensures OutState(t, text, 0, input0, input0, output0, output0)
  {
    assert output0 + [] == output0;
  }

  lemma InputIsRest(t: Target, text: seq<CodePoint>, k: nat, input0: seq<byte>, input: seq<byte>, output0: seq<byte>,
                    output: seq<byte>)
    requires OutState(t, text, k, input0, input, output0, output)
    ensures input <= EncAll(Utf8, text[k..])
  {
    TextAt(text, k);
    hide EncAll, ImageAll;
    var a, b := EncAll(Utf8, text[..k]), EncAll(Utf8, text[k..]);
    assert forall i :: 0 <= i < |input| ==> input[i] == input0[|a| + i] == (a + b)[|a| + i];
  }

  /** After a chunk of which `read` bytes were converted to `bytes`. */
  lemma ChunkDone(t: Target, text: seq<CodePoint>, k: nat, input0: seq<byte>, input: seq<byte>, output0: seq<byte>,
                  output: seq<byte>,
                  n: nat, read: nat, bytes: seq<byte>)
    requires OutState(t, text, k, input0, input, output0, output) && k <= |text| &&
             Narrow(t, text[k..], n, read, bytes) && read <= |input|
    ensures OutState(t, text, k + n, input0, input[read..], output0, output + bytes)
  {
    hide ImageAll, EncAll, Narrow;
    NarrowRest(t, text, k, n, read, bytes);
    InputMoves(t, text, k, input0, input, output0, output, n, read);
    assert output0 + ImageAll(t, text[..k]) + bytes == output0 + (ImageAll(t, text[..k]) + bytes);
  }

  lemma NarrowRest(t: Target, text: seq<CodePoint>, k: nat, n: nat, read: nat, bytes: seq<byte>)
    requires k <= |text| && Narrow(t, text[k..], n, read, bytes)
    ensures k + n <= |text| && read == |EncAll(Utf8, text[k..][..n])| &&
            ImageAll(t, text[..k + n]) == ImageAll(t, text[..k]) + bytes
  {
    hide ImageAll, EncAll;
    var part := text[k..][..n];
    assert forall i :: 0 <= i < n ==> part[i] == text[k..][i];
    NarrowImage(t, text[..k], part, bytes);
    assert text[..k] + part == text[..k + n];
  }

  lemma InputMoves(t: Target, text: seq<CodePoint>, k: nat, input0: seq<byte>, input: seq<byte>, output0: seq<byte>,
                   output: seq<byte>,
                   n: nat, read: nat)
    requires OutState(t, text, k, input0, input, output0, output) && k + n <= |text|
    requires read == |EncAll(Utf8, text[k..][..n])| <= |input|
    ensures input0 == EncAll(Utf8, text[..k + n]) + input[read..]
  {
    hide ImageAll, EncAll;
    var rest := text[k..];
    assert text[..k + n] == text[..k] + rest[..n];
    EncAllSum(Utf8, text[..k], rest[..n]);
    InputIsRest(t, text, k, input0, input, output0, output);
    PrefixOfRest(rest, n, read, input);
    MovePast(EncAll(Utf8, text[..k]), EncAll(Utf8, rest[..n]), input[read..], input0, input);
  }

  lemma PrefixOfRest(text: seq<CodePoint>, n: nat, read: nat, input: seq<byte>)
    requires n <= |text| && read == |EncAll(Utf8, text[..n])| <= |input| && input <= EncAll(Utf8, text)
    ensures input[..read] == EncAll(Utf8, text[..n])
  {
    TextAt(text, n);
    hide EncAll;
    assert input[..read] == EncAll(Utf8, text)[..read];
  }

  /** The next character of the input, if all of it is there. */
  lemma NextOfText(text: seq<CodePoint>, input: seq<byte>)
    requires input <= EncAll(Utf8, text)
    ensures var p := Next(Utf8, input);
            p.Char? ==> text != [] && p.c == text[0] && p.read == |Utf8Enc(text[0])| <= |input|
  {
    hide Utf8Next, Utf8Enc;
    var all := EncAll(Utf8, text);
    assert all == input + all[|input|..];
    NextStays(Utf8, input, all[|input|..]);
    AtEndIff(Utf8, all);
    if text != [] {
      Decodes(Utf8, text[0], EncAll(Utf8, text[1..]));
    }
  }

  /** After a character was replaced by a reference. */
  lemma ReferenceDone(t: Target, text: seq<CodePoint>, k: nat, input0: seq<byte>, input: seq<byte>,
                      output0: seq<byte>, output: seq<byte>)
    requires OutState(t, text, k, input0, input, output0, output) && k < |text| && text[k] >= Limit(t)
    requires |Utf8Enc(text[k])| <= |input|
    ensures OutState(t, text, k + 1, input0, input[|Utf8Enc(text[k])|..], output0, output + Reference(text[k]))
  {
    hide Utf8Enc, Reference;
    TextAt(text, k);
    ImageNext(t, text, k);
    InputIsRest(t, text, k, input0, input, output0, output);
    hide EncAll, ImageAll;
    var a, e, b := EncAll(Utf8, text[..k]), Utf8Enc(text[k]), EncAll(Utf8, text[k + 1..]);
    MovePast(a, e, b, input0, input);
    assert output0 + ImageAll(t, text[..k]) + Reference(text[k]) ==
           output0 + (ImageAll(t, text[..k]) + Reference(text[k]));
  }

  lemma MovePast(a: seq<byte>, e: seq<byte>, b: seq<byte>, input0: seq<byte>, input: seq<byte>)
    requires input0 == a + input && input <= e + b && |e| <= |input|
    ensures input0 == a + e + input[|e|..]
  {
    assert input[..|e|] == (e + b)[..|e|] == e;
    assert input == input[..|e|] + input[|e|..];
  }

  // --- xmlCharEncOutput ---------------------------------------------------------------------------------

  class OutputBuffer {
    const buffer: Buf
    const conv: Buf
    const target: Target

    constructor (buffer: Buf, conv: Buf, target: Target)
      requires buffer.Valid() && conv.Valid() && buffer != conv && buffer.mem != conv.mem && !conv.isStatic &&
               !buffer.overflow
      ensures Valid() && this.buffer == buffer && this.conv == conv && this.target == target
    {
      this.buffer, this.conv, this.target := buffer, conv, target;
    }

    ghost predicate Valid()
      reads this, buffer, buffer.mem, conv, conv.mem
    {
      buffer.Valid() && conv.Valid() && buffer != conv && buffer.mem != conv.mem && !conv.isStatic && !buffer.overflow
    }

    /** Where the two buffers stand. */
    ghost predicate State(text: seq<CodePoint>, k: nat, input0: seq<byte>, output0: seq<byte>)
      requires Valid()
      reads this, buffer, buffer.mem, conv, conv.mem
    {
      OutState(target, text, k, input0, buffer.Contents(), output0, conv.Contents())
    }
  }

  /** xmlEncOutputChunk for the two encodings: the bytes go behind the content of `out`. */
  method OutputChunk(t: Target, out: Buf, room: nat, data: seq<byte>, ghost text: seq<CodePoint>)
    returns (ret: Ret, written: nat, read: nat, ghost bytes: seq<byte>)
    requires out.Valid() && room <= (if out.overflow then 0 else out.size - out.use) && data <= EncAll(Utf8, text)
    modifies out.mem
    ensures out.Sized() && out.Contents() == old(out.Contents()) && (written == 0 ==> out.Valid())
    ensures written == |bytes| <= room && written <= read && out.Behind(written) == bytes
    ensures Narrow(t, text, written, read, bytes) && Stopped(t, data, text, written, room, read, ret)
  {
    hide EncAll, Narrow, Stopped, Written;
    ghost var before, at := out.mem[..], out.start + out.use;
    if t == Ascii {
      ret, written := AsciiToAscii(out.mem, out.start + out.use, room, data, text);
      read, bytes := written, data[..written];
    } else {
      ret, written, read, bytes := Utf8ToLatin1(out.mem, out.start + out.use, room, data, text);
      NarrowLength(t, text, written, read, bytes);
    }
    WrittenAt(before, at, bytes, at, at + written);
    WrittenAt(before, at, bytes, out.start, at);
    assert out.Behind(written) == out.mem[..][at..at + written];
    assert out.Contents() == out.mem[..][out.start..at] == before[out.start..at];
    if written == 0 {
      WrittenNothing(before, at);
      assert out.mem[at] == out.mem[..][at] == before[at];
    }
  }

  lemma NarrowLength(t: Target, text: seq<CodePoint>, k: nat, pos: nat, bytes: seq<byte>)
    requires Narrow(t, text, k, pos, bytes)
    ensures |bytes| == k
  {
  }

  /** Room for four bytes of output per byte of input (encoding.c:2017-2025). */
  method MakeRoom(conv: Buf, toconv: nat) returns (ok: bool, room: nat)
    requires conv.Valid() && !conv.isStatic && toconv <= 65536
    modifies conv, conv.mem
    ensures conv.Valid() && (conv.mem == old(conv.mem) || fresh(conv.mem)) && conv.Contents() == old(conv.Contents())
    ensures if ok then toconv <= room <= (if conv.overflow then 0 else conv.size - conv.use) else conv.overflow
  {
    ok := true;
    room := conv.Avail();
    if toconv * 4 >= room {
      ok := conv.Grow(toconv * 4);
      if !ok {
        return;
      }
      room := conv.Avail();
    }
    if room > 262144 {
      room := 262144;
    }
  }

  /** One conversion of up to 64 kB (encoding.c:2014-2033). There is always room for it. */
  method ConvertRound(output: OutputBuffer, ghost text: seq<CodePoint>, ghost k: nat, ghost input0: seq<byte>,
                      ghost output0: seq<byte>)
    returns (ok: bool, ret: Ret, written: nat, ghost k': nat)
    requires output.Valid() && output.State(text, k, input0, output0)
    modifies output.buffer, output.conv, output.conv.mem
    ensures output.Valid() && output.State(text, k', input0, output0)
    ensures output.conv.mem == old(output.conv.mem) || fresh(output.conv.mem)
    ensures output.buffer.mem == old(output.buffer.mem) && output.buffer.use <= old(output.buffer.use)
    ensures if ok then ret != ErrSpace else output.conv.overflow
    ensures ok && ret == ErrInput ==> k' < |text| && text[k'] >= Limit(output.target) && output.buffer.use > 0
    ensures ok && ret.Count? ==>
              output.buffer.use <= 1 + if old(output.buffer.use) > 65536 then old(output.buffer.use) - 65536 else 0
    ensures |output.conv.Contents()| == |old(output.conv.Contents())| + written
  {
    hide OutState;
    k', written, ret := k, 0, Count(0);
    var toconv := output.buffer.Use();
    if toconv > 65536 {
      toconv := 65536;
    }
    var room;
    ok, room := MakeRoom(output.conv, toconv);
    if ok {
      ret, written, k' := ConvertInto(output, toconv, room, text, k, input0, output0);
    }
  }

  method ConvertInto(output: OutputBuffer, toconv: nat, room: nat, ghost text: seq<CodePoint>, ghost k: nat,
                     ghost input0: seq<byte>, ghost output0: seq<byte>)
    returns (ret: Ret, written: nat, ghost k': nat)
    requires output.Valid() && output.State(text, k, input0, output0) && toconv <= output.buffer.use
    requires toconv <= room <= (if output.conv.overflow then 0 else output.conv.size - output.conv.use)
    modifies output.buffer, output.conv`use, output.conv.mem
    ensures output.Valid() && output.State(text, k', input0, output0)
    ensures output.buffer.mem == old(output.buffer.mem)
    ensures old(output.buffer.use) - toconv <= output.buffer.use <= old(output.buffer.use)
    ensures ret != ErrSpace
    ensures ret == ErrInput ==> k' < |text| && text[k'] >= Limit(output.target) && output.buffer.use > 0
    ensures ret.Count? ==> output.buffer.use <= old(output.buffer.use) - toconv + 1
    ensures |output.conv.Contents()| == |old(output.conv.Contents())| + written
  {
    hide EncAll, ImageAll, OutState, Narrow, Stopped;
    var conv := output.conv;
    ghost var data, done := output.buffer.Contents(), conv.Contents();
    InputIsRest(output.target, text, k, input0, data, output0, done);
    KBound(output.target, text, k, input0, data, output0, done);
    var chunk := Head(output.buffer, toconv);
    var read;
    ghost var bytes;
    ret, written, read, bytes := OutputChunk(output.target, conv, room, chunk, text[k..]);
    StopMeans(output.target, chunk, text, k, written, room, read, ret);
    ChunkDone(output.target, text, k, input0, data, output0, done, written, read, bytes);
    k' := k + written;
    Commit(output, read, written, done, bytes);
    assert output.buffer.Contents() == data[read..];
  }

  /** The first bytes of a buffer. */
  method Head(buffer: Buf, n: nat) returns (s: seq<byte>)
    requires buffer.Valid() && n <= buffer.use
    ensures s == buffer.Contents()[..n]
  {
    s := buffer.mem[buffer.start..buffer.start + n];
  }

  /** xmlBufShrink and xmlBufAddLen (encoding.c:2031-2032). */
  method Commit(output: OutputBuffer, read: nat, written: nat, ghost done: seq<byte>, ghost bytes: seq<byte>)
    requires output.buffer.Valid() && output.conv.Sized() && output.buffer != output.conv &&
             output.buffer.mem != output.conv.mem
    requires !output.conv.isStatic && !output.buffer.overflow
    requires read <= output.buffer.use && written <= output.conv.size - output.conv.use &&
             (output.conv.overflow ==> written == 0 && output.conv.Valid())
    requires output.conv.Contents() == done && output.conv.Behind(written) == bytes && |bytes| == written
    modifies output.buffer, output.conv`use, output.conv.mem
    ensures output.Valid() && output.buffer.mem == old(output.buffer.mem)
    ensures output.buffer.Contents() == old(output.buffer.Contents())[read..] && output.conv.Contents() == done + bytes
    ensures |output.conv.Contents()| == |done| + written
  {
    var removed := output.buffer.Shrink(read);
    var ok := output.conv.AddLen(written);
    if !ok {
      assert bytes == [] && done + bytes == done;
    }
  }

  lemma KBound(t: Target, text: seq<CodePoint>, k: nat, input0: seq<byte>, input: seq<byte>, output0: seq<byte>,
               output: seq<byte>)
    requires OutState(t, text, k, input0, input, output0, output)
    ensures k <= |text|
  {
  }

  lemma StopMeans(t: Target, chunk: seq<byte>, text: seq<CodePoint>, k: nat, n: nat, room: nat, read: nat, ret: Ret)
    requires k <= |text| && Stopped(t, chunk, text[k..], n, room, read, ret) && n <= read
    ensures read <= |chunk|
    ensures |chunk| <= room ==> ret != ErrSpace
    ensures ret == ErrInput ==> read < |chunk| && k + n < |text| && text[k + n] >= Limit(t)
    ensures ret.Count? ==> |chunk| - read <= 1
  {
  }

  /** An unrepresentable character replaced by its reference (encoding.c:2041-2071). */
  method ReferenceRound(output: OutputBuffer, ghost text: seq<CodePoint>, ghost k: nat, ghost input0: seq<byte>,
                        ghost output0: seq<byte>)
    returns (code: OutCode, written: nat, ghost k': nat)
    requires output.Valid() && output.State(text, k, input0, output0)
    requires k < |text| && text[k] >= Limit(output.target)
    modifies output.buffer, output.conv, output.conv.mem
    ensures output.Valid() && output.State(text, k', input0, output0)
    ensures output.conv.mem == old(output.conv.mem) || fresh(output.conv.mem)
    ensures output.buffer.mem == old(output.buffer.mem)
    ensures code == Fine ==> output.buffer.use < old(output.buffer.use)
    ensures code != Fine ==> output.buffer.use <= old(output.buffer.use) && written == 0
    ensures code == BadInput ==> output.buffer.use == 0 || Next(Utf8, output.buffer.Contents()) == Short
    ensures code == Internal ==> output.conv.overflow
    ensures code != NoMemory
    ensures |output.conv.Contents()| == |old(output.conv.Contents())| + written
  {
    hide OutState, EncAll, ImageAll, Next, Utf8Enc, Reference;
    k', written := k, 0;
    ghost var content, done := output.buffer.Contents(), output.conv.Contents();
    InputIsRest(output.target, text, k, input0, content, output0, done);
    RestNotBad(text, k, content);
    NextOfText(text[k..], content);
    var p := GetUTF8Char(output.buffer);
    if !p.Char? {
      return BadInput, 0, k;
    }
    ReferenceDone(output.target, text, k, input0, content, output0, done);
    var ok, len := Replace(output, p.c, p.read);
    if !ok {
      return Internal, 0, k;
    }
    k', written, code := k + 1, len, Fine;
  }

  /** xmlGetUTF8Char at the start of the content */
  method GetUTF8Char(input: Buf) returns (p: Piece)
    requires input.Valid()
    ensures p == Next(Utf8, input.Contents())
  {
    var content := input.mem[input.start..input.start + input.use];
    assert content[0..] == content;
    p := Decode(Utf8, content, 0);
  }

  method Replace(output: OutputBuffer, c: nat, read: nat) returns (ok: bool, len: nat)
    requires output.Valid() && c <= 0x10FFFF && 0 < read <= output.buffer.use
    modifies output.buffer, output.conv, output.conv.mem
    ensures output.Valid() && (output.conv.mem == old(output.conv.mem) || fresh(output.conv.mem))
    ensures output.buffer.mem == old(output.buffer.mem) && len == |Reference(c)|
    ensures output.conv.Contents() == if ok then old(output.conv.Contents()) + Reference(c)
            else old(output.conv.Contents())
    ensures output.buffer.Contents() == old(output.buffer.Contents())[if ok then read else 0..]
    ensures !ok ==> output.conv.overflow
  {
    hide Reference;
    var charref := SerializeDecCharRef(c);
    len := |charref|;
    ok := PutReference(output, charref, c);
    if ok {
      var removed := output.buffer.Shrink(read);
    }
  }

  lemma RestNotBad(text: seq<CodePoint>, k: nat, input: seq<byte>)
    requires k < |text| && input <= EncAll(Utf8, text[k..])
    ensures Next(Utf8, input).Char? || Next(Utf8, input) == Short || input == []
  {
    hide Utf8Next, Utf8Enc;
    var all := EncAll(Utf8, text[k..]);
    assert all == input + all[|input|..];
    NextStays(Utf8, input, all[|input|..]);
    AtEndIff(Utf8, input);
    Decodes(Utf8, text[k], EncAll(Utf8, text[k..][1..]));
  }

  /** The reference converted and appended (encoding.c:2057-2068). */
  method PutReference(output: OutputBuffer, charref: seq<byte>, ghost c: nat) returns (ok: bool)
    requires output.Valid() && charref == Reference(c) && |charref| <= 10
    modifies output.conv, output.conv.mem
    ensures output.Valid() && (output.conv.mem == old(output.conv.mem) || fresh(output.conv.mem))
    ensures output.conv.Contents() == if ok then old(output.conv.Contents()) + charref else old(output.conv.Contents())
    ensures !ok ==> output.conv.overflow
  {
    hide Narrow, Stopped, AsText, EncAll, Reference;
    var conv := output.conv;
    var grown := conv.Grow(|charref| * 4);
    var room := conv.Avail();
    ReferenceIsAscii(c);
    ok := PutAscii(output.target, conv, room, charref);
  }

  method PutAscii(t: Target, conv: Buf, room: nat, s: seq<byte>) returns (ok: bool)
    requires conv.Valid() && !conv.isStatic && room == (if conv.overflow then 0 else conv.size - conv.use)
    requires (forall i :: 0 <= i < |s| ==> s[i] < 0x80) && (room == 0 || room >= |s|)
    modifies conv`use, conv.mem
    ensures conv.Valid()
    ensures conv.Contents() == if ok then old(conv.Contents()) + s else old(conv.Contents())
    ensures !conv.overflow && room >= |s| ==> ok
  {
    hide Narrow, Stopped, AsText, EncAll;
    AsciiEncodes(s);
    var ret, written, read;
    ghost var bytes;
    ret, written, read, bytes := OutputChunk(t, conv, room, s, AsText(s));
    AsciiPasses(t, s, written, room, read, bytes, ret);
    if ret == ErrSpace || ret == ErrInput || read != |s| {
      ok := false;
    } else {
      ok := conv.AddLen(written);
    }
  }

  /** A string of ASCII characters as a text. */
  ghost function AsText(s: seq<byte>): (text: seq<CodePoint>)
    requires forall i :: 0 <= i < |s| ==> s[i] < 0x80
    ensures |text| == |s| && forall i :: 0 <= i < |s| ==> text[i] == s[i]
  {
    if s == [] then [] else (assert Scalar(s[0]); [s[0]] + AsText(s[1..]))
  }

  lemma {:induction false} AsciiEncodes(s: seq<byte>)
    requires forall i :: 0 <= i < |s| ==> s[i] < 0x80
    ensures EncAll(Utf8, AsText(s)) == s
  {
    if s != [] {
      AsciiEncodes(s[1..]);
      assert AsText(s)[1..] == AsText(s[1..]);
    }
  }

  lemma {:induction false} AsciiPrefix(s: seq<byte>, k: nat)
    requires k <= |s| && forall i :: 0 <= i < |s| ==> s[i] < 0x80
    ensures EncAll(Utf8, AsText(s)[..k]) == s[..k]
  {
    assert AsText(s)[..k] == AsText(s[..k]);
    AsciiEncodes(s[..k]);
  }

  lemma ReferenceIsAscii(c: nat)
    ensures forall i :: 0 <= i < |Reference(c)| ==> Reference(c)[i] < 0x80
  {
    hide Decimal;
    var s, d := Reference(c), Decimal(c);
    forall i | 0 <= i < |s|
      ensures s[i] < 0x80
    {
      if 2 <= i < |s| - 1 {
        assert s[i] == d[i - 2] && Digit(d[i - 2]);
      }
    }
  }

  /** A string of ASCII characters passes if there is room for it, and otherwise nothing does if
      there is no room at all. */
  lemma AsciiPasses(t: Target, s: seq<byte>, k: nat, room: nat, read: nat, bytes: seq<byte>, ret: Ret)
    requires forall i :: 0 <= i < |s| ==> s[i] < 0x80
    requires Narrow(t, AsText(s), k, read, bytes) && Stopped(t, s, AsText(s), k, room, read, ret) && k <= room
    ensures ret != ErrInput && read == k
    ensures ret.Count? ==> read == |s| && bytes == s
    ensures |s| <= room ==> ret.Count?
  {
    AsciiPrefix(s, k);
    SameText(t, s, AsText(s), k, room, read, bytes, ret);
  }

  lemma SameText(t: Target, s: seq<byte>, text: seq<CodePoint>, k: nat, room: nat, read: nat, bytes: seq<byte>,
                 ret: Ret)
    requires |text| == |s| && forall i :: 0 <= i < |s| ==> text[i] == s[i] < 0x80
    requires Narrow(t, text, k, read, bytes) && Stopped(t, s, text, k, room, read, ret) && k <= room
    requires |EncAll(Utf8, text[..k])| == k
    ensures ret != ErrInput && read == k
    ensures ret.Count? ==> read == |s| && bytes == s
    ensures |s| <= room ==> ret.Count?
  {
    hide EncAll;
  }

  // --- The whole call -------------------------------------------------------------------------------------

  /** xmlCharEncOutput without the initialization call. For UTF-8 input, whatever the result, the
      image of the characters removed from the input buffer has been appended to the output. When
      the call ends without an error, at most one byte of the first 64 kB is left; otherwise the
      output has overflowed, or the input ends within a character. */
  method CharEncOutput(output: OutputBuffer, ghost text: seq<CodePoint>)
    returns (code: OutCode, written: nat, ghost k: nat)
    requires output.Valid() && output.buffer.Contents() <= EncAll(Utf8, text)
    modifies output.buffer, output.conv, output.conv.mem
    ensures output.Valid() && k <= |text|
    ensures old(output.buffer.Contents()) == EncAll(Utf8, text[..k]) + output.buffer.Contents()
    ensures output.conv.Contents() == old(output.conv.Contents()) + ImageAll(output.target, text[..k])
    ensures code == Fine ==>
              output.buffer.use <= 1 + if old(output.buffer.use) > 65536 then old(output.buffer.use) - 65536 else 0
    ensures code == BadInput ==> output.buffer.use == 0 || Next(Utf8, output.buffer.Contents()) == Short
    ensures code == NoMemory || code == Internal ==> output.conv.overflow
    ensures |output.conv.Contents()| == |old(output.conv.Contents())| + written
  {
    ghost var input0, output0 := output.buffer.Contents(), output.conv.Contents();
    OutStarts(output.target, text, input0, output0);
    k, written := 0, 0;
    hide OutState;
    while true
      invariant output.Valid() && output.State(text, k, input0, output0)
      invariant output.conv.mem == old(output.conv.mem) || fresh(output.conv.mem)
      invariant output.buffer.mem == old(output.buffer.mem) && output.buffer.use <= old(output.buffer.use)
      invariant |output.conv.Contents()| == |output0| + written
      decreases output.buffer.use
    {
      var ok, ret, n;
      ok, ret, n, k := ConvertRound(output, text, k, input0, output0);
      written := written + n;
      code := if ok then Fine else NoMemory;
      if ok && ret == ErrInput {
        code, n, k := ReferenceRound(output, text, k, input0, output0);
        written := written + n;
      }
      if !ok || ret != ErrInput || code != Fine {
        StateGives(output.target, text, k, input0, output.buffer.Contents(), output0, output.conv.Contents());
        return;
      }
    }
  }

  lemma StateGives(t: Target, text: seq<CodePoint>, k: nat, input0: seq<byte>, input: seq<byte>, output0: seq<byte>,
                   output: seq<byte>)
    requires OutState(t, text, k, input0, input, output0, output)
    ensures k <= |text| && input0 == EncAll(Utf8, text[..k]) + input && output == output0 + ImageAll(t, text[..k])
  {
  }
}
