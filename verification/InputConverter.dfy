/** Streaming input conversion (encoding.c): xmlEncInputChunk and xmlCharEncInput over a raw and a
    decoded buffer. Input that is UTF-8 already has no converter. */
module InputConverter {
  import opened Bytes
  import opened Unicode
  import opened ByteBuffer
  import opened Transcoders

  const CHUNK_MAX: nat := INT_MAX / 2

  datatype Code = Success | Space | Input | Memory

  class InputBuffer {
    const raw: Buf
    const buffer: Buf
    const from: Form
    var rawconsumed: nat

    constructor (raw: Buf, buffer: Buf, from: Form)
      requires raw.Valid() && buffer.Valid() && raw != buffer && raw.mem != buffer.mem && !buffer.isStatic
      requires from != Utf8
      ensures Valid() && this.raw == raw && this.buffer == buffer && this.from == from && rawconsumed == 0
    {
      this.raw, this.buffer, this.from, rawconsumed := raw, buffer, from, 0;
    }

    ghost predicate Valid()
      reads this, raw, raw.mem, buffer, buffer.mem
    {
      raw.Valid() && buffer.Valid() && raw != buffer && raw.mem != buffer.mem && !buffer.isStatic && from != Utf8
    }
  }

  /** The raw bytes that a conversion sees: none after an overflow. */
  ghost function Pending(raw: Buf): (s: seq<byte>)
    requires raw.Valid()
    reads raw, raw.mem
  {
    if raw.overflow then [] else raw.Contents()
  }

  /** xmlEncInputChunk, with the bytes going behind the content of `out` and made part of it. */
  method ConvertChunk(from: Form, out: Buf, room: nat, data: seq<byte>, flush: bool)
    returns (code: Code, written: nat, read: nat)
    requires out.Valid() && !out.isStatic && room <= (if out.overflow then 0 else out.size - out.use) && from != Utf8
    modifies out`use, out.mem
    ensures out.Valid()
    ensures var r := Convert(from, Utf8, data, room);
            && read == r.read <= |data| && written == |Out(Utf8, r)| <= room
            && out.Contents() == old(out.Contents()) + Out(Utf8, r)
            && (r.stop == Malformed ==> code == Input)
            && (r.stop == NoRoom ==> code == Space)
            && (r.stop == Finished ==> code == Success)
            && (r.stop == Truncated ==> code == if flush && written == 0 then Input else Success)
  {
    hide Convert, EncAll, Enc, Next, Written;
    ConvertIsSound(from, Utf8, data, room);
    ghost var before, at, r := out.mem[..], out.start + out.use, Convert(from, Utf8, data, room);
    var ret;
    ret, written, read := Transcode(from, Utf8, out.mem, out.start + out.use, room, data);
    WrittenAt(before, at, Out(Utf8, r), at, at + written);
    WrittenAt(before, at, Out(Utf8, r), out.start, at);
    assert out.Behind(written) == out.mem[..][at..at + written] == Out(Utf8, r);
    assert out.Contents() == out.mem[..][out.start..at] == before[out.start..at];
    if out.overflow {
      NothingTo(from, data, r, before, at);
    } else {
      var added := out.AddLen(written);
    }
    TruncatedIsShort(from, data, room);
    match ret {
      case ErrSpace => code := Space;
      case ErrInput => code := Input;
      case Count(n) => code := if flush && n == 0 && read != |data| then Input else Success;
    }
  }

  lemma NothingTo(from: Form, data: seq<byte>, r: Outcome, m: seq<byte>, at: nat)
    requires |Out(Utf8, r)| == 0 && at <= |m|
    ensures Out(Utf8, r) == [] && Written(m, at, Out(Utf8, r)) == m
  {
  }

  lemma TruncatedIsShort(from: Form, data: seq<byte>, room: nat)
    ensures var r := Convert(from, Utf8, data, room);
            r.read <= |data| && (r.stop == Finished ==> r.read == |data|) && (r.stop == Truncated ==> r.read < |data|)
  {
    hide Convert;
    ConvertIsSound(from, Utf8, data, room);
    var r := Convert(from, Utf8, data, room);
    AtEndIff(from, data[r.read..]);
  }

  /** The check sees a character that is cut off exactly if no complete one precedes it in the chunk. */
  lemma CutOffSeenIff(from: Form, data: seq<byte>, room: nat)
    requires Convert(from, Utf8, data, room).stop == Truncated
    ensures Out(Utf8, Convert(from, Utf8, data, room)) == [] <==> Next(from, data) == Short
  {
    hide Next, Enc;
    AtEndIff(from, data);
    var r := Convert(from, Utf8, data, room);
    if r.chars != [] {
      EncAllSum(Utf8, [r.chars[0]], r.chars[1..]);
      assert r.chars == [r.chars[0]] + r.chars[1..];
    }
  }

  /** The same cut-off unit at the end of the input, alone and behind a letter. */
  method CutOffCharacters() returns (alone: Code, behindLetter: Code)
    ensures alone == Input && behindLetter == Success
  {
    var out := new Buf(8);
    var written, read;
    var one, two: seq<byte> := [0x61], [0x61, 0x00, 0x61];
    assert two[2..] == one;
    assert Convert(Utf16LE, Utf8, one, 4) == Outcome([], 0, Truncated) == Convert(Utf16LE, Utf8, one, 3);
    assert Convert(Utf16LE, Utf8, two, 4) == Outcome([0x61], 2, Truncated);
    CutOffSeenIff(Utf16LE, two, 4);
    hide Convert;
    alone, written, read := ConvertChunk(Utf16LE, out, 4, one, true);
    out := new Buf(8);
    behindLetter, written, read := ConvertChunk(Utf16LE, out, 4, two, true);
  }

  // --- Chunks of one conversion -------------------------------------------------------------------

  /** Converting a piece of the input into part of the room is progress. */
  lemma ChunkIsProgress(from: Form, data: seq<byte>, maxOut: nat, cs: seq<CodePoint>, pos: nat, n: nat, take: nat,
                        room: nat)
    requires Progress(from, Utf8, data, maxOut, cs, pos, n) && take <= |data| - pos && room <= maxOut - n
    ensures var r := Convert(from, Utf8, data[pos..pos + take], room);
            && r.read <= take && |Out(Utf8, r)| <= room
            && EncAll(Utf8, cs + r.chars) == EncAll(Utf8, cs) + Out(Utf8, r)
            && Progress(from, Utf8, data, maxOut, cs + r.chars, pos + r.read, n + |Out(Utf8, r)|)
  {
    hide Convert, EncAll;
    var s, t := data[pos..pos + take], data[pos + take..];
    var r := Convert(from, Utf8, s, room);
    ConvertIsSound(from, Utf8, s, room);
    ConvertResumes(from, Utf8, s, t, room, maxOut - n - |Out(Utf8, r)|);
    EncAllSum(Utf8, cs, r.chars);
    assert s + t == data[pos..] && s[r.read..] + t == data[pos + r.read..];
    var rest := Convert(from, Utf8, data[pos + r.read..], maxOut - n - |Out(Utf8, r)|).chars;
    assert cs + (r.chars + rest) == cs + r.chars + rest;
  }

  /** When the loop may end: nothing more can be converted, or the next bytes are malformed. */
  lemma ChunkEnds(from: Form, data: seq<byte>, maxOut: nat, cs: seq<CodePoint>, pos: nat, n: nat, take: nat, room: nat)
    requires Progress(from, Utf8, data, maxOut, cs, pos, n) && take <= |data| - pos && room <= maxOut - n
    ensures var r, all := Convert(from, Utf8, data[pos..pos + take], room), Convert(from, Utf8, data, maxOut);
            && (take == |data| - pos && (r.stop == Finished || r.stop == Truncated) ==>
                  all == Outcome(cs + r.chars, pos + r.read, r.stop))
            && (room == maxOut - n && r.stop == NoRoom ==> all == Outcome(cs + r.chars, pos + r.read, NoRoom))
            && (r.stop == Malformed ==> all == Outcome(cs + r.chars, pos + r.read, Malformed))
  {
    hide Convert, EncAll, Next, Enc, Progress;
    var s, t := data[pos..pos + take], data[pos + take..];
    var r := Convert(from, Utf8, s, room);
    ConvertIsSound(from, Utf8, s, room);
    ChunkIsProgress(from, data, maxOut, cs, pos, n, take, room);
    var rest := s[r.read..];
    var left := maxOut - n - |Out(Utf8, r)|;
    assert rest + t == data[pos + r.read..];
    NextStays(from, rest, t);
    AtEndIff(from, rest);
    assert t == [] ==> rest + t == rest;
    ProgressEnds(from, Utf8, data, maxOut, cs + r.chars, pos + r.read, n + |Out(Utf8, r)|);
  }

  /** A chunk from which nothing was read had no room for a character, or was cut short. */
  lemma ChunkMoves(from: Form, data: seq<byte>, room: nat)
    ensures var r := Convert(from, Utf8, data, room);
            && (r.stop == NoRoom && room >= 4 ==> r.read > 0)
            && (r.stop == Finished || r.stop == Truncated ==> |data| - r.read < 4)
  {
    hide Convert, EncAll, Enc, Next;
    ConvertIsSound(from, Utf8, data, room);
    var r := Convert(from, Utf8, data, room);
    assert r.read == 0 ==> data[..r.read] == [] && data[r.read..] == data;
    ConvertStep(from, Utf8, data, room);
    ShortIsShort(from, data[r.read..]);
  }

  lemma ShortIsShort(form: Form, s: seq<byte>)
    ensures Next(form, s) == Short ==> |s| < 4
  {
  }

  // --- xmlCharEncInput ------------------------------------------------------------------------------

  /** The conversion of `data` into at most `maxOut` bytes, appended. */
  ghost predicate Converted(from: Form, data: seq<byte>, maxOut: nat, before: seq<byte>, after: seq<byte>, read: nat,
                            size: nat) {
    var r := Convert(from, Utf8, data, maxOut);
    after == before + Out(Utf8, r) && read == r.read && size == |Out(Utf8, r)| <= maxOut && r.stop != Malformed
  }

  /** The input cannot be converted: it is malformed or, at its end, truncated. */
  ghost predicate Unconvertible(from: Form, data: seq<byte>, maxOut: nat, flush: bool) {
    var stop := Convert(from, Utf8, data, maxOut).stop;
    stop == Malformed || (flush && stop == Truncated)
  }

  /** The input that a call rejects: the conversion meets malformed bytes, or the input ends and all
      that is left of it is a character that is cut off. */
  ghost predicate Rejected(from: Form, data: seq<byte>, maxOut: nat, flush: bool) {
    Convert(from, Utf8, data, maxOut).stop == Malformed || (flush && Next(from, data) == Short)
  }

  /** On success, the conversion of the raw bytes into at most `maxOut` bytes, whatever the sizes
      of the buffers: its output is appended, and the bytes it read are removed. On an error the
      raw bytes are left alone, and they are malformed or, at the end of the input, truncated; for
      input of one chunk it is known exactly when. */
  method CharEncInput(input: InputBuffer, maxOut: nat, flush: bool) returns (code: Code, sizeOut: nat, ghost read: nat)
    requires input.Valid()
    modifies input, input.raw, input.buffer, input.buffer.mem
    ensures input.Valid() && input.raw.mem == old(input.raw.mem) && input.raw.overflow == old(input.raw.overflow)
    ensures input.buffer.mem == old(input.buffer.mem) || fresh(input.buffer.mem)
    ensures code == Success ==>
              && Converted(input.from, old(Pending(input.raw)), maxOut, old(input.buffer.Contents()),
                           input.buffer.Contents(), read, sizeOut)
              && read <= old(|Pending(input.raw)|)
              && Pending(input.raw) == old(Pending(input.raw))[read..]
              && input.rawconsumed == old(input.rawconsumed) + read
    ensures code == Input ==> Unconvertible(input.from, old(Pending(input.raw)), maxOut, flush)
    ensures code != Memory && old(|Pending(input.raw)|) <= 0x3FFF_FFFF ==>
              (code == Input <==> Rejected(input.from, old(Pending(input.raw)), maxOut, flush))
    ensures code == Memory ==> input.buffer.overflow
    ensures code != Success ==> input.raw.Contents() == old(input.raw.Contents()) && sizeOut == 0
    ensures code != Space
  {
    hide Convert, EncAll, Converted, Unconvertible, Rejected, Pending;
    var availIn := RawUse(input.raw);
    ghost var data, before := Pending(input.raw), input.buffer.Contents();
    if availIn == 0 && !flush {
      EmptyInput(input.from, maxOut, before);
      NothingRejected(input.from, data, maxOut);
      return Success, 0, 0;
    }
    var totalIn;
    code, totalIn, sizeOut := Pump(input, availIn, maxOut, flush);
    if code != Success {
      return code, 0, 0;
    }
    read := totalIn;
    RawShrink(input.raw, totalIn);
    input.rawconsumed := input.rawconsumed + totalIn;
  }

  method RawUse(raw: Buf) returns (n: nat)
    requires raw.Valid()
    ensures n == |Pending(raw)|
  {
    n := raw.Use();
  }

  method RawShrink(raw: Buf, n: nat)
    requires raw.Valid() && n <= |Pending(raw)|
    modifies raw
    ensures raw.Valid() && raw.mem == old(raw.mem) && raw.overflow == old(raw.overflow) &&
            Pending(raw) == old(Pending(raw))[n..]
  {
    var removed := raw.Shrink(n);
  }

  lemma EmptyInput(from: Form, maxOut: nat, before: seq<byte>)
    ensures Converted(from, [], maxOut, before, before, 0, 0)
  {
    ConvertStep(from, Utf8, [], maxOut);
    AtEndIff(from, []);
  }

  lemma NothingRejected(from: Form, data: seq<byte>, maxOut: nat)
    requires data == []
    ensures !Rejected(from, data, maxOut, false)
  {
    ConvertStep(from, Utf8, [], maxOut);
    AtEndIff(from, []);
  }

  /** A position at the start, or at a complete character. */
  ghost predicate AtCharacter(from: Form, data: seq<byte>, pos: nat) {
    pos <= |data| && (pos == 0 || Next(from, data[pos..]).Char?)
  }

  /** A chunk that takes the rest of the input from such a position on. */
  lemma LastChunk(from: Form, data: seq<byte>, pos: nat, room: nat)
    requires AtCharacter(from, data, pos)
    ensures var r := Convert(from, Utf8, data[pos..], room);
            && (r.stop == NoRoom ==> AtCharacter(from, data, pos + r.read))
            && (r.stop == Truncated && |Out(Utf8, r)| == 0 ==> Next(from, data) == Short)
            && (pos == 0 && Next(from, data) == Short ==> r.stop == Truncated && |Out(Utf8, r)| == 0)
  {
    hide Next, Enc, EncAll, Convert;
    var s := data[pos..];
    var r := Convert(from, Utf8, s, room);
    ConvertIsSound(from, Utf8, s, room);
    assert s[r.read..] == data[pos + r.read..] && data[0..] == data;
    ConvertStep(from, Utf8, s, room);
    NothingOut();
    if r.stop == Truncated && |Out(Utf8, r)| == 0 {
      CutOffSeenIff(from, s, room);
    }
  }

  lemma NothingOut()
    ensures EncAll(Utf8, []) == []
  {
  }

  /** What a round that takes all of the input says of it. */
  ghost predicate Judged(from: Form, data: seq<byte>, maxOut: nat, flush: bool, pos: nat, code: Code, pos': nat,
                         done: bool) {
    && (code == Input ==> Rejected(from, data, maxOut, flush))
    && (code != Input && !done ==> AtCharacter(from, data, pos'))
    && (flush && pos == 0 && Next(from, data) == Short ==> code == Input)
  }

  /** What the loop of xmlCharEncInput keeps. */
  ghost predicate PumpState(from: Form, data: seq<byte>, maxOut: nat, before: seq<byte>, after: seq<byte>,
                            cs: seq<CodePoint>, totalIn: nat, totalOut: nat) {
    && totalIn <= |data| && totalOut == |EncAll(Utf8, cs)| <= maxOut
    && Progress(from, Utf8, data, maxOut, cs, totalIn, totalOut)
    && after == before + EncAll(Utf8, cs)
  }

  lemma PumpStarts(from: Form, data: seq<byte>, maxOut: nat, before: seq<byte>)
    ensures PumpState(from, data, maxOut, before, before, [], 0, 0)
  {
    hide Convert, Progress, Written;
    NoProgressYet(from, Utf8, data, maxOut);
    assert before + EncAll(Utf8, []) == before;
  }

  /** One round: `take` bytes of the input into `room` bytes. */
  lemma PumpRound(from: Form, data: seq<byte>, maxOut: nat, before: seq<byte>, after: seq<byte>,
                  cs: seq<CodePoint>, totalIn: nat, totalOut: nat, take: nat, room: nat)
    requires PumpState(from, data, maxOut, before, after, cs, totalIn, totalOut)
    requires totalIn + take <= |data| && totalOut + room <= maxOut
    ensures var r := Convert(from, Utf8, data[totalIn..totalIn + take], room);
            var read, size, after' := totalIn + r.read, totalOut + |Out(Utf8, r)|, after + Out(Utf8, r);
            && r.read <= take && |Out(Utf8, r)| <= room
            && PumpState(from, data, maxOut, before, after', cs + r.chars, read, size)
            && (totalIn + take == |data| && (r.stop == Finished || r.stop == Truncated) ==>
                  Converted(from, data, maxOut, before, after', read, size))
            && (totalOut + room == maxOut && r.stop == NoRoom ==>
                  Converted(from, data, maxOut, before, after', read, size))
            && (r.stop == Malformed ==> Unconvertible(from, data, maxOut, false))
            && (totalIn + take == |data| && r.stop == Truncated ==> Unconvertible(from, data, maxOut, true))
  {
    hide Convert, EncAll, Progress;
    ChunkIsProgress(from, data, maxOut, cs, totalIn, totalOut, take, room);
    ChunkEnds(from, data, maxOut, cs, totalIn, totalOut, take, room);
    var r := Convert(from, Utf8, data[totalIn..totalIn + take], room);
    assert before + EncAll(Utf8, cs) + Out(Utf8, r) == before + EncAll(Utf8, cs + r.chars);
  }

  /** One round of the loop (encoding.c:1818-1863); `done` where it breaks. */
  method Round(input: InputBuffer, avail: nat, maxOut: nat, totalIn: nat, totalOut: nat, flush: bool,
               ghost before: seq<byte>, ghost cs: seq<CodePoint>)
    returns (code: Code, c_in: nat, c_out: nat, done: bool, ghost cs': seq<CodePoint>)
    requires input.Valid() && avail == |Pending(input.raw)|
    requires PumpState(input.from, Pending(input.raw), maxOut, before, input.buffer.Contents(), cs, totalIn, totalOut)
    modifies input.buffer`use, input.buffer.mem
    ensures input.Valid() && Pending(input.raw) == old(Pending(input.raw)) && c_in <= avail - totalIn
    ensures PumpState(input.from, Pending(input.raw), maxOut, before, input.buffer.Contents(), cs', totalIn + c_in,
                      totalOut + c_out)
    ensures code == Input ==> Unconvertible(input.from, Pending(input.raw), maxOut, flush)
    ensures code != Input && done ==>
              Converted(input.from, Pending(input.raw), maxOut, before, input.buffer.Contents(), totalIn + c_in,
                        totalOut + c_out)
    ensures |Pending(input.raw)| <= CHUNK_MAX && AtCharacter(input.from, Pending(input.raw), totalIn) ==>
              Judged(input.from, Pending(input.raw), maxOut, flush, totalIn, code, totalIn + c_in, done)
    ensures code == Success && !done ==> c_in > 0
    ensures code == Space && !done && !input.buffer.overflow && old(input.buffer.size - input.buffer.use) >= 4 ==>
              c_in > 0
    ensures code != Memory
  {
    hide Convert, EncAll, Enc, Next, Progress, PumpState, Converted, Unconvertible, Pending, AtCharacter, Judged,
         Out;
    var out, from := input.buffer, input.from;
    ghost var data := Pending(input.raw);
    StateBounds(from, data, maxOut, before, out.Contents(), cs, totalIn, totalOut);
    var availOut := out.Avail();
    var room := if availOut > CHUNK_MAX then CHUNK_MAX else availOut;
    var completeOut := room >= maxOut - totalOut;
    if completeOut {
      room := maxOut - totalOut;
    }
    var take := if avail - totalIn > CHUNK_MAX then CHUNK_MAX else avail - totalIn;
    var completeIn := take == avail - totalIn;
    var dataIn := Chunk(input, totalIn, take);
    PumpRound(from, data, maxOut, before, out.Contents(), cs, totalIn, totalOut, take, room);
    ChunkMoves(from, dataIn, room);
    UnconvertibleAtEnd(from, data, maxOut, flush);
    cs' := cs + Convert(from, Utf8, dataIn, room).chars;
    code, c_out, c_in := ConvertChunk(from, out, room, dataIn, flush && completeIn);
    done := (completeOut && completeIn) || (completeOut && code == Space) || (completeIn && code == Success);
    if |data| <= CHUNK_MAX && AtCharacter(from, data, totalIn) {
      assert dataIn == data[totalIn..];
      RoundJudges(from, data, maxOut, flush, totalIn, room, code, c_out, c_in, done);
    }
  }

  lemma RoundJudges(from: Form, data: seq<byte>, maxOut: nat, flush: bool, pos: nat, room: nat, code: Code,
                    written: nat, read: nat, done: bool)
    requires AtCharacter(from, data, pos)
    requires var r := Convert(from, Utf8, data[pos..], room);
             && read == r.read && written == |Out(Utf8, r)|
             && (r.stop == Malformed ==> code == Input && Unconvertible(from, data, maxOut, false))
             && (r.stop == NoRoom ==> code == Space) && (r.stop == Finished ==> code == Success)
             && (r.stop == Truncated ==> code == if flush && written == 0 then Input else Success)
    requires code == Success ==> done
    ensures Judged(from, data, maxOut, flush, pos, code, pos + read, done)
  {
    hide Convert, EncAll, Next, AtCharacter;
    LastChunk(from, data, pos, room);
  }

  lemma StateBounds(from: Form, data: seq<byte>, maxOut: nat, before: seq<byte>, after: seq<byte>,
                    cs: seq<CodePoint>, totalIn: nat, totalOut: nat)
    requires PumpState(from, data, maxOut, before, after, cs, totalIn, totalOut)
    ensures totalIn <= |data| && totalOut <= maxOut
  {
  }

  lemma UnconvertibleAtEnd(from: Form, data: seq<byte>, maxOut: nat, flush: bool)
    ensures Unconvertible(from, data, maxOut, false) ==> Unconvertible(from, data, maxOut, flush)
  {
  }

  /** A round, and what it decides about input of one chunk. */
  method DecidingRound(input: InputBuffer, avail: nat, maxOut: nat, totalIn: nat, totalOut: nat, flush: bool,
                       ghost before: seq<byte>, ghost cs: seq<CodePoint>)
    returns (code: Code, c_in: nat, c_out: nat, done: bool, ghost cs': seq<CodePoint>)
    requires input.Valid() && avail == |Pending(input.raw)|
    requires PumpState(input.from, Pending(input.raw), maxOut, before, input.buffer.Contents(), cs, totalIn, totalOut)
    requires avail <= CHUNK_MAX ==> Undecided(input.from, Pending(input.raw), flush, totalIn)
    modifies input.buffer`use, input.buffer.mem
    ensures input.Valid() && Pending(input.raw) == old(Pending(input.raw)) && c_in <= avail - totalIn
    ensures PumpState(input.from, Pending(input.raw), maxOut, before, input.buffer.Contents(), cs', totalIn + c_in,
                      totalOut + c_out)
    ensures code == Input ==> Unconvertible(input.from, Pending(input.raw), maxOut, flush)
    ensures code != Input && done ==>
              Converted(input.from, Pending(input.raw), maxOut, before, input.buffer.Contents(), totalIn + c_in,
                        totalOut + c_out)
    ensures avail <= CHUNK_MAX ==>
              if code != Input && !done then Undecided(input.from, Pending(input.raw), flush, totalIn + c_in)
              else code == Input <==> Rejected(input.from, Pending(input.raw), maxOut, flush)
    ensures code == Success && !done ==> c_in > 0
    ensures code == Space && !done && !input.buffer.overflow && old(input.buffer.size - input.buffer.use) >= 4 ==>
              c_in > 0
    ensures code != Memory
  {
    hide Convert, EncAll, Progress, PumpState, Converted, Unconvertible, Pending, AtCharacter, Judged, Undecided,
         Rejected;
    ghost var data := Pending(input.raw);
    if avail <= CHUNK_MAX {
      UndecidedStarts(input.from, data, flush, totalIn);
    }
    code, c_in, c_out, done, cs' := Round(input, avail, maxOut, totalIn, totalOut, flush, before, cs);
    if avail <= CHUNK_MAX {
      RoundDecides(input.from, data, maxOut, flush, totalIn, code, totalIn + c_in, done, before,
                   input.buffer.Contents(), totalOut + c_out);
    }
  }

  /** The loop of xmlCharEncInput (encoding.c:1817-1871). It ends, because after growing there is
      room for a character. */
  method Pump(input: InputBuffer, avail: nat, maxOut: nat, flush: bool)
    returns (code: Code, totalIn: nat, totalOut: nat)
    requires input.Valid() && avail == |Pending(input.raw)|
    modifies input.buffer, input.buffer.mem
    ensures input.Valid() && (input.buffer.mem == old(input.buffer.mem) || fresh(input.buffer.mem))
    ensures code == Success ==>
              Converted(input.from, Pending(input.raw), maxOut, old(input.buffer.Contents()), input.buffer.Contents(),
                        totalIn, totalOut)
    ensures code == Success ==> totalIn <= avail
    ensures code == Memory ==> input.buffer.overflow
    ensures code == Input ==> Unconvertible(input.from, Pending(input.raw), maxOut, flush)
    ensures code != Memory && avail <= CHUNK_MAX ==>
              (code == Input <==> Rejected(input.from, Pending(input.raw), maxOut, flush))
    ensures code != Space
  {
    hide Convert, EncAll, PumpState, Converted, Unconvertible, Pending, Judged, AtCharacter, Undecided,
         Rejected;
    ghost var data, before := Pending(input.raw), input.buffer.Contents();
    ghost var cs: seq<CodePoint> := [];
    var out := input.buffer;
    totalIn, totalOut := 0, 0;
    PumpStarts(input.from, data, maxOut, before);
    UndecidedAtStart(input.from, data, flush);
    while true
      invariant input.Valid() && (out.mem == old(input.buffer.mem) || fresh(out.mem)) && Pending(input.raw) == data
      invariant totalIn <= avail && PumpState(input.from, data, maxOut, before, out.Contents(), cs, totalIn, totalOut)
      invariant avail <= CHUNK_MAX ==> Undecided(input.from, data, flush, totalIn)
      decreases avail - totalIn, if out.overflow || out.size - out.use < 4 then 1 else 0
    {
      var c_in, c_out, done;
      code, c_in, c_out, done, cs := DecidingRound(input, avail, maxOut, totalIn, totalOut, flush, before, cs);
      totalIn, totalOut := totalIn + c_in, totalOut + c_out;
      if code == Input {
        return;
      }
      if done {
        code := Success;
        return;
      }
      if code == Space {
        var grown := out.Grow(4096);
        if !grown {
          code := Memory;
          return;
        }
      }
    }
  }

  /** Where the loop goes on, the check for a character that is cut off has nothing to see any more. */
  ghost predicate Undecided(from: Form, data: seq<byte>, flush: bool, pos: nat) {
    AtCharacter(from, data, pos) && (pos > 0 && flush ==> Next(from, data) != Short)
  }

  lemma UndecidedAtStart(from: Form, data: seq<byte>, flush: bool)
    ensures Undecided(from, data, flush, 0)
  {
  }

  lemma UndecidedStarts(from: Form, data: seq<byte>, flush: bool, pos: nat)
    requires Undecided(from, data, flush, pos)
    ensures AtCharacter(from, data, pos)
  {
  }

  /** After a round the input is rejected, accepted, or still undecided. */
  lemma RoundDecides(from: Form, data: seq<byte>, maxOut: nat, flush: bool, pos: nat, code: Code, pos': nat, done: bool,
                     before: seq<byte>, after: seq<byte>, size: nat)
    requires Undecided(from, data, flush, pos) && Judged(from, data, maxOut, flush, pos, code, pos', done)
    requires code != Input && done ==> Converted(from, data, maxOut, before, after, pos', size)
    ensures code == Input ==> Rejected(from, data, maxOut, flush)
    ensures code != Input && done ==> !Rejected(from, data, maxOut, flush)
    ensures code != Input && !done ==> Undecided(from, data, flush, pos')
  {
    hide Convert, EncAll;
  }

  lemma SliceOfSlice(m: seq<byte>, start: nat, use: nat, pos: nat, take: nat)
    requires start + use <= |m| && pos + take <= use
    ensures m[start..start + use][pos..pos + take] == m[start + pos..start + pos + take]
  {
    var a, b := m[start..start + use][pos..pos + take], m[start + pos..start + pos + take];
    forall i | 0 <= i < take
      ensures a[i] == b[i]
    {
      assert a[i] == m[start..start + use][pos + i] == m[start + pos + i];
    }
  }

  /** The bytes at the pointer into the raw content. */
  method Chunk(input: InputBuffer, pos: nat, take: nat) returns (s: seq<byte>)
    requires input.Valid() && pos + take <= |Pending(input.raw)|
    ensures s == Pending(input.raw)[pos..pos + take]
  {
    s := [];
    if take > 0 {
      var start := input.raw.start;
      s := input.raw.mem[start + pos..start + pos + take];
      SliceOfSlice(input.raw.mem[..], start, input.raw.use, pos, take);
      assert input.raw.Contents() == input.raw.mem[..][start..start + input.raw.use];
      assert s == input.raw.mem[..][start + pos..start + pos + take];
    }
  }

  // --- Runs of calls ----------------------------------------------------------------------------------

  /** One conversion of all the raw bytes into just as much room writes the same characters and
      reads the same bytes. */
  ghost predicate SameAsOnce(from: Form, total: seq<byte>, cs: seq<CodePoint>, read: nat) {
    var r := Convert(from, Utf8, total, |EncAll(Utf8, cs)|);
    r.chars == cs && r.read == read
  }

  lemma NoRoomAtAll(from: Form, s: seq<byte>)
    ensures var r := Convert(from, Utf8, s, 0); r.chars == [] && r.read == 0
  {
    ConvertStep(from, Utf8, s, 0);
    hide Convert, Next, Enc;
  }

  lemma MoreRaw(from: Form, total: seq<byte>, t: seq<byte>, cs: seq<CodePoint>, read: nat)
    requires SameAsOnce(from, total, cs, read)
    ensures SameAsOnce(from, total + t, cs, read)
  {
    hide Convert, EncAll;
    var n := |EncAll(Utf8, cs)|;
    ConvertResumes(from, Utf8, total, t, n, 0);
    NoRoomAtAll(from, total[read..] + t);
    assert cs + [] == cs;
  }

  lemma OneMoreCall(from: Form, total: seq<byte>, cs: seq<CodePoint>, read: nat, maxOut: nat)
    requires SameAsOnce(from, total, cs, read)
    ensures read <= |total|
    ensures var r := Convert(from, Utf8, total[read..], maxOut);
            SameAsOnce(from, total, cs + r.chars, read + r.read) &&
              EncAll(Utf8, cs + r.chars) == EncAll(Utf8, cs) + Out(Utf8, r)
  {
    hide Convert, EncAll;
    var s := total[read..];
    var r := Convert(from, Utf8, s, maxOut);
    var k := |Out(Utf8, r)|;
    ConvertResumes(from, Utf8, s, [], maxOut, 0);
    NoRoomAtAll(from, s[r.read..] + []);
    assert s + [] == s && r.chars + [] == r.chars;
    ConvertResumes(from, Utf8, total, [], |EncAll(Utf8, cs)|, k);
    assert total + [] == total;
    EncAllSum(Utf8, cs, r.chars);
  }

  /** Where a run of calls stands: what was converted, and what is left in the raw buffer. */
  ghost predicate StreamState(from: Form, total: seq<byte>, cs: seq<CodePoint>, read: nat, before: seq<byte>,
                              decoded: seq<byte>, raw: seq<byte>) {
    && SameAsOnce(from, total, cs, read) && read <= |total|
    && decoded == before + EncAll(Utf8, cs) && raw == total[read..]
  }

  lemma StreamStarts(from: Form, total: seq<byte>, before: seq<byte>)
    ensures StreamState(from, total, [], 0, before, before, total)
  {
    hide Convert;
    NoRoomAtAll(from, total);
    assert total[0..] == total;
  }

  lemma StreamFed(from: Form, total: seq<byte>, cs: seq<CodePoint>, read: nat, before: seq<byte>, decoded: seq<byte>,
                  raw: seq<byte>, piece: seq<byte>)
    requires StreamState(from, total, cs, read, before, decoded, raw)
    ensures StreamState(from, total + piece, cs, read, before, decoded, raw + piece)
  {
    hide Convert, EncAll, SameAsOnce;
    MoreRaw(from, total, piece, cs, read);
  }

  lemma StreamCalled(from: Form, total: seq<byte>, cs: seq<CodePoint>, read: nat, before: seq<byte>,
                     decoded: seq<byte>, raw: seq<byte>,
                     maxOut: nat, decoded': seq<byte>, k: nat, size: nat)
    requires StreamState(from, total, cs, read, before, decoded, raw) &&
             Converted(from, raw, maxOut, decoded, decoded', k, size)
    ensures k <= |raw| && StreamState(from, total, cs + Convert(from, Utf8, raw, maxOut).chars, read + k, before,
                                      decoded', raw[k..])
  {
    hide Convert, EncAll, SameAsOnce;
    OneMoreCall(from, total, cs, read, maxOut);
    var r := Convert(from, Utf8, raw, maxOut);
    assert before + EncAll(Utf8, cs) + Out(Utf8, r) == before + (EncAll(Utf8, cs) + Out(Utf8, r));
  }

  /** Any sequence of successful calls, with raw bytes arriving in any pieces and any limits on
      the output, yields the same stream as one conversion. */
  method Stream(input: InputBuffer, pieces: seq<seq<byte>>, limits: seq<nat>, flushes: seq<bool>)
    returns (code: Code, ghost cs: seq<CodePoint>, ghost read: nat)
    requires input.Valid() && |limits| == |flushes| == |pieces| && !input.raw.isStatic && !input.raw.overflow
    modifies input, input.raw, input.raw.mem, input.buffer, input.buffer.mem
    ensures input.Valid()
    ensures code == Memory ==> input.raw.overflow || input.buffer.overflow
    ensures code == Success ==> StreamState(input.from, old(input.raw.Contents()) + Flatten(pieces), cs, read,
                                            old(input.buffer.Contents()), input.buffer.Contents(), input.raw.Contents())
  {
    hide StreamState;
    ghost var first, before, total := input.raw.Contents(), input.buffer.Contents(), input.raw.Contents();
    cs, read, code := [], 0, Success;
    StreamStarts(input.from, total, before);
    for i := 0 to |pieces|
      invariant input.Valid() && !input.raw.overflow && code == Success
      invariant input.raw.mem == old(input.raw.mem) || fresh(input.raw.mem)
      invariant input.buffer.mem == old(input.buffer.mem) || fresh(input.buffer.mem)
      invariant total + Flatten(pieces[i..]) == first + Flatten(pieces)
      invariant StreamState(input.from, total, cs, read, before, input.buffer.Contents(), input.raw.Contents())
    {
      assert pieces[i..][1..] == pieces[i + 1..];
      assert total + pieces[i] + Flatten(pieces[i + 1..]) == total + Flatten(pieces[i..]);
      code, cs, read := FeedAndCall(input, pieces[i], limits[i], flushes[i], before, total, cs, read);
      if code != Success {
        return;
      }
      total := total + pieces[i];
    }
    assert total == first + Flatten(pieces);
  }

  /** Raw bytes arrive, and xmlCharEncInput is called once. */
  method FeedAndCall(input: InputBuffer, piece: seq<byte>, limit: nat, flush: bool, ghost before: seq<byte>,
                     ghost total: seq<byte>,
                     ghost cs: seq<CodePoint>, ghost read: nat)
    returns (code: Code, ghost cs': seq<CodePoint>, ghost read': nat)
    requires input.Valid() && !input.raw.isStatic && !input.raw.overflow
    requires StreamState(input.from, total, cs, read, before, input.buffer.Contents(), input.raw.Contents())
    modifies input, input.raw, input.raw.mem, input.buffer, input.buffer.mem
    ensures input.Valid() && (input.raw.mem == old(input.raw.mem) || fresh(input.raw.mem))
    ensures input.buffer.mem == old(input.buffer.mem) || fresh(input.buffer.mem)
    ensures code == Success ==> !input.raw.overflow
    ensures code == Memory ==> input.raw.overflow || input.buffer.overflow
    ensures code == Success ==>
              StreamState(input.from, total + piece, cs', read', before, input.buffer.Contents(), input.raw.Contents())
  {
    hide StreamState;
    cs', read' := cs, read;
    StreamFed(input.from, total, cs, read, before, input.buffer.Contents(), input.raw.Contents(), piece);
    var ok := Feed(input, piece);
    if ok {
      code, cs', read' := CallOnce(input, limit, flush, before, total + piece, cs, read);
    } else {
      code := Memory;
    }
  }

  method CallOnce(input: InputBuffer, limit: nat, flush: bool, ghost before: seq<byte>, ghost total: seq<byte>,
                  ghost cs: seq<CodePoint>, ghost read: nat)
    returns (code: Code, ghost cs': seq<CodePoint>, ghost read': nat)
    requires input.Valid() && !input.raw.overflow
    requires StreamState(input.from, total, cs, read, before, input.buffer.Contents(), input.raw.Contents())
    modifies input, input.raw, input.buffer, input.buffer.mem
    ensures input.Valid() && input.raw.mem == old(input.raw.mem)
    ensures input.buffer.mem == old(input.buffer.mem) || fresh(input.buffer.mem)
    ensures code == Success ==> !input.raw.overflow
    ensures code == Memory ==> input.buffer.overflow
    ensures code == Success ==>
              StreamState(input.from, total, cs', read', before, input.buffer.Contents(), input.raw.Contents())
  {
    hide Convert, StreamState, Converted, Unconvertible, Pending;
    cs', read' := cs, read;
    ghost var decoded, k := input.buffer.Contents(), 0;
    PendingIsAll(input.raw);
    ghost var raw := Pending(input.raw);
    var size;
    code, size, k := CharEncInput(input, limit, flush);
    if code == Success {
      StreamCalled(input.from, total, cs, read, before, decoded, raw, limit, input.buffer.Contents(), k, size);
      cs', read' := cs + Convert(input.from, Utf8, raw, limit).chars, read + k;
      PendingIsAll(input.raw);
    }
  }

  method Feed(input: InputBuffer, piece: seq<byte>) returns (ok: bool)
    requires input.Valid() && !input.raw.isStatic && !input.raw.overflow
    modifies input.raw, input.raw.mem
    ensures input.Valid() && (input.raw.mem == old(input.raw.mem) || fresh(input.raw.mem))
    ensures input.buffer.Contents() == old(input.buffer.Contents())
    ensures !ok ==> input.raw.overflow
    ensures ok ==> !input.raw.overflow && input.raw.Contents() == old(input.raw.Contents()) + piece
  {
    ok := input.raw.Add(piece);
  }

  lemma PendingIsAll(raw: Buf)
    requires raw.Valid() && !raw.overflow
    ensures Pending(raw) == raw.Contents()
  {
  }
}
