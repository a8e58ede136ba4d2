/** Bytes and C strings. */
module Bytes {
  type byte = x: int | 0 <= x < 256

  /** A continuation byte of UTF-8. */
  predicate IsCont(b: byte) { 0x80 <= b < 0xC0 }

  /** Chunks of input put together. */
  ghost function Flatten(chunks: seq<seq<byte>>): seq<byte> {
    if chunks == [] then [] else chunks[0] + Flatten(chunks[1..])
  }

  datatype Option<+T> = None | Some(value: T)

  /** The C string held in `data`: what precedes the first zero byte, cut at `maxLen` unless
      that is negative. `data` counts as zero-terminated. */
  function CStr(data: seq<byte>, maxLen: int): (s: seq<byte>)
    ensures 0 !in s && s <= data
  {
    if data == [] || data[0] == 0 || maxLen == 0 then []
    else [data[0]] + CStr(data[1..], if maxLen < 0 then maxLen else maxLen - 1)
  }

  lemma {:induction false} CStrExtends(data: seq<byte>, maxLen: int, i: nat)
    requires i <= |data| && (maxLen < 0 || i <= maxLen) && 0 !in data[..i]
    requires i == |data| || i == maxLen || data[i] == 0
    ensures CStr(data, maxLen) == data[..i]
  {
    if i > 0 {
      assert data[..i] == [data[0]] + data[1..][..i - 1];
      CStrExtends(data[1..], if maxLen < 0 then maxLen else maxLen - 1, i - 1);
    }
  }
}
