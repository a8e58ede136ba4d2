/** The string hash of dict.c and include/private/dict.h: a fold over the bytes whose
    result always has the top bit set, because 0 marks an unoccupied bucket. */
module DictHash {
  import opened Bytes

  datatype State = State(h1: bv32, h2: bv32)

  function Rol(x: bv32, n: bv6): bv32
    requires n <= 32
  {
    (x << n) | (x >> (32 - n))
  }

  function Ror(x: bv32, n: bv6): bv32
    requires n <= 32
  {
    (x >> n) | (x << (32 - n))
  }

  function Init(seed: bv32): State {
    State(seed ^ 0x3b00, Rol(seed, 15))
  }

  function Update(s: State, ch: byte): State {
    var a := s.h1 + ch as bv32;
    var h1 := a + (a << 3);
    var b := Rol(s.h2 + h1, 7);
    State(h1, b + (b << 2))
  }

  function Finish(s: State): bv32 {
    var h1 := (s.h1 ^ s.h2) + Rol(s.h2, 14);
    var h2 := (s.h2 ^ h1) + Ror(h1, 6);
    var k1 := (h1 ^ h2) + Rol(h2, 5);
    (h2 ^ k1) + Ror(k1, 8)
  }

  function SetTopBit(h: bv32): (r: nat)
    ensures 0 < r < 0x1_0000_0000
  {
    (h | 0x8000_0000) as nat
  }

  function Fold(seed: bv32, s: seq<byte>): State {
    if s == [] then Init(seed) else Update(Fold(seed, s[..|s| - 1]), s[|s| - 1])
  }

  /** The hash value of a string. */
  function Hash(seed: bv32, s: seq<byte>): (r: nat)
    ensures r > 0
  {
    SetTopBit(Finish(Fold(seed, s)))
  }

  /** xmlDictHashName: hash up to the first zero byte or `maxLen` bytes, and report the length. */
  method HashName(seed: bv32, data: seq<byte>, maxLen: int) returns (hash: nat, len: nat)
    ensures len == |CStr(data, maxLen)| && CStr(data, maxLen) == data[..len]
    ensures hash == Hash(seed, CStr(data, maxLen))
  {
    hide Update, Init, Finish, SetTopBit;
    var s, i := FoldOn(seed, Init(seed), [], data, maxLen);
    len := i;
    assert [] + data[..i] == data[..i];
    hash := SetTopBit(Finish(s));
  }

  /** xmlDictHashQName: hash `prefix:name` without building it. */
  method HashQName(seed: bv32, prefix: seq<byte>, name: seq<byte>) returns (hash: nat, plen: nat, len: nat)
    ensures plen == |CStr(prefix, -1)| && len == |CStr(name, -1)|
    ensures hash == Hash(seed, CStr(prefix, -1) + [0x3A] + CStr(name, -1))
  {
    hide Update, Init, Finish, SetTopBit;
    var s, i := FoldOn(seed, Init(seed), [], prefix, -1);
    plen := i;
    var p := prefix[..i];
    assert [] + p == p && (p + [0x3A])[..|p|] == p;
    s := Update(s, 0x3A);
    s, i := FoldOn(seed, s, p + [0x3A], name, -1);
    len := i;
    hash := SetTopBit(Finish(s));
  }

  /** The byte loop shared by the two hash functions, continuing after the bytes `done`. */
  method FoldOn(seed: bv32, s0: State, ghost done: seq<byte>, data: seq<byte>, maxLen: int) returns (s: State, i: nat)
    requires s0 == Fold(seed, done)
    ensures i == |CStr(data, maxLen)| && CStr(data, maxLen) == data[..i]
    ensures s == Fold(seed, done + data[..i])
  {
    hide Update, Init;
    s, i := s0, 0;
    assert done + data[..0] == done;
    while (maxLen < 0 || i < maxLen) && i < |data| && data[i] != 0
      invariant i <= |data| && (maxLen < 0 || i <= maxLen) && 0 !in data[..i]
      invariant s == Fold(seed, done + data[..i])
    {
      assert (done + data[..i + 1])[..|done| + i] == done + data[..i];
      s := Update(s, data[i]);
      i := i + 1;
    }
    CStrExtends(data, maxLen, i);
  }
}
