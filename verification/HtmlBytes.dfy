/** Byte classes, UTF-8 validation and the entity matcher's contract, shared by the HTML
    tokenizer modules. */
module HtmlBytes {
  import opened Bytes

  const NUL: byte := 0x00
  const LF: byte := 0x0A
  const CR: byte := 0x0D
  const BANG: byte := 0x21
  const DQUOTE: byte := 0x22
  const HASH: byte := 0x23
  const AMP: byte := 0x26
  const SQUOTE: byte := 0x27
  const DASH: byte := 0x2D
  const SLASH: byte := 0x2F
  const SEMI: byte := 0x3B
  const LT: byte := 0x3C
  const EQ: byte := 0x3D
  const GT: byte := 0x3E

  /** IS_WS_HTML */
  predicate IsWs(c: byte) {
    c == 0x20 || (0x09 <= c <= 0x0D && c != 0x0B)
  }

  /** The result of `c | 0x20`. */
  function Lower(c: byte): byte {
    if (c / 32) % 2 == 0 then c + 32 else c
  }

  predicate IsLetter(c: byte) {
    0x41 <= c <= 0x5A || 0x61 <= c <= 0x7A
  }

  predicate IsDigit(c: byte) {
    0x30 <= c <= 0x39
  }

  predicate IsHexDigit(c: byte) {
    IsDigit(c) || 0x61 <= Lower(c) <= 0x66
  }

  predicate IsAlnum(c: byte) {
    IsLetter(c) || IsDigit(c)
  }

  /** htmlValidateUtf8: the length of the sequence that starts s, 0 if it is cut off and the
      input is partial, -1 if it is invalid. */
  function ValidateUtf8(s: seq<byte>, partial: bool): (n: int)
    requires s != []
    ensures -1 <= n <= 4 && n <= |s|
    ensures n > 0 ==> n >= 2 && forall k :: 1 <= k < n ==> IsCont(s[k])
  {
    var c := s[0];
    var incomplete := if partial then 0 else -1;
    if c < 0xC2 then -1
    else if c < 0xE0 then
      if |s| < 2 then incomplete
      else if !IsCont(s[1]) then -1 else 2
    else if c < 0xF0 then
      if |s| < 3 then incomplete
      else if !IsCont(s[1]) || !IsCont(s[2]) || (c == 0xE0 && s[1] < 0xA0) || (c == 0xED && s[1] >= 0xA0) then -1 else 3
    else
      if |s| < 4 then incomplete
      else if !IsCont(s[1]) || !IsCont(s[2]) || !IsCont(s[3]) || (c == 0xF0 && s[1] < 0x90) ||
        (c == 0xF4 && s[1] >= 0x90) || c > 0xF4 then -1
      else 4
  }

  /** What htmlFindEntityPrefix finds in the bytes after an ampersand: how many of them the
      reference takes, and its replacement text. */
  datatype Entity = NoEntity | Entity(len: nat, text: seq<byte>)

  type Matcher = (seq<byte>, bool) -> Entity

  /** The first byte from i on that cannot continue an entity name: names have at most 31
      letters and digits, the first of them a letter. */
  function NameRun(s: seq<byte>, i: nat): (n: nat)
    requires i <= |s|
    ensures i <= n <= |s|
    decreases |s| - i
  {
    if i == |s| || i >= 31 || !(IsLetter(s[i]) || (i >= 1 && IsDigit(s[i]))) then i
    else NameRun(s, i + 1)
  }

  /** The bytes that a match can depend on: a name and one byte more. */
  function NameBound(s: seq<byte>): (n: nat)
    ensures n <= |s|
  {
    if NameRun(s, 0) < |s| then NameRun(s, 0) + 1 else |s|
  }

  /** The contract of the entity table search: a match is made of letters and digits, perhaps
      with a final semicolon, and depends on no byte beyond the name's bound. */
  ghost predicate MatcherOk(find: Matcher) {
    && (forall s, attr :: find(s, attr).Entity? ==>
          0 < find(s, attr).len <= |s| && find(s, attr).text != [] &&
          forall k :: 0 <= k < find(s, attr).len ==> IsAlnum(s[k]) || s[k] == SEMI)
    && (forall s, attr :: find(s, attr) == find(s[..NameBound(s)], attr))
  }
}
