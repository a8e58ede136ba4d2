/** Decimal character references (encoding.c:1934-1960). */
module CharRef {
  import opened Bytes

  const AMPERSAND: byte := 0x26
  const HASH: byte := 0x23
  const SEMICOLON: byte := 0x3B

  predicate Digit(b: byte) { 0x30 <= b <= 0x39 }

  /** The number that decimal digits stand for. */
  ghost function Value(s: seq<byte>): int {
    if s == [] then 0
    else
      var last: int := s[|s| - 1];
      Value(s[..|s| - 1]) * 10 + last - 0x30
  }

  /** `&#` digits `;` */
  ghost predicate IsReference(s: seq<byte>, val: int) {
    && |s| >= 4 && s[0] == AMPERSAND && s[1] == HASH && s[|s| - 1] == SEMICOLON
    && (forall i :: 2 <= i < |s| - 1 ==> Digit(s[i]))
    && Value(s[2..|s| - 1]) == val
    && (s[2] == 0x30 ==> |s| == 4)
  }

  /** The decimal digits of a number, most significant first. */
  ghost function Decimal(val: nat): (s: seq<byte>)
    ensures s != [] && forall i :: 0 <= i < |s| ==> Digit(s[i])
    ensures s[0] == 0x30 ==> val == 0 && |s| == 1
  {
    if val < 10 then [0x30 + val] else Decimal(val / 10) + [0x30 + val % 10]
  }

  lemma {:induction false} DecimalReads(val: nat)
    ensures Value(Decimal(val)) == val
  {
    if val >= 10 {
      DecimalReads(val / 10);
      var s := Decimal(val);
      assert s[..|s| - 1] == Decimal(val / 10);
    } else {
      assert Value([]) == 0 && [0x30 + val][..0] == [];
    }
  }

  /** Every number has one reference without leading zeros. */
  lemma {:induction false} ValueDetermines(s: seq<byte>)
    requires s != [] && forall i :: 0 <= i < |s| ==> Digit(s[i])
    requires s[0] == 0x30 ==> |s| == 1
    ensures Value(s) >= 0 && s == Decimal(Value(s)) && (|s| > 1 ==> Value(s) >= 10)
  {
    var n := |s| - 1;
    var init := s[..n];
    assert s == init + [s[n]];
    if n == 0 {
      assert Value(init) == 0;
    } else {
      ValueDetermines(init);
      var v, d: int := Value(init), s[n] - 0x30;
      assert Value(s) == v * 10 + d && (v * 10 + d) / 10 == v && (v * 10 + d) % 10 == d;
      assert v >= 1 by { PositiveValue(init); }
    }
  }

  lemma {:induction false} PositiveValue(s: seq<byte>)
    requires s != [] && forall i :: 0 <= i < |s| ==> Digit(s[i])
    requires s[0] != 0x30
    ensures Value(s) >= 1
  {
    if |s| == 1 {
      assert Value(s[..0]) == 0;
    } else {
      PositiveValue(s[..|s| - 1]);
    }
  }

  /** The reference that stands for a character. */
  ghost function Reference(val: nat): seq<byte> {
    [AMPERSAND, HASH] + Decimal(val) + [SEMICOLON]
  }

  lemma ReferenceReads(val: nat)
    ensures IsReference(Reference(val), val)
  {
    DecimalReads(val);
    var s := Reference(val);
    assert s[2..|s| - 1] == Decimal(val);
    assert forall i :: 2 <= i < |s| - 1 ==> s[i] == Decimal(val)[i - 2];
  }

  lemma ReferenceUnique(s: seq<byte>, val: nat)
    requires IsReference(s, val)
    ensures s == Reference(val)
  {
    var digits := s[2..|s| - 1];
    assert forall i :: 0 <= i < |digits| ==> digits[i] == s[i + 2];
    ValueDetermines(digits);
    assert s == [s[0], s[1]] + digits + [s[|s| - 1]];
  }

  function DigitCount(val: nat): (n: nat)
    ensures 1 <= n <= 7
  {
    if val < 100 then (if val < 10 then 1 else 2)
    else if val < 10000 then (if val < 1000 then 3 else 4)
    else if val < 1000000 then (if val < 100000 then 5 else 6)
    else 7
  }

  lemma CountIsLength(val: nat)
    requires val < 10000000
    ensures |Decimal(val)| == DigitCount(val)
  {
    if val >= 10 {
      CountIsLength(val / 10);
    }
  }

  /** The digits that the loop still has to write, followed by those written. */
  lemma DigitsSplit(val: nat)
    requires val >= 10
    ensures Decimal(val) == Decimal(val / 10) + [0x30 + val % 10]
  {
  }

  /** xmlSerializeDecCharRef */
  method SerializeDecCharRef(val: nat) returns (buf: seq<byte>)
    requires val <= 0x10FFFF
    ensures buf == Reference(val)
    ensures IsReference(buf, val) && |buf| <= 10
  {
    CountIsLength(val);
    ReferenceReads(val);
    hide IsReference;
    var len := DigitCount(val);
    var digits: seq<byte>, v, i: int := [], val, len - 1;
    while i >= 0
      invariant -1 <= i < len && |digits| == len - 1 - i
      invariant i >= 0 ==> |Decimal(v)| == i + 1 && Decimal(v) + digits == Decimal(val)
      invariant i < 0 ==> digits == Decimal(val)
    {
      if v >= 10 {
        DigitsSplit(v);
        assert Decimal(v / 10) + ([0x30 + v % 10] + digits) == Decimal(v) + digits;
      }
      digits := [0x30 + v % 10] + digits;
      v := v / 10;
      i := i - 1;
    }
    buf := [AMPERSAND, HASH] + digits + [SEMICOLON];
  }
}
