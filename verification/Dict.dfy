/** The string dictionary of dict.c: interning in a Robin Hood table over append-only
    string pools, with an optional read-only sub-dictionary. Allocation outcomes are
    parameters (`growOk` for the bucket array, `poolOk` for a new pool). */
module Dictionary {
  import opened OpenAddressing
  import opened Bytes
  import opened RobinHood
  import opened DictTable
  import opened DictHash

  const MIN_HASH_SIZE: nat := 8
  const MAX_HASH_SIZE: nat := 0x8000_0000
  const MAX_KEY: nat := 0x3FFF_FFFF  // INT_MAX / 2
  const COLON: byte := 0x3A

  /** A pointer into a pool: pools are numbered in order of creation. */
  datatype Handle = Nil | At(pool: nat, off: nat)

  /** What a lookup hands out: a pointer into this dictionary's or the sub-dictionary's pools. */
  datatype Interned = Null | Own(handle: Handle) | FromSub(handle: Handle)

  /** The strings in the table, by the pointer under which they are interned. */
  type Names = map<Handle, seq<byte>>

  function Key(prefix: Option<seq<byte>>, name: seq<byte>): seq<byte> {
    match prefix
    case None => name
    case Some(p) => p + [COLON] + name
  }

  /** The string that a lookup is about. */
  function LookupKey(prefix: Option<seq<byte>>, name: seq<byte>, maybeLen: int): seq<byte> {
    Key(CutPrefix(prefix), CStr(name, if prefix.None? then maybeLen else -1))
  }

  lemma KeyLength(p: Option<seq<byte>>, n: seq<byte>)
    ensures |Key(p, n)| == |n| + if p.Some? then |p.value| + 1 else 0
  {
  }

  function CutPrefix(prefix: Option<seq<byte>>): Option<seq<byte>> {
    match prefix
    case None => None
    case Some(p) => Some(CStr(p, -1))
  }

  predicate EmptyPrefix(prefix: Option<seq<byte>>) {
    CutPrefix(prefix) == Some([])
  }

  /** The string is neither too long for an int nor over the dictionary's limit. */
  ghost predicate Admitted(prefix: Option<seq<byte>>, name: seq<byte>, maybeLen: int, limit: nat) {
    var n, p := CStr(name, if prefix.None? then maybeLen else -1), CutPrefix(prefix);
    && |n| <= 0x3FFF_FFFF
    && (p.Some? ==> |p.value| < 0x3FFF_FFFF - |n|)
    && (limit > 0 ==> |LookupKey(prefix, name, maybeLen)| < limit)
  }

  ghost predicate Holds(names: Names, s: seq<byte>) {
    exists h :: h in names && names[h] == s
  }

  /** No string is interned twice. */
  ghost predicate Canonical(names: Names) {
    forall a, b :: a in names && b in names && names[a] == names[b] ==> a == b
  }

  /** How often an occupied bucket occurs in the table of these names. */
  ghost function Weight(e: Entry<Handle>, seed: bv32, names: Names): nat {
    if e.name in names && e.hash == Hash(seed, names[e.name]) then 1 else 0
  }

  /** The invariant of the bucket array: no buckets, or a power of two of them, at most 7/8
      occupied, in Robin Hood order, holding each interned string exactly once. */
  ghost predicate TableOk(t: seq<Entry<Handle>>, seed: bv32, names: Names, nbElems: nat) {
    && (t == [] || (PowerOfTwo(|t|) && MIN_HASH_SIZE <= |t| <= MAX_HASH_SIZE))
    && Occupied(t) == nbElems && nbElems <= |t| / 8 * 7
    && RobinHoodOrder(t)
    && forall e :: !Free(e) ==> multiset(t)[e] == Weight(e, seed, names)
  }

  /** A string pool. */
  class DictStrings {
    const chars: array<byte>
    var free: nat

    constructor (size: nat)
      ensures fresh(chars) && chars.Length == size && free == 0
    {
      chars := new byte[size](_ => 0);
      free := 0;
    }

    ghost function Used(): seq<byte>
      reads this, chars
    {
      if free <= chars.Length then chars[..free] else []
    }

    /** memcpy to the free pointer, which moves behind the bytes; what precedes it stays. */
    method Append(data: seq<byte>)
      requires free + |data| <= chars.Length
      modifies this, chars
      ensures free == old(free) + |data| && Used() == old(Used()) + data
    {
      forall k | 0 <= k < |data| {
        chars[free + k] := data[k];
      }
      free := free + |data|;
    }

    /** A string and its terminator. */
    method AppendString(s: seq<byte>)
      requires free + |s| < chars.Length
      modifies this, chars
      ensures free == old(free) + |s| + 1 <= chars.Length && Used() == old(Used()) + s + [0]
    {
      Append(s);
      Append([0]);
    }
  }

  /** The size of all pools together. */
  ghost function PoolTotal(pools: seq<DictStrings>): nat {
    if pools == [] then 0 else pools[0].chars.Length + PoolTotal(pools[1..])
  }

  lemma Terminated(u: seq<byte>, s: seq<byte>)
    requires 0 !in s
    ensures StringAt(u + s + [0], |u|, s)
  {
  }

  /** A zero-terminated copy of s starts at this offset. */
  ghost predicate StringAt(used: seq<byte>, off: nat, s: seq<byte>) {
    off + |s| < |used| && used[off..off + |s|] == s && used[off + |s|] == 0 && 0 !in s
  }

  /** Pointer h addresses a copy of s in the used part of its pool. */
  ghost predicate IsString(strings: seq<DictStrings>, h: Handle, s: seq<byte>)
    reads strings, set p | p in strings :: p.chars
  {
    h.At? && h.pool < |strings| && StringAt(strings[h.pool].Used(), h.off, s)
  }

  ghost predicate PoolsDistinct(strings: seq<DictStrings>) {
    forall i, j :: 0 <= i < j < |strings| ==> strings[i] != strings[j] && strings[i].chars != strings[j].chars
  }

  ghost predicate PoolsFilled(strings: seq<DictStrings>, repr: set<object>)
    reads strings
  {
    forall i :: 0 <= i < |strings| ==>
      strings[i] in repr && strings[i].chars in repr && strings[i].free <= strings[i].chars.Length
  }

  ghost predicate Stored(strings: seq<DictStrings>, names: Names)
    reads strings, set p | p in strings :: p.chars
  {
    forall h :: h in names ==> IsString(strings, h, names[h])
  }

  lemma PoolAdded(strings: seq<DictStrings>, p: DictStrings, repr: set<object>, names: Names)
    requires PoolsDistinct(strings) && PoolsFilled(strings, repr) && Stored(strings, names)
    requires p !in repr && p.chars !in repr && p.free <= p.chars.Length
    ensures PoolsDistinct(strings + [p]) && PoolsFilled(strings + [p], repr + {p, p.chars}) &&
            Stored(strings + [p], names)
  {
    var t := strings + [p];
    forall h | h in names
      ensures IsString(t, h, names[h])
    {
      assert IsString(strings, h, names[h]) && t[h.pool] == strings[h.pool];
    }
  }

  /** The used parts of these pools are extended only: strings once handed out are neither
      moved nor overwritten. */
  twostate predicate PoolsKept(strings: seq<DictStrings>)
    reads strings, set p | p in strings :: p.chars
  {
    forall p :: p in strings ==> old(p.Used()) <= p.Used()
  }

  /** A string stays readable through its pointer when more bytes are used behind it. */
  lemma StringKept(used: seq<byte>, used': seq<byte>, off: nat, s: seq<byte>)
    requires StringAt(used, off, s) && used <= used'
    ensures StringAt(used', off, s)
  {
    assert used'[..|used|][off..off + |s|] == used'[off..off + |s|];
  }

  /** Compare a stored string byte by byte with s, up to the first difference. */
  method Compare(c: array<byte>, off: nat, ghost str: seq<byte>, s: seq<byte>) returns (i: nat)
    requires StringAt(c[..], off, str) && 0 !in s
    ensures i <= |s| && i <= |str| && str[..i] == s[..i] && (i < |s| ==> i == |str| || str[i] != s[i])
    ensures c[off + i] == if i < |str| then str[i] else 0
  {
    i := 0;
    assert forall k :: 0 <= k < |str| ==> c[off + k] == c[..][off..off + |str|][k] == str[k];
    while i < |s| && c[off + i] == s[i]
      invariant i <= |s| && i <= |str| && str[..i] == s[..i]
    {
      i := i + 1;
    }
  }

  method ComparePrefixed(c: array<byte>, off: nat, ghost str: seq<byte>, prefix: seq<byte>, name: seq<byte>)
    returns (eq: bool)
    requires StringAt(c[..], off, str) && 0 !in prefix && 0 !in name
    ensures eq <==>
            |str| > |prefix| && str[..|prefix|] == prefix && str[|prefix|] == COLON && str[|prefix| + 1..] == name
  {
    var i := Compare(c, off, str, prefix);
    if i < |prefix| || c[off + i] != COLON {
      return false;
    }
    Suffix(c[..], off, str, i + 1);
    var k := Compare(c, off + i + 1, str[i + 1..], name);
    eq := k == |name| && c[off + i + 1 + k] == 0;
  }

  lemma Suffix(used: seq<byte>, off: nat, s: seq<byte>, i: nat)
    requires StringAt(used, off, s) && i <= |s|
    ensures StringAt(used, off + i, s[i..])
  {
  }

  lemma QNameIs(s: seq<byte>, prefix: seq<byte>, name: seq<byte>)
    ensures s == Key(Some(prefix), name) <==>
            |s| > |prefix| && s[..|prefix|] == prefix && s[|prefix|] == COLON && s[|prefix| + 1..] == name
  {
    if |s| > |prefix| {
      assert s == s[..|prefix|] + [s[|prefix|]] + s[|prefix| + 1..];
    }
  }

  // --- What a lookup does to the set of names ------------------------------------------

  /** A lookup of `key`: found here, else found in the sub-dictionary, else added under a new
      pointer or not at all. */
  ghost predicate Looked(names: Names, sub: Names, key: seq<byte>, r: Interned, names': Names) {
    match r
    case Null => names' == names
    case Own(h) =>
      && h in names' && names'[h] == key
      && if Holds(names, key) then names' == names
         else h !in names && !Holds(sub, key) && names' == names[h := key]
    case FromSub(h) => names' == names && !Holds(names, key) && h in sub && sub[h] == key
  }

  /** The same with an empty prefix: the comparison with stored names never succeeds. */
  ghost predicate LookedUnmatched(names: Names, key: seq<byte>, r: Interned, names': Names) {
    match r
    case Null => names' == names
    case Own(h) => h !in names && names' == names[h := key]
    case FromSub(_) => false
  }

  /** One step of a run: what was looked up, whether with an empty prefix, what came back, and the
      names before it. */
  datatype Step = Step(names: Names, key: seq<byte>, unmatched: bool, result: Interned)

  ghost predicate Run(steps: seq<Step>, sub: Names, last: Names) {
    forall i :: 0 <= i < |steps| ==> Stepped(steps[i], sub, After(steps, i, last))
  }

  ghost predicate Stepped(step: Step, sub: Names, names': Names) {
    if step.unmatched then LookedUnmatched(step.names, step.key, step.result, names')
    else Looked(step.names, sub, step.key, step.result, names')
  }

  ghost function After(steps: seq<Step>, i: nat, last: Names): Names
    requires i < |steps|
  {
    if i + 1 < |steps| then steps[i + 1].names else last
  }

  /** No string is interned twice, not even once here and once in the sub-dictionary. */
  ghost predicate CanonicalPair(names: Names, sub: Names) {
    Canonical(names) && Canonical(sub) && forall s :: Holds(names, s) ==> !Holds(sub, s)
  }

  /** A lookup that is harmless: its prefix is not empty, or it fails, or the string is new. */
  ghost predicate Harmless(step: Step, sub: Names) {
    !step.unmatched || step.result == Null || (!Holds(step.names, step.key) && !Holds(sub, step.key))
  }

  /** A lookup keeps strings unique, forgets no name, and moves none. */
  lemma LookedKeeps(names: Names, sub: Names, key: seq<byte>, r: Interned, names': Names)
    requires Looked(names, sub, key, r, names')
    ensures Canonical(names) ==> Canonical(names')
    ensures forall h :: h in names ==> h in names' && names'[h] == names[h]
    ensures forall s :: Holds(names', s) ==> Holds(names, s) || (s == key && !Holds(sub, s))
  {
    forall s | Holds(names', s) && !Holds(names, s)
      ensures s == key && !Holds(sub, s)
    {
      var h :| h in names' && names'[h] == s;
    }
  }

  /** Names are still there under their pointers, and no string of the sub-dictionary was added. */
  ghost predicate Later(names: Names, names': Names, sub: Names) {
    && (forall h :: h in names ==> h in names' && names'[h] == names[h])
    && (forall s :: Holds(names', s) ==> Holds(names, s) || !Holds(sub, s))
  }

  lemma LaterOn(names: Names, names': Names, names'': Names, sub: Names)
    requires Later(names, names', sub) && Later(names', names'', sub)
    ensures Later(names, names'', sub)
  {
  }

  /** So does every harmless step. */
  lemma StepKeeps(step: Step, sub: Names, names': Names)
    requires Stepped(step, sub, names') && Harmless(step, sub)
    ensures Canonical(step.names) ==> Canonical(names')
    ensures Later(step.names, names', sub)
    ensures step.result.Own? ==> step.result.handle in names' && names'[step.result.handle] == step.key
    ensures step.result.FromSub? ==>
              step.result.handle in sub && sub[step.result.handle] == step.key && !Holds(step.names, step.key)
  {
    if !step.unmatched {
      LookedKeeps(step.names, sub, step.key, step.result, names');
    } else if step.result.Own? {
      forall a | a in step.names
        ensures step.names[a] != step.key
      {
        assert Holds(step.names, step.names[a]);
      }
      forall s | Holds(names', s) && !Holds(step.names, s)
        ensures s == step.key && !Holds(sub, s)
      {
        var h :| h in names' && names'[h] == s;
      }
    }
  }

  /** Along a run of harmless steps, names present at step i are present, under the same pointer,
      at step j, and no string of the sub-dictionary has been added. */
  lemma {:induction false} RunKeeps(steps: seq<Step>, sub: Names, last: Names, i: nat, j: nat)
    requires Run(steps, sub, last) && i <= j < |steps| && Canonical(steps[i].names)
    requires forall k :: 0 <= k < |steps| ==> Harmless(steps[k], sub)
    ensures Canonical(steps[j].names) && Later(steps[i].names, steps[j].names, sub)
  {
    hide Stepped, Harmless, Later, Canonical, Run;
    if i < j {
      RunKeeps(steps, sub, last, i, j - 1);
      StepOf(steps, sub, last, j - 1);
      StepKeeps(steps[j - 1], sub, steps[j].names);
      LaterOn(steps[i].names, steps[j - 1].names, steps[j].names, sub);
    } else {
      LaterSame(steps[i].names, sub);
    }
  }

  lemma StepOf(steps: seq<Step>, sub: Names, last: Names, k: nat)
    requires Run(steps, sub, last) && k < |steps|
    ensures Stepped(steps[k], sub, After(steps, k, last))
  {
  }

  lemma LaterSame(names: Names, sub: Names)
    ensures Later(names, names, sub)
  {
  }

  /** Interning is canonical: over every run of harmless lookups, two successful ones return the
      same pointer exactly when they looked up the same string. */
  lemma {:induction false} InterningIsCanonical(steps: seq<Step>, sub: Names, last: Names, i: nat, j: nat)
    requires Run(steps, sub, last) && i < j < |steps|
    requires forall k :: 0 <= k < |steps| ==> Harmless(steps[k], sub)
    requires Canonical(steps[0].names) && Canonical(sub)
    requires steps[i].result != Null && steps[j].result != Null
    ensures steps[i].result == steps[j].result <==> steps[i].key == steps[j].key
  {
    var a, b := steps[i], steps[j];
    RunKeeps(steps, sub, last, 0, i);
    StepKeeps(a, sub, steps[i + 1].names);
    RunKeeps(steps, sub, last, i + 1, j);
    StepKeeps(b, sub, After(steps, j, last));
    hide Run, Later;
    SameResult(a, b, sub, steps[i + 1].names, After(steps, j, last));
  }

  /** Two steps of a run, the names between them kept. */
  lemma SameResult(a: Step, b: Step, sub: Names, mid: Names, last: Names)
    requires Stepped(a, sub, mid) && Stepped(b, sub, last) && Harmless(a, sub) && Harmless(b, sub)
    requires a.result != Null && b.result != Null && Canonical(last) && Canonical(sub)
    requires Later(mid, b.names, sub)
    ensures a.result == b.result <==> a.key == b.key
  {
    StepKeeps(a, sub, mid);
    StepKeeps(b, sub, last);
    if a.result.Own? {
      HeldBy(mid, a.result.handle, a.key);
      HeldBy(b.names, a.result.handle, a.key);
    } else {
      HeldBy(sub, a.result.handle, a.key);
    }
  }

  /** A lookup with an empty prefix that succeeds keeps strings unique exactly if the string was
      neither here nor in the sub-dictionary, which xmlDictExists can tell before the call. */
  lemma UnmatchedCanonicalIff(names: Names, sub: Names, key: seq<byte>, r: Interned, names': Names)
    requires LookedUnmatched(names, key, r, names') && CanonicalPair(names, sub)
    ensures r != Null ==> (CanonicalPair(names', sub) <==> !Holds(names, key) && !Holds(sub, key))
    ensures r == Null ==> CanonicalPair(names', sub)
  {
    if r != Null {
      HeldBy(names', r.handle, key);
      if Holds(names, key) {
        var h :| h in names && names[h] == key;
        assert names'[h] == names'[r.handle];
      } else if !Holds(sub, key) {
        StepKeeps(Step(names, key, true, r), sub, names');
      }
    }
  }

  // --- The table of the names -----------------------------------------------------------

  /** An interned string has its bucket. */
  lemma BucketOf(t: seq<Entry<Handle>>, seed: bv32, names: Names, nbElems: nat, h: Handle) returns (x: nat)
    requires TableOk(t, seed, names, nbElems) && h in names
    ensures x < |t| && t[x] == Entry(Hash(seed, names[h]), h)
  {
    var e := Entry(Hash(seed, names[h]), h);
    assert multiset(t)[e] == 1;
    assert e in t;
    x :| x < |t| && t[x] == e;
  }

  /** A bucket belongs to an interned string. */
  lemma NameOf(t: seq<Entry<Handle>>, seed: bv32, names: Names, nbElems: nat, x: nat)
    requires TableOk(t, seed, names, nbElems) && x < |t| && !Free(t[x])
    ensures t[x].name in names && t[x].hash == Hash(seed, names[t[x].name])
  {
    assert t[x] in multiset(t);
  }

  /** When the probe gave up at bucket j without a match before, the string is not interned. */
  lemma NotInterned(t: seq<Entry<Handle>>, seed: bv32, names: Names, nbElems: nat, key: seq<byte>, j: nat)
    requires TableOk(t, seed, names, nbElems) && GivesUp(t, Hash(seed, key), j)
    requires forall k :: 0 <= k < j ==> Differs(t, names, Slot(Hash(seed, key), k, |t|), key)
    ensures !Holds(names, key)
  {
    if Holds(names, key) {
      var h :| h in names && names[h] == key;
      var x := BucketOf(t, seed, names, nbElems, h);
      var d := ProbeFinds(t, x);
    }
  }

  ghost predicate Differs(t: seq<Entry<Handle>>, names: Names, x: nat, key: seq<byte>)
    requires x < |t|
  {
    t[x].name in names ==> names[t[x].name] != key
  }

  /** Every table with buckets has an unoccupied one, which the probe reaches after kf steps. */
  lemma SomeFree(t: seq<Entry<Handle>>, seed: bv32, names: Names, nbElems: nat, hash: nat) returns (kf: nat)
    requires TableOk(t, seed, names, nbElems) && t != []
    ensures kf < |t| && !Passes(t, hash, kf)
  {
    var f := FreeExists(t, -1);
    kf := SlotOf(hash, f, |t|);
  }

  lemma SomeFreeBucket(t: seq<Entry<Handle>>, seed: bv32, names: Names, nbElems: nat) returns (f: nat)
    requires TableOk(t, seed, names, nbElems) && t != []
    ensures f < |t| && Free(t[f])
  {
    f := FreeExists(t, -1);
  }

  lemma RoomForOne(t: seq<Entry<Handle>>, seed: bv32, names: Names, nbElems: nat)
    requires TableOk(t, seed, names, nbElems) && nbElems + 1 <= |t| / 8 * 7
    ensures Occupied(t) + 2 <= |t| && RobinHoodOrder(t)
  {
  }

  lemma OneMoreStored(strings: seq<DictStrings>, names: Names, h: Handle, key: seq<byte>)
    requires Stored(strings, names) && IsString(strings, h, key)
    ensures Stored(strings, names[h := key])
  {
  }

  lemma FewerThanBuckets(t: seq<Entry<Handle>>, seed: bv32, names: Names, nbElems: nat)
    requires TableOk(t, seed, names, nbElems) && t != []
    ensures Occupied(t) < |t| && RobinHoodOrder(t)
  {
  }

  lemma EmptyTable(seed: bv32, names: Names, nbElems: nat, key: seq<byte>)
    requires TableOk([], seed, names, nbElems)
    ensures !Holds(names, key)
  {
    hide Hash;
    forall h | h in names
      ensures names[h] != key
    {
      var x := BucketOf([], seed, names, nbElems, h);
    }
  }

  lemma NoNames(seed: bv32)
    ensures TableOk([], seed, map[], 0)
  {
  }

  lemma NothingHeld(key: seq<byte>)
    ensures !Holds(map[], key)
  {
  }

  lemma HeldBy(names: Names, h: Handle, key: seq<byte>)
    requires h in names && names[h] == key
    ensures Holds(names, key)
  {
  }

  lemma SizeBound(t: seq<Entry<Handle>>, seed: bv32, names: Names, nbElems: nat)
    requires TableOk(t, seed, names, nbElems)
    ensures t == [] || (PowerOfTwo(|t|) && |t| <= MAX_HASH_SIZE)
    ensures t != [] && |t| < MAX_HASH_SIZE ==> 2 * |t| <= MAX_HASH_SIZE
  {
    if t != [] && |t| < MAX_HASH_SIZE {
      MaxIsPowerOfTwo();
      PowersBelow(|t|, MAX_HASH_SIZE);
    }
  }

  lemma Times16(n: nat)
    requires PowerOfTwo(n)
    ensures PowerOfTwo(16 * n)
  {
    hide PowerOfTwo;
    Doubled(n);
    Doubled(2 * n);
    Doubled(4 * n);
    Doubled(8 * n);
    assert 2 * (8 * n) == 16 * n && 2 * (4 * n) == 8 * n && 2 * (2 * n) == 4 * n;
  }

  lemma MaxIsPowerOfTwo()
    ensures PowerOfTwo(MAX_HASH_SIZE)
  {
    EightIsPowerOfTwo();
    Times16(0x8);
    Times16(0x80);
    Times16(0x800);
    Times16(0x8000);
    Times16(0x8_0000);
    Times16(0x80_0000);
    Times16(0x800_0000);
  }

  lemma SameKey(p: Option<seq<byte>>, n: seq<byte>)
    requires 0 !in n && (p.Some? ==> 0 !in p.value)
    ensures LookupKey(p, n, -1) == Key(p, n)
  {
    CStrExtends(n, -1, |n|);
    if p.Some? {
      CStrExtends(p.value, -1, |p.value|);
    }
  }

  /** The first table: eight unoccupied buckets. */
  method FirstTable(ghost seed: bv32, ghost names: Names, ghost nbElems: nat, ghost t: seq<Entry<Handle>>)
    returns (table: array<Entry<Handle>>)
    requires TableOk(t, seed, names, nbElems) && t == []
    ensures fresh(table) && table.Length == MIN_HASH_SIZE && TableOk(table[..], seed, names, nbElems)
  {
    hide Hash;
    table := new Entry<Handle>[MIN_HASH_SIZE](_ => Entry(0, Nil));
    NoneOccupied(table[..]);
    EightIsPowerOfTwo();
    forall e | !Free(e)
      ensures multiset(table[..])[e] == Weight(e, seed, names)
    {
      assert multiset(t)[e] == Weight(e, seed, names);
      assert e !in table[..];
    }
  }

  lemma EightIsPowerOfTwo()
    ensures PowerOfTwo(8)
  {
    assert PowerOfTwo(2) && PowerOfTwo(4);
  }

  /** The first j buckets of the probe for `key` were passed, and none holds the key. */
  ghost predicate Searched(t: seq<Entry<Handle>>, names: Names, hash: nat, key: seq<byte>, j: nat, comparable: bool) {
    && j < |t|
    && (forall k :: 0 <= k < j ==> Passes(t, hash, k))
    && (comparable ==> forall k :: 0 <= k < j ==> Differs(t, names, Slot(hash, k, |t|), key))
  }

  lemma SearchStart(t: seq<Entry<Handle>>, names: Names, hash: nat, key: seq<byte>, comparable: bool)
    requires t != []
    ensures Searched(t, names, hash, key, 0, comparable)
  {
  }

  lemma SearchNext(t: seq<Entry<Handle>>, names: Names, hash: nat, key: seq<byte>, j: nat, comparable: bool, kf: nat)
    requires Searched(t, names, hash, key, j, comparable) && Passes(t, hash, j)
    requires comparable ==> Differs(t, names, Slot(hash, j, |t|), key)
    requires j <= kf < |t| && !Passes(t, hash, kf)
    ensures j + 1 <= kf && Searched(t, names, hash, key, j + 1, comparable)
  {
  }

  /** A search that gave up ends where a new entry belongs, and the key is not interned. */
  lemma SearchEnds(t: seq<Entry<Handle>>, seed: bv32, names: Names, nbElems: nat, key: seq<byte>, j: nat,
                   comparable: bool)
    requires TableOk(t, seed, names, nbElems)
    requires Searched(t, names, Hash(seed, key), key, j, comparable) && !Passes(t, Hash(seed, key), j)
    ensures GivesUp(t, Hash(seed, key), j)
    ensures comparable ==> !Holds(names, key)
  {
    if comparable {
      NotInterned(t, seed, names, nbElems, key, j);
    }
  }

  lemma TableAdds(t: seq<Entry<Handle>>, t': seq<Entry<Handle>>, seed: bv32, names: Names, nbElems: nat, h: Handle,
                  key: seq<byte>)
    requires TableOk(t, seed, names, nbElems) && h !in names && |t'| == |t| && nbElems + 1 <= |t| / 8 * 7
    requires RobinHoodOrder(t') && Occupied(t') == Occupied(t) + 1
    requires SameEntries(t, t', multiset{Entry(Hash(seed, key), h)})
    ensures TableOk(t', seed, names[h := key], nbElems + 1)
  {
    hide Hash;
  }

  lemma TableGrows(t: seq<Entry<Handle>>, t': seq<Entry<Handle>>, seed: bv32, names: Names, nbElems: nat)
    requires TableOk(t, seed, names, nbElems) && t != [] && |t'| == 2 * |t| <= MAX_HASH_SIZE
    requires RobinHoodOrder(t') && Occupied(t') == Occupied(t) && SameEntries(t, t', multiset{})
    ensures TableOk(t', seed, names, nbElems)
  {
    hide Hash;
    assert |t'| / 2 == |t|;
  }

  class Dict {
    var table: array<Entry<Handle>>
    var nbElems: nat
    var strings: seq<DictStrings>
    var limit: nat
    const seed: bv32
    const subdict: Dict?
    ghost var names: Names
    ghost var Repr: set<object>

    /** The pools are owned, pairwise distinct, filled up to `free`, and hold the names. */
    ghost predicate PoolsOk()
      reads this, strings, set p | p in strings :: p.chars
    {
      PoolsDistinct(strings) && PoolsFilled(strings, Repr) && Stored(strings, names)
    }

    ghost predicate Valid()
      reads this, Repr
      ensures Valid() ==> this in Repr
    {
      && this in Repr && table in Repr
      && (forall p :: p in strings ==> p in Repr && p.chars in Repr)
      && TableOk(table[..], seed, names, nbElems)
      && PoolsOk()
    }

    /** Valid, with a valid sub-dictionary that shares nothing with it. */
    ghost predicate ValidAll()
      reads this, Repr, subdict, if subdict == null then {} else subdict.Repr
    {
      Valid() && (subdict != null ==> subdict.Valid() && subdict.Repr !! Repr)
    }

    ghost function SubNames(): Names
      reads subdict
    {
      if subdict == null then map[] else subdict.names
    }

    /** xmlDictCreate and xmlDictCreateSub: the seed is the sub-dictionary's, if there is one. */
    constructor (seed: bv32, sub: Dict?, limit: nat)
      requires sub != null ==> sub.Valid()
      ensures ValidAll() && fresh(Repr) && names == map[] && this.limit == limit && subdict == sub
      ensures this.seed == (if sub == null then seed else sub.seed) && table.Length == 0
    {
      this.seed := if sub == null then seed else sub.seed;
      this.subdict := sub;
      this.limit := limit;
      var t := new Entry<Handle>[0];
      nbElems, strings, names := 0, [], map[];
      table := t;
      Repr := {this, t};
      new;
      assert table[..] == [];
      NoNames(this.seed);
      hide TableOk;
    }

    // --- Comparing with a stored name ---------------------------------------------------

    lemma NameAt(h: Handle)
      requires Valid() && h in names
      ensures h.At? && h.pool < |strings| && StringAt(strings[h.pool].chars[..], h.off, names[h])
    {
      hide TableOk;
      assert IsString(strings, h, names[h]);
      StringKept(strings[h.pool].Used(), strings[h.pool].chars[..], h.off, names[h]);
    }

    /** strncmp and the terminator test of xmlDictFindEntry. */
    method EqualsName(h: Handle, name: seq<byte>) returns (eq: bool)
      requires Valid() && h in names && 0 !in name
      ensures eq <==> names[h] == name
    {
      hide Valid;
      NameAt(h);
      var c := strings[h.pool].chars;
      var i := Compare(c, h.off, names[h], name);
      eq := i == |name| && c[h.off + i] == 0;
    }

    /** xmlStrQEqual. With an empty prefix the first comparison is with the prefix's own
        terminator, so that no stored name matches. */
    method EqualsQName(h: Handle, prefix: seq<byte>, name: seq<byte>) returns (eq: bool)
      requires Valid() && h in names && 0 !in prefix && 0 !in name
      ensures prefix != [] ==> (eq <==> names[h] == Key(Some(prefix), name))
      ensures prefix == [] ==> !eq
    {
      hide Valid, Key;
      NameAt(h);
      var c := strings[h.pool].chars;
      QNameIs(names[h], prefix, name);
      eq := false;
      if prefix != [] {
        eq := ComparePrefixed(c, h.off, names[h], prefix, name);
      }
    }

    method Matches(h: Handle, prefix: Option<seq<byte>>, name: seq<byte>) returns (eq: bool)
      requires Valid() && h in names && 0 !in name && (prefix.Some? ==> 0 !in prefix.value)
      ensures prefix != Some([]) ==> (eq <==> names[h] == Key(prefix, name))
      ensures prefix == Some([]) ==> !eq
    {
      match prefix {
        case None => eq := EqualsName(h, name);
        case Some(p) => eq := EqualsQName(h, p, name);
      }
    }

    method MatchesEntry(entry: nat, prefix: Option<seq<byte>>, name: seq<byte>, hash: nat) returns (eq: bool)
      requires Valid() && 0 !in name && (prefix.Some? ==> 0 !in prefix.value) && hash == Hash(seed, Key(prefix, name))
      requires entry < table.Length && !Free(table[entry])
      ensures eq ==> table[entry].name in names && names[table[entry].name] == Key(prefix, name) && prefix != Some([])
      ensures !eq && prefix != Some([]) ==> Differs(table[..], names, entry, Key(prefix, name))
    {
      hide TableOk, Hash, Key, PoolsOk;
      NameOf(table[..], seed, names, nbElems, entry);
      eq := false;
      if table[entry].hash == hash {
        eq := Matches(table[entry].name, prefix, name);
      }
    }

    // --- Searching -----------------------------------------------------------------------

    /** xmlDictFindEntry: the matching entry, or the bucket where a new entry belongs. */
    method FindEntry(prefix: Option<seq<byte>>, name: seq<byte>, hash: nat)
      returns (found: bool, entry: nat, ghost j: nat)
      requires Valid() && table.Length > 0
      requires 0 !in name && (prefix.Some? ==> 0 !in prefix.value) && hash == Hash(seed, Key(prefix, name))
      ensures found ==>
                && entry < table.Length && table[entry].name in names
                && names[table[entry].name] == Key(prefix, name)
      ensures found ==> prefix != Some([])
      ensures !found ==> GivesUp(table[..], hash, j) && entry == Slot(hash, j, table.Length)
      ensures !found && prefix != Some([]) ==> !Holds(names, Key(prefix, name))
    {
      hide Hash, TableOk, Key, PoolsOk, Displacement, HomeSlot, AtEnd, Slot, Probing, Passes, Holds, Differs,
           Searched, GivesUp;
      var size := table.Length;
      ghost var t, key, q := table[..], Key(prefix, name), prefix != Some([]);
      ghost var kf := SomeFree(t, seed, names, nbElems, hash);
      var displ, pos := 0, HomeSlot(hash, size);
      found, entry, j := false, pos, 0;
      ProbeStart(hash, size);
      PassesIff(t, hash, 0, entry);
      SearchStart(t, names, hash, key, q);
      var stop := Free(table[entry]);
      while !stop
        invariant !found && displ == j <= kf && Probing(hash, j, pos, entry, size) && entry == Slot(hash, j, size)
        invariant (stop <==> !Passes(t, hash, j)) && (!stop ==> !Free(t[entry]))
        invariant Searched(t, names, hash, key, j, q)
        decreases size - j, !stop
      {
        found := MatchesEntry(entry, prefix, name, hash);
        if found {
          return;
        }
        SearchNext(t, names, hash, key, j, q, kf);
        pos, entry := Advance(pos, entry, size, hash, j);
        displ, j := displ + 1, j + 1;
        PassesIff(t, hash, j, entry);
        stop := Free(table[entry]) || Displacement(pos, table[entry].hash, size) < displ;
      }
      SearchEnds(t, seed, names, nbElems, key, j, q);
    }

    // --- The string pools ----------------------------------------------------------------

    /** The newest pool with more than `need` free bytes, or a new pool, at least four times as
        large as needed and as the largest before (dict.c:133-179). */
    method FindPool(need: nat, poolOk: bool) returns (ok: bool, i: nat)
      requires Valid()
      modifies this`strings, this`Repr
      ensures Valid() && old(strings) <= strings && fresh(Repr - old(Repr)) && old(Repr) <= Repr
      ensures ok ==> i < |strings| && strings[i].free + need < strings[i].chars.Length
      ensures poolOk && (limit == 0 || PoolTotal(old(strings)) <= limit) ==> ok
      ensures !ok ==> strings == old(strings) && Repr == old(Repr)
      ensures ok && i >= |old(strings)| ==> fresh(strings[i]) && fresh(strings[i].chars)
    {
      var size, total := 0, 0;
      i := |strings|;
      assert strings[i..] == [];
      while i > 0
        invariant i <= |strings| && size >= 0 && total == PoolTotal(strings[i..])
      {
        assert strings[i - 1..][1..] == strings[i..];
        i := i - 1;
        var p := strings[i];
        if p.chars.Length - p.free > need {
          return true, i;
        }
        if p.chars.Length > size {
          size := p.chars.Length;
        }
        total := total + p.chars.Length;
      }
      assert strings[0..] == strings;
      if limit > 0 && total > limit {
        return false, 0;
      }
      size := if size == 0 then 1000 else size * 4;
      if size / 4 < need {
        size := 4 * need;
      }
      if !poolOk {
        return false, 0;
      }
      AddPool(size);
      ok, i := true, |strings| - 1;
    }

    method AddPool(size: nat)
      requires Valid()
      modifies this`strings, this`Repr
      ensures Valid() && |strings| == |old(strings)| + 1 && old(strings) <= strings
      ensures fresh(Repr - old(Repr)) && old(Repr) <= Repr
      ensures strings[|old(strings)|].free == 0 && strings[|old(strings)|].chars.Length == size
      ensures fresh(strings[|old(strings)|]) && fresh(strings[|old(strings)|].chars)
    {
      hide TableOk, PoolsDistinct, PoolsFilled, Stored;
      var p := new DictStrings(size);
      PoolAdded(strings, p, Repr, names);
      strings := strings + [p];
      Repr := Repr + {p, p.chars};
    }

    /** xmlDictAddString. */
    method AddString(name: seq<byte>, poolOk: bool) returns (h: Handle)
      requires Valid() && 0 !in name
      modifies this`strings, this`Repr, strings, set p | p in strings :: p.chars
      ensures Valid() && old(Repr) <= Repr && fresh(Repr - old(Repr))
      ensures old(strings) <= strings && PoolsKept(old(strings))
      ensures h != Nil ==> h !in names && IsString(strings, h, name)
      ensures h == Nil ==>
                && strings == old(strings) && unchanged(old(strings))
                && unchanged(set p | p in old(strings) :: p.chars)
      ensures poolOk && (limit == 0 || PoolTotal(old(strings)) <= limit) ==> h != Nil
    {
      hide TableOk;
      var ok, i := FindPool(|name|, poolOk);
      if !ok {
        return Nil;
      }
      h := At(i, strings[i].free);
      Write(i, name, h);
    }

    /** xmlDictAddQString. */
    method AddQString(prefix: seq<byte>, name: seq<byte>, poolOk: bool) returns (h: Handle)
      requires Valid() && 0 !in prefix && 0 !in name
      modifies this`strings, this`Repr, strings, set p | p in strings :: p.chars
      ensures Valid() && old(Repr) <= Repr && fresh(Repr - old(Repr))
      ensures old(strings) <= strings && PoolsKept(old(strings))
      ensures h != Nil ==> h !in names && IsString(strings, h, Key(Some(prefix), name))
      ensures h == Nil ==>
                && strings == old(strings) && unchanged(old(strings))
                && unchanged(set p | p in old(strings) :: p.chars)
      ensures poolOk && (limit == 0 || PoolTotal(old(strings)) <= limit) ==> h != Nil
    {
      hide TableOk;
      var ok, i := FindPool(|prefix| + 1 + |name|, poolOk);
      if !ok {
        return Nil;
      }
      h := At(i, strings[i].free);
      Write(i, prefix + [COLON] + name, h);
    }

    /** Copy a string and its terminator to the free pointer of pool i. */
    method Write(i: nat, s: seq<byte>, ghost h: Handle)
      requires Valid() && 0 !in s && i < |strings| && strings[i].free + |s| < strings[i].chars.Length
      requires h == At(i, strings[i].free)
      modifies strings[i], strings[i].chars
      ensures Valid() && PoolsKept(strings) && h !in names && IsString(strings, h, s)
    {
      hide TableOk, StringAt;
      var p := strings[i];
      ghost var u := p.Used();
      assert h !in names by { NotYetNamed(i); }
      p.AppendString(s);
      Terminated(u, s);
      assert forall q :: q in strings ==> old(q.Used()) <= q.Used();
      forall g | g in names
        ensures IsString(strings, g, names[g])
      {
        assert old(IsString(strings, g, names[g]));
        StringKept(old(strings[g.pool].Used()), strings[g.pool].Used(), g.off, names[g]);
      }
    }

    lemma NotYetNamed(i: nat)
      requires Valid() && i < |strings|
      ensures At(i, strings[i].free) !in names
    {
      var h := At(i, strings[i].free);
      assert h in names ==> IsString(strings, h, names[h]);
    }

    // --- Inserting -------------------------------------------------------------------------

    /** xmlDictGrow. */
    method Grow(size: nat, growOk: bool) returns (ok: bool)
      requires Valid() && size <= MAX_HASH_SIZE
      requires size == if table.Length == 0 then MIN_HASH_SIZE else 2 * table.Length
      modifies this`table, this`Repr
      ensures Valid() && old(Repr) <= Repr && fresh(Repr - old(Repr)) && ok == growOk
      ensures if ok then table.Length == size && nbElems + 1 <= size / 8 * 7 else table == old(table)
      ensures table != old(table) ==> fresh(table)
    {
      hide PoolsDistinct, Stored, RobinHoodOrder, SameEntries;
      ok := growOk;
      if ok {
        if table.Length == 0 {
          table := FirstTable(seed, names, nbElems, table[..]);
        } else {
          FewerThanBuckets(table[..], seed, names, nbElems);
          ghost var t := table[..];
          table := GrowTable(table, size, Nil);
          TableGrows(t, table[..], seed, names, nbElems);
        }
        Repr := Repr + {table};
      }
    }

    /** Grow if needed, store the string, make room, and fill the bucket (dict.c:732-802). The
        invariant also holds after a failed allocation, of the string after growing included. */
    method Insert(prefix: Option<seq<byte>>, name: seq<byte>, hash: nat, newSize: nat, entry: nat, ghost j: nat,
                  growOk: bool, poolOk: bool)
      returns (h: Handle)
      requires Valid() && 0 !in name && (prefix.Some? ==> 0 !in prefix.value) && hash == Hash(seed, Key(prefix, name))
      requires newSize > 0 ==>
                 && newSize <= MAX_HASH_SIZE
                 && newSize == if table.Length == 0 then MIN_HASH_SIZE else 2 * table.Length
      requires newSize == 0 ==>
                 GivesUp(table[..], hash, j) && entry == Slot(hash, j, table.Length) &&
                   nbElems + 1 <= table.Length / 8 * 7
      modifies Repr
      ensures Valid() && old(Repr) <= Repr && fresh(Repr - old(Repr))
      ensures old(strings) <= strings && PoolsKept(old(strings))
      ensures h == Nil ==> names == old(names)
      ensures h != Nil ==> h !in old(names) && names == old(names)[h := Key(prefix, name)]
      ensures growOk && poolOk && (limit == 0 || PoolTotal(old(strings)) <= limit) ==> h != Nil
      ensures limit == old(limit) && table.Length == if newSize > 0 && growOk then newSize else old(table.Length)
    {
      hide PoolsDistinct, PoolsFilled, Stored, RobinHoodOrder, SameEntries, Hash, GivesUp, Slot, TableOk, IsString;
      var e := entry;
      ghost var k := j;
      if newSize > 0 {
        var grown := Grow(newSize, growOk);
        if !grown {
          return Nil;
        }
        ghost var f := SomeFreeBucket(table[..], seed, names, nbElems);
        e, k := ProbeInsert(table, hash, f);
      }
      match prefix {
        case None => h := AddString(name, poolOk);
        case Some(p) => h := AddQString(p, name, poolOk);
      }
      if h != Nil {
        Populate(e, hash, h, Key(prefix, name), k);
      }
    }

    method Populate(entry: nat, hash: nat, h: Handle, ghost key: seq<byte>, ghost j: nat)
      requires Valid() && h != Nil && h !in names && IsString(strings, h, key) && hash == Hash(seed, key)
      requires GivesUp(table[..], hash, j) && entry == Slot(hash, j, table.Length) &&
               nbElems + 1 <= table.Length / 8 * 7
      modifies this`nbElems, this`names, table
      ensures Valid() && names == old(names)[h := key]
    {
      hide RobinHoodOrder, SameEntries, Hash, GivesUp, Slot, IsString, TableOk, PoolsDistinct, PoolsFilled, Stored,
           Occupied;
      ghost var t := table[..];
      RoomForOne(t, seed, names, nbElems);
      OneMoreStored(strings, names, h, key);
      InsertEntry(table, entry, Entry(hash, h), j);
      TableAdds(t, table[..], seed, names, nbElems, h, key);
      nbElems := nbElems + 1;
      names := names[h := key];
    }

    // --- Looking up ------------------------------------------------------------------------

    /** When a lookup cannot fail: the string is admitted, there is room in the table or it can
        still double, and either memory is at hand, with the pools within the limit, or the
        sub-dictionary has the string. */
    ghost predicate Succeeds(prefix: Option<seq<byte>>, name: seq<byte>, maybeLen: int, memory: bool)
      reads this, if subdict == null then {} else {subdict}
    {
      && Admitted(prefix, name, maybeLen, limit)
      && (nbElems + 1 <= table.Length / 8 * 7 || table.Length < 0x8000_0000)
      && (|| (memory && (limit == 0 || PoolTotal(strings) <= limit))
          || (!EmptyPrefix(prefix) && Holds(SubNames(), LookupKey(prefix, name, maybeLen))))
    }

    /** The table has this size, or was created or doubled. */
    ghost predicate Grown(size: nat)
      reads this
    {
      table.Length == size || table.Length == if size == 0 then 8 else 2 * size
    }

    /** xmlDictLookupInternal. */
    method LookupInternal(prefix: Option<seq<byte>>, name: seq<byte>, maybeLen: int, update: bool, growOk: bool,
                          poolOk: bool)
      returns (r: Interned)
      requires ValidAll()
      modifies Repr
      ensures ValidAll() && old(Repr) <= Repr && fresh(Repr - old(Repr))
      ensures old(strings) <= strings && PoolsKept(old(strings))
      ensures var key := LookupKey(prefix, name, maybeLen);
              if EmptyPrefix(prefix) then LookedUnmatched(old(names), key, r, names)
              else Looked(old(names), SubNames(), key, r, names)
      ensures !EmptyPrefix(prefix) && Holds(old(names), LookupKey(prefix, name, maybeLen)) &&
              Admitted(prefix, name, maybeLen, limit)
              ==> r.Own?
      ensures old(Succeeds(prefix, name, maybeLen, update && growOk && poolOk)) ==> r != Null
      ensures Grown(old(table.Length)) && limit == old(limit)
      ensures !update ==> unchanged(old(Repr)) && !(r.Own? && r.handle !in old(names))
    {
      hide PoolsDistinct, PoolsFilled, Stored, TableOk, Hash, GivesUp, Slot, IsString, Holds, Key, CStr, PowerOfTwo;
      var hash, n, p := HashKey(prefix, name, maybeLen);
      ghost var key := Key(p, n);
      if |n| > MAX_KEY || (p.Some? && |p.value| >= MAX_KEY - |n|) {
        return Null;
      }
      KeyLength(p, n);
      if limit > 0 && |n| + (if p.Some? then |p.value| + 1 else 0) >= limit {
        return Null;
      }
      var found, own, full, newSize, entry;
      ghost var j;
      found, own, full, newSize, entry, j := SearchOwn(p, n, hash);
      if found {
        HeldBy(names, own, key);
        return Own(own);
      }
      if full {
        return Null;
      }
      var sub := FindInSub(p, n);
      if sub != Nil {
        return FromSub(sub);
      }
      if !update {
        return Null;
      }
      var h := Insert(p, n, hash, newSize, entry, j, growOk, poolOk);
      r := if h == Nil then Null else Own(h);
    }

    /** The search of the table itself, and the size that it must grow to (dict.c:697-711). */
    method SearchOwn(p: Option<seq<byte>>, n: seq<byte>, hash: nat)
      returns (found: bool, own: Handle, full: bool, newSize: nat, entry: nat, ghost j: nat)
      requires Valid() && 0 !in n && (p.Some? ==> 0 !in p.value) && hash == Hash(seed, Key(p, n))
      ensures found ==> p != Some([]) && own in names && names[own] == Key(p, n)
      ensures !found && p != Some([]) ==> !Holds(names, Key(p, n))
      ensures full ==> !found && nbElems + 1 > table.Length / 8 * 7 && table.Length >= MAX_HASH_SIZE
      ensures !found && !full && newSize > 0 ==>
                newSize <= MAX_HASH_SIZE && newSize == if table.Length == 0 then MIN_HASH_SIZE else 2 * table.Length
      ensures !found && !full && newSize == 0 ==>
                GivesUp(table[..], hash, j) && entry == Slot(hash, j, table.Length) &&
                  nbElems + 1 <= table.Length / 8 * 7
    {
      hide PoolsDistinct, PoolsFilled, Stored, TableOk, Hash, GivesUp, Slot, IsString, Holds, Key, PowerOfTwo;
      found, own, full, newSize, entry, j := false, Nil, false, MIN_HASH_SIZE, 0, 0;
      if table.Length > 0 {
        found, entry, j := FindEntry(p, n, hash);
        if found {
          own := table[entry].name;
          return;
        }
        newSize := 0;
        if nbElems + 1 > table.Length / 8 * 7 {
          full := table.Length >= MAX_HASH_SIZE;
          SizeBound(table[..], seed, names, nbElems);
          newSize := table.Length * 2;
        }
      } else {
        assert table[..] == [];
        EmptyTable(seed, names, nbElems, Key(p, n));
      }
    }

    method HashKey(prefix: Option<seq<byte>>, name: seq<byte>, maybeLen: int)
      returns (hash: nat, n: seq<byte>, p: Option<seq<byte>>)
      ensures Key(p, n) == LookupKey(prefix, name, maybeLen) && hash == Hash(seed, Key(p, n))
      ensures 0 !in n && (p.Some? ==> 0 !in p.value) && p == CutPrefix(prefix)
      ensures n == CStr(name, if prefix.None? then maybeLen else -1)
    {
      hide Hash;
      var len;
      match prefix {
        case None =>
          hash, len := HashName(seed, name, maybeLen);
          n, p := name[..len], None;
        case Some(q) =>
          var plen;
          hash, plen, len := HashQName(seed, q, name);
          n, p := CStr(name, -1), Some(CStr(q, -1));
      }
    }

    /** The lookup in the sub-dictionary, with the sub-dictionary's own seed (dict.c:713-727). */
    method FindInSub(p: Option<seq<byte>>, n: seq<byte>) returns (h: Handle)
      requires ValidAll() && 0 !in n && (p.Some? ==> 0 !in p.value)
      ensures h != Nil ==> p != Some([]) && h in SubNames() && SubNames()[h] == Key(p, n)
      ensures h == Nil && p != Some([]) ==> !Holds(SubNames(), Key(p, n))
    {
      hide PoolsDistinct, PoolsFilled, TableOk, Hash, GivesUp, Slot, Holds;
      h := Nil;
      if subdict != null {
        if subdict.table.Length > 0 {
          var subHash, _, _ := subdict.HashKey(p, n, -1);
          SameKey(p, n);
          var found, entry, _ := subdict.FindEntry(p, n, subHash);
          if found {
            h := subdict.table[entry].name;
            assert IsString(subdict.strings, h, subdict.names[h]);
          }
        } else {
          assert subdict.table[..] == [];
          EmptyTable(subdict.seed, subdict.names, subdict.nbElems, Key(p, n));
        }
      } else {
        NothingHeld(Key(p, n));
      }
    }

    /** xmlDictLookup and xmlDictLookupHashed. */
    method Lookup(name: seq<byte>, len: int, growOk: bool, poolOk: bool) returns (r: Interned)
      requires ValidAll()
      modifies Repr
      ensures ValidAll() && old(Repr) <= Repr && fresh(Repr - old(Repr))
      ensures old(strings) <= strings && PoolsKept(old(strings))
      ensures Looked(old(names), SubNames(), CStr(name, len), r, names)
      ensures old(Succeeds(None, name, len, growOk && poolOk)) ==> r != Null
      ensures Grown(old(table.Length)) && limit == old(limit)
    {
      r := LookupInternal(None, name, len, true, growOk, poolOk);
    }

    /** xmlDictExists changes nothing and finds exactly what is interned. */
    method Exists(name: seq<byte>, len: int) returns (r: Interned)
      requires ValidAll()
      modifies Repr
      ensures ValidAll() && unchanged(old(Repr)) && Repr == old(Repr)
      ensures Looked(names, SubNames(), CStr(name, len), r, names)
      ensures Holds(names, CStr(name, len)) && Admitted(None, name, len, limit) ==> r.Own?
      ensures Succeeds(None, name, len, false) ==> r != Null
    {
      r := LookupInternal(None, name, len, false, true, true);
    }

    /** xmlDictQLookup agrees with looking up `prefix:name` exactly when the prefix is not empty. */
    method QLookup(prefix: seq<byte>, name: seq<byte>, growOk: bool, poolOk: bool) returns (r: Interned)
      requires ValidAll()
      modifies Repr
      ensures ValidAll() && old(Repr) <= Repr && fresh(Repr - old(Repr))
      ensures old(strings) <= strings && PoolsKept(old(strings))
      ensures var key := CStr(prefix, -1) + [COLON] + CStr(name, -1);
              if CStr(prefix, -1) != [] then Looked(old(names), SubNames(), key, r, names)
              else LookedUnmatched(old(names), key, r, names)
      ensures old(Succeeds(Some(prefix), name, -1, growOk && poolOk)) ==> r != Null
      ensures Grown(old(table.Length)) && limit == old(limit)
    {
      r := LookupInternal(Some(prefix), name, -1, true, growOk, poolOk);
    }
  }
}
