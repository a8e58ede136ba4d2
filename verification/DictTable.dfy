/** The loops of dict.c over the bucket array: probing, growing, and the shift that makes
    room for a new entry. Each is tied to the sequence view of module RobinHood. */
module DictTable {
  import opened OpenAddressing
  import opened RobinHood

  /** The k-th bucket of the probe sequence of a hash value. */
  function Slot(hash: nat, k: nat, size: nat): (i: nat)
    requires k < size
    ensures i < size
  {
    Steps(hash % size, k, size)
  }

  /** A probe for `hash` does not give up at its k-th bucket. */
  ghost predicate Passes<T>(t: seq<Entry<T>>, hash: nat, k: nat)
    requires k < |t|
  {
    !Free(t[Slot(hash, k, |t|)]) && Displacement(Slot(hash, k, |t|), t[Slot(hash, k, |t|)].hash, |t|) >= k
  }

  /** A probe for `hash` gives up at its j-th bucket and no earlier. */
  ghost predicate GivesUp<T>(t: seq<Entry<T>>, hash: nat, j: nat) {
    j < |t| && !Passes(t, hash, j) && forall k :: 0 <= k < j ==> Passes(t, hash, k)
  }

  lemma PassesIff<T>(t: seq<Entry<T>>, hash: nat, k: nat, entry: nat)
    requires k < |t| && entry == Slot(hash, k, |t|)
    ensures Passes(t, hash, k) <==> !Free(t[entry]) && Displacement(entry, t[entry].hash, |t|) >= k
  {
  }

  /** Every entry with this hash value sits in a bucket that its probe sequence passes. */
  lemma {:induction false} ProbeFinds<T>(t: seq<Entry<T>>, x: nat) returns (d: nat)
    requires RobinHoodOrder(t) && x < |t| && !Free(t[x])
    ensures d < |t| && Slot(t[x].hash, d, |t|) == x
    ensures forall k :: 0 <= k <= d ==> Passes(t, t[x].hash, k)
  {
    var hash := t[x].hash;
    d := Displacement(x, hash, |t|);
    DisplacementIs(x, hash, |t|);
    var k := d;
    while k > 0
      invariant 0 <= k <= d < |t| && Slot(hash, d, |t|) == x
      invariant forall j :: k <= j <= d ==> Passes(t, hash, j)
    {
      assert Ordered(t, Slot(hash, k, |t|));
      assert Passes(t, hash, k);
      assert Prev(Slot(hash, k, |t|), |t|) == Slot(hash, k - 1, |t|);
      k := k - 1;
    }
  }

  /** A probe reaches every bucket in at most as many steps as there are buckets. */
  lemma SlotOf(hash: nat, i: nat, size: nat) returns (k: nat)
    requires i < size
    ensures k < size && Slot(hash, k, size) == i
  {
    k := if i >= hash % size then i - hash % size else i - hash % size + size;
  }

  /** Seen from another unoccupied bucket, giving up is stopping where the ordering wants the new entry. */
  lemma GivesUpStops<T>(t: seq<Entry<T>>, f: nat, hash: nat, j: nat)
    requires RobinHoodOrder(t) && f < |t| && Free(t[f]) && GivesUp(t, hash, j) && f != Slot(hash, j, |t|)
    ensures StopsAt(Rotate(t, f), f, hash, Rotated(Slot(hash, j, |t|), f, |t|))
  {
    var n, h := |t|, Home(hash, f, |t|);
    var kf := SlotOf(hash, f, n);
    assert !Passes(t, hash, kf);
    assert h == n - kf;
    ToLinear(t, f);
    var u := Rotate(t, f);
    forall k | 0 <= k <= j
      ensures u[h + k] == t[Slot(hash, k, n)]
      ensures !Free(u[h + k]) ==>
                Displacement(Slot(hash, k, n), u[h + k].hash, n) == h + k - Home(u[h + k].hash, f, n)
    {
      assert Real(h + k, f, n) == Slot(hash, k, n);
      RotatedDisplacement(h + k, u[h + k].hash, f, n);
      assert Ascends(u, f, h + k);
    }
    forall k | h <= k < h + j
      ensures !Free(u[k]) && Home(u[k].hash, f, n) <= h
    {
      assert Passes(t, hash, k - h);
      assert u[h + (k - h)] == t[Slot(hash, k - h, n)];
    }
  }

  /** `(pos & mask) == 0`. */
  predicate AtEnd(pos: nat, size: nat)
    requires size > 0
  {
    pos % size == 0
  }

  function HomeSlot(hash: nat, size: nat): (i: nat)
    requires size > 0
    ensures i < size
  {
    hash % size
  }

  /** The loop variables of a probe after j steps: the running position and the bucket index. */
  ghost predicate Probing(hash: nat, j: nat, pos: nat, entry: nat, size: nat) {
    j < size && pos == hash % size + j && entry == Slot(hash, j, size)
  }

  lemma ProbeStart(hash: nat, size: nat)
    requires size > 0
    ensures Probing(hash, 0, HomeSlot(hash, size), HomeSlot(hash, size), size)
    ensures HomeSlot(hash, size) == Slot(hash, 0, size)
  {
  }

  lemma ProbeNext(hash: nat, j: nat, pos: nat, entry: nat, size: nat)
    requires Probing(hash, j, pos, entry, size) && j + 1 < size
    ensures Probing(hash, j + 1, pos + 1, if AtEnd(pos + 1, size) then 0 else entry + 1, size)
    ensures (if AtEnd(pos + 1, size) then 0 else entry + 1) == Slot(hash, j + 1, size)
  {
    if pos + 1 < size {
      ModIs(pos + 1, size, 0, pos + 1);
    } else {
      ModIs(pos + 1, size, 1, pos + 1 - size);
    }
  }

  lemma ProbingAt(hash: nat, j: nat, pos: nat, entry: nat, size: nat, other: nat)
    requires Probing(hash, j, pos, entry, size)
    ensures entry == Slot(hash, j, size)
    ensures Displacement(pos, other, size) == Displacement(entry, other, size)
  {
    if pos != entry {
      ModShift(entry - other, 1, size);
    }
  }

  /** One step of a probe. */
  method Advance(pos: nat, entry: nat, size: nat, ghost hash: nat, ghost j: nat) returns (pos': nat, entry': nat)
    requires Probing(hash, j, pos, entry, size) && j + 1 < size
    ensures Probing(hash, j + 1, pos', entry', size) && entry' == Slot(hash, j + 1, size)
    ensures forall h :: Displacement(pos', h, size) == Displacement(entry', h, size)
  {
    ProbeNext(hash, j, pos, entry, size);
    pos', entry' := pos + 1, entry + 1;
    if AtEnd(pos', size) {
      entry' := 0;
    }
    forall h
      ensures Displacement(pos', h, size) == Displacement(entry', h, size)
    {
      ProbingAt(hash, j + 1, pos', entry', size, h);
    }
  }

  /** The probing loop for a key known to be absent (dict.c:744-756). */
  method ProbeInsert<T(!new)>(table: array<Entry<T>>, hash: nat, ghost f: nat) returns (entry: nat, ghost j: nat)
    requires f < table.Length && Free(table[f])
    ensures GivesUp(table[..], hash, j) && entry == Slot(hash, j, table.Length)
  {
    var size := table.Length;
    ghost var kf := SlotOf(hash, f, size);
    hide HomeSlot, AtEnd, Slot, Displacement, Probing;
    var displ, pos := 0, HomeSlot(hash, size);
    entry, j := pos, 0;
    ProbeStart(hash, size);
    ProbingAt(hash, j, pos, entry, size, table[entry].hash);
    while !Free(table[entry]) && Displacement(pos, table[entry].hash, size) >= displ
      invariant displ == j <= kf && Probing(hash, j, pos, entry, size) && entry == Slot(hash, j, size)
      invariant Displacement(pos, table[entry].hash, size) == Displacement(entry, table[entry].hash, size)
      invariant forall k :: 0 <= k < j ==> Passes(table[..], hash, k)
      decreases size - j
    {
      assert Passes(table[..], hash, j) && !Passes(table[..], hash, kf);
      pos, entry := Advance(pos, entry, size, hash, j);
      displ, j := displ + 1, j + 1;
    }
  }

  /** xmlDictGrow: copy every entry, from the first unoccupied bucket on, by plain linear
      probing. The new table holds the same entries, in Robin Hood order. */
  method GrowTable<T(!new)>(prior: array<Entry<T>>, size: nat, nil: T) returns (table: array<Entry<T>>)
    requires prior.Length > 0 && size == 2 * prior.Length && RobinHoodOrder(prior[..])
    requires Occupied(prior[..]) < prior.Length
    ensures fresh(table) && table.Length == size && RobinHoodOrder(table[..])
    ensures SameEntries(prior[..], table[..], multiset{}) && Occupied(table[..]) == Occupied(prior[..])
  {
    hide Growing;
    var oldsize := prior.Length;
    table := new Entry<T>[size](_ => Entry(0, nil));
    ghost var t := prior[..];
    ghost var some := FreeExists(t, -1);

    var oldentry := 0;
    while !Free(prior[oldentry])
      invariant 0 <= oldentry <= some < oldsize
      decreases oldsize - oldentry
    {
      oldentry := Next(oldentry, oldsize);
    }

    ghost var f, m := oldentry, 0;
    ToLinear(t, f);
    GrowStart(Rotate(t, f), Rotate(table[..], f), f);
    for i := 0 to oldsize
      invariant prior[..] == t && fresh(table) && f < oldsize
      invariant i < oldsize ==> oldentry == Real(i, f, oldsize)
      invariant Growing(Rotate(t, f), Rotate(table[..], f), f, i, m)
    {
      if !Free(prior[oldentry]) {
        m := CopyEntry(table, prior[oldentry], t, f, i, m);
      } else {
        GrowSkip(Rotate(t, f), Rotate(table[..], f), f, i, m);
      }
      oldentry := Next(oldentry, oldsize);
    }
    GrowDone(t, table[..], f, m);
  }

  /** One step of the copying loop: the first unoccupied bucket from the home bucket on. */
  method CopyEntry<T(!new)>(table: array<Entry<T>>, e: Entry<T>, ghost t: seq<Entry<T>>, ghost f: nat, ghost i: nat,
                            ghost m: nat)
    returns (ghost m': nat)
    requires f < |t| && i < |t| && table.Length == 2 * |t| && e == Rotate(t, f)[i] && !Free(e)
    requires Growing(Rotate(t, f), Rotate(table[..], f), f, i, m)
    modifies table
    ensures Growing(Rotate(t, f), Rotate(table[..], f), f, i + 1, m')
  {
    hide Growing;
    var size := table.Length;
    var entry := e.hash % size;
    ghost var u, v := Rotate(t, f), Rotate(table[..], f);
    ghost var h, x := Home(e.hash, f, size), Home(e.hash, f, size);
    ghost var b := FreeAhead(u, v, f, i, m);
    while !Free(table[entry])
      invariant h <= x <= b < size && entry == Real(x, f, size)
      invariant forall k :: h <= k < x ==> !Free(v[k])
      decreases b - x
    {
      assert v[x] == table[entry];
      entry := Next(entry, size);
      x := x + 1;
    }
    assert v[x] == table[entry];
    GrowPlace(u, v, f, i, m, x);
    RotateUpdate(table[..], f, x, e);
    ghost var before := table[..];
    table[entry] := e;
    assert table[..] == before[entry := e];
    m' := Home(e.hash, f, |t|);
  }

  lemma RotateUpdate<T>(t: seq<Entry<T>>, f: nat, x: nat, e: Entry<T>)
    requires f < |t| && x < |t|
    ensures Rotate(t[Real(x, f, |t|) := e], f) == Rotate(t, f)[x := e]
  {
  }

  /** The bucket that bounds the probe of the copying loop. */
  lemma FreeAhead<T(!new)>(u: seq<Entry<T>>, v: seq<Entry<T>>, f: nat, i: nat, m: nat) returns (b: nat)
    requires Growing(u, v, f, i, m) && i < |u| && !Free(u[i])
    ensures Home(u[i].hash, f, |v|) <= b < |v| && Free(v[b])
  {
    HomeInHalf(u[i].hash, f, |u|);
    assert Ascends(u, f, i);
    b := Home(u[i].hash, f, |v|) - Home(u[i].hash, f, |u|) + i;
    assert Settled(v, f, |u|, i, m, b);
  }

  // --- Making room --------------------------------------------------------------------

  /** memmove within one array. */
  method MemMove<T>(a: array<T>, dst: nat, src: nat, len: nat)
    requires src + len <= a.Length && dst + len <= a.Length
    modifies a
    ensures forall i :: 0 <= i < a.Length ==>
              a[i] == old(if dst <= i < dst + len then a[i - dst + src] else a[i])
  {
    forall k | 0 <= k < len {
      a[dst + k] := a[src + k];
    }
  }

  /** Bucket i is one of those from p on, around the end, up to and including c. */
  predicate Between(p: nat, i: nat, c: nat) {
    if p <= c then p <= i <= c else i >= p || i <= c
  }

  /** The buckets from p up to c moved one further, and `e` in bucket p. */
  ghost function ShiftAround<T>(t: seq<Entry<T>>, p: nat, c: nat, e: Entry<T>): (t': seq<Entry<T>>)
    requires p < |t| && c < |t|
    ensures |t'| == |t|
    ensures forall i :: 0 <= i < |t| ==>
              t'[i] == if i == p then e else if Between(p, i, c) then t[Prev(i, |t|)] else t[i]
  {
    if p <= c then t[..p] + [e] + t[p..c] + t[c + 1..]
    else [t[|t| - 1]] + t[..c] + t[c + 1..p] + [e] + t[p..|t| - 1]
  }

  lemma RotateShift<T>(t: seq<Entry<T>>, p: nat, c: nat, f: nat, e: Entry<T>)
    requires p < |t| && c < |t| && f < |t| && !Between(p, f, c)
    ensures Rotated(p, f, |t|) <= Rotated(c, f, |t|)
    ensures Rotate(ShiftAround(t, p, c, e), f) == ShiftIn(Rotate(t, f), Rotated(p, f, |t|), Rotated(c, f, |t|), e)
  {
    var n := |t|;
    var l, r := Rotate(ShiftAround(t, p, c, e), f), ShiftIn(Rotate(t, f), Rotated(p, f, n), Rotated(c, f, n), e);
    forall k | 0 <= k < n
      ensures l[k] == r[k]
    {
      var i := Real(k, f, n);
      if i != p && Between(p, i, c) {
        assert Real(k - 1, f, n) == Prev(i, n);
      }
    }
  }

  /** Shift the rest of the probe sequence, across the end of the array if need be, and fill
      the bucket (dict.c:766-791). The order and all other entries are kept. */
  method InsertEntry<T(!new)>(table: array<Entry<T>>, entry: nat, e: Entry<T>, ghost j: nat)
    requires RobinHoodOrder(table[..]) && Occupied(table[..]) + 2 <= table.Length
    requires !Free(e) && GivesUp(table[..], e.hash, j) && entry == Slot(e.hash, j, table.Length)
    modifies table
    ensures table[entry] == e && RobinHoodOrder(table[..])
    ensures SameEntries(old(table[..]), table[..], multiset{e}) && Occupied(table[..]) == old(Occupied(table[..])) + 1
  {
    ghost var t := table[..];
    var c := FindGap(table, entry);
    ghost var f := FreeExists(t, c);
    if c != entry {
      MoveUp(table, entry, c);
    }
    table[entry] := e;
    assert table[..] == ShiftAround(t, entry, c, e);
    InsertOrder(t, entry, c, f, e, j);
  }

  /** The end of the run of occupied buckets that starts at `entry`. */
  method FindGap<T(!new)>(table: array<Entry<T>>, entry: nat) returns (c: nat)
    requires entry < table.Length && Occupied(table[..]) < table.Length
    ensures c < table.Length && Free(table[c])
    ensures forall i :: 0 <= i < table.Length && i != c && Between(entry, i, c) ==> !Free(table[i])
  {
    ghost var some := FreeExists(table[..], -1);
    var end := table.Length;
    c := entry;
    if !Free(table[entry]) {
      c := Next(c, end);
      while !Free(table[c])
        invariant c < end && (c == entry ==> end == 1)
        invariant forall i :: 0 <= i < end && i != c && Between(entry, i, c) ==> !Free(table[i])
        decreases if c > entry then end - c + entry else entry - c
      {
        assert Next(c, end) != entry by { assert some != c && !Between(entry, some, c); }
        c := Next(c, end);
      }
    }
  }

  /** The two memmoves: buckets entry..c move up by one, the last bucket to the front. */
  method MoveUp<T>(table: array<Entry<T>>, entry: nat, c: nat)
    requires entry < table.Length && c < table.Length
    modifies table
    ensures forall i :: 0 <= i < table.Length && i != entry ==>
              table[i] == old(if Between(entry, i, c) then table[Prev(i, table.Length)] else table[i])
  {
    var cur := c;
    if cur < entry {
      MoveFront(table, cur);
      cur := table.Length - 1;
    }
    MemMove(table, entry + 1, entry, cur - entry);
  }

  /** The part at the start of the array. */
  method MoveFront<T>(table: array<Entry<T>>, cur: nat)
    requires cur < table.Length - 1
    modifies table
    ensures forall i :: 0 < i <= cur ==> table[i] == old(table[i - 1])
    ensures table[0] == old(table[table.Length - 1])
    ensures forall i :: cur < i < table.Length ==> table[i] == old(table[i])
  {
    MemMove(table, 1, 0, cur);
    table[0] := table[table.Length - 1];
  }

  lemma InsertOrder<T(!new)>(t: seq<Entry<T>>, p: nat, c: nat, f: nat, e: Entry<T>, j: nat)
    requires RobinHoodOrder(t) && c < |t| && f < |t| && f != c && Free(t[f]) && Free(t[c])
    requires !Free(e) && GivesUp(t, e.hash, j) && p == Slot(e.hash, j, |t|)
    requires forall i :: 0 <= i < |t| && i != c && Between(p, i, c) ==> !Free(t[i])
    ensures RobinHoodOrder(ShiftAround(t, p, c, e))
    ensures SameEntries(t, ShiftAround(t, p, c, e), multiset{e})
    ensures Occupied(ShiftAround(t, p, c, e)) == Occupied(t) + 1
  {
    hide Linear, StopsAt, RobinHoodOrder, GivesUp, Occupied, SameEntries;
    var u, t' := Rotate(t, f), ShiftAround(t, p, c, e);
    var r, q := Rotated(p, f, |t|), Rotated(c, f, |t|);
    RotateShift(t, p, c, f, e);
    ToLinear(t, f);
    GivesUpStops(t, f, e.hash, j);
    RunTaken(t, p, c, f);
    InsertKeepsLinear(u, f, e, r, q);
    FromLinear(t', f);
    InsertCounts(t, p, c, f, e);
  }

  lemma InsertCounts<T(!new)>(t: seq<Entry<T>>, p: nat, c: nat, f: nat, e: Entry<T>)
    requires p < |t| && c < |t| && f < |t| && !Between(p, f, c) && Free(t[c]) && !Free(e)
    ensures SameEntries(t, ShiftAround(t, p, c, e), multiset{e})
    ensures Occupied(ShiftAround(t, p, c, e)) == Occupied(t) + 1
  {
    hide Occupied;
    RotateShift(t, p, c, f, e);
    InsertAddsEntry(Rotate(t, f), Rotated(p, f, |t|), Rotated(c, f, |t|), e);
    RotateSame(t, f);
    RotateSame(ShiftAround(t, p, c, e), f);
  }

  /** The buckets between the insertion point and the gap are taken in the unrolled table too. */
  lemma RunTaken<T>(t: seq<Entry<T>>, p: nat, c: nat, f: nat)
    requires p < |t| && c < |t| && f < |t| && f != c && Free(t[f]) && Free(t[c])
    requires forall i :: 0 <= i < |t| && i != c && Between(p, i, c) ==> !Free(t[i])
    requires Rotated(p, f, |t|) <= Rotated(c, f, |t|)
    ensures forall k :: Rotated(p, f, |t|) <= k < Rotated(c, f, |t|) ==> !Free(Rotate(t, f)[k])
  {
    forall k | Rotated(p, f, |t|) <= k < Rotated(c, f, |t|)
      ensures !Free(Rotate(t, f)[k])
    {
      assert Between(p, Real(k, f, |t|), c);
    }
  }
}
