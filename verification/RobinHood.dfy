/** The open-addressing table of dict.c as a sequence of buckets: its ordering
    invariant, the linear view from an unoccupied bucket in which that invariant
    becomes "home positions ascend", and what inserting and doubling do to it. */
module RobinHood {

  /** A bucket. A hash value of 0 means that the bucket is unoccupied. */
  datatype Entry<T> = Entry(hash: nat, name: T)

  predicate Free<T>(e: Entry<T>) {
    e.hash == 0
  }

  /** The displacement test of dict.c, `(pos - hashValue) & mask`. */
  function Displacement(pos: int, hash: nat, size: nat): nat
    requires size > 0
  {
    (pos - hash) % size
  }

  function Prev(i: nat, size: nat): nat
    requires i < size
  {
    if i == 0 then size - 1 else i - 1
  }

  function Next(i: nat, size: nat): nat
    requires i < size
  {
    if i + 1 >= size then 0 else i + 1
  }

  /** Bucket i is unoccupied, or at home, or its predecessor is displaced by at least one less. */
  ghost predicate Ordered<T>(t: seq<Entry<T>>, i: nat)
    requires i < |t|
  {
    var p := Prev(i, |t|);
    Free(t[i]) || Displacement(i, t[i].hash, |t|) == 0 ||
    (!Free(t[p]) && Displacement(p, t[p].hash, |t|) >= Displacement(i, t[i].hash, |t|) - 1)
  }

  /** The Robin Hood ordering, around the end of the array included. */
  ghost predicate RobinHoodOrder<T>(t: seq<Entry<T>>) {
    forall i :: 0 <= i < |t| ==> Ordered(t, i)
  }

  /** The number of occupied buckets. */
  ghost function Occupied<T>(t: seq<Entry<T>>): nat {
    if t == [] then 0 else Occupied(t[..|t| - 1]) + if Free(t[|t| - 1]) then 0 else 1
  }

  /** Every occupied bucket occurs in `t'` as often as in `t`, and `extra` additional times. */
  ghost predicate SameEntries<T(!new)>(t: seq<Entry<T>>, t': seq<Entry<T>>, extra: multiset<Entry<T>>) {
    forall e :: !Free(e) ==> multiset(t')[e] == multiset(t)[e] + extra[e]
  }

  // --- Modular arithmetic -------------------------------------------------------------

  lemma MulGrows(k: int, n: nat)
    ensures k >= 1 ==> k * n >= n
    ensures k <= -1 ==> k * n <= 0 - n
  {
    if k >= 1 {
      assert k * n == (k - 1) * n + n;
    } else if k <= -1 {
      assert k * n == (k + 1) * n - n;
    }
  }

  /** Quotient and remainder are unique. */
  lemma ModIs(a: int, n: nat, q: int, r: nat)
    requires r < n && a == q * n + r
    ensures a % n == r
  {
    var q', r' := a / n, a % n;
    assert a == q' * n + r';
    var d := q - q';
    assert d * n == q * n - q' * n;
    MulGrows(d, n);
  }

  lemma ModShift(a: int, k: int, n: nat)
    requires n > 0
    ensures (a + k * n) % n == a % n
  {
    var q, r := a / n, a % n;
    assert (q + k) * n == q * n + k * n;
    ModIs(a + k * n, n, q + k, r);
  }

  /** Displacement without division: the cyclic distance from the home bucket. */
  lemma DisplacementIs(pos: nat, hash: nat, size: nat)
    requires pos < size
    ensures Displacement(pos, hash, size) ==
            if pos >= hash % size then pos - hash % size else pos - hash % size + size
  {
    var q, m := hash / size, hash % size;
    assert hash == q * size + m;
    if pos >= m {
      assert (-q) * size == -(q * size);
      ModIs(pos - hash, size, -q, pos - m);
    } else {
      assert (-q - 1) * size == -(q * size) - size;
      ModIs(pos - hash, size, -q - 1, pos - m + size);
    }
  }

  /** With twice the buckets, a home bucket stays or moves up by the old size. */
  lemma HomeDoubles(hash: nat, n: nat)
    requires n > 0
    ensures hash % (2 * n) == hash % n || hash % (2 * n) == hash % n + n
  {
    var m := 2 * n;
    var q, r := hash / m, hash % m;
    assert hash == q * m + r;
    assert q * m == (2 * q) * n;
    if r < n {
      ModIs(hash, n, 2 * q, r);
    } else {
      assert (2 * q + 1) * n == (2 * q) * n + n;
      ModIs(hash, n, 2 * q + 1, r - n);
    }
  }

  // --- The view from an unoccupied bucket ---------------------------------------------

  /** The table read from bucket `f` on, around the end. */
  ghost function Rotate<T>(t: seq<Entry<T>>, f: nat): (u: seq<Entry<T>>)
    requires f < |t|
    ensures |u| == |t|
    ensures forall r :: 0 <= r < |t| ==> u[r] == t[Real(r, f, |t|)]
  {
    t[f..] + t[..f]
  }

  function Real(r: nat, f: nat, size: nat): (i: nat)
    requires r < size && f < size
    ensures i < size
  {
    if f + r < size then f + r else f + r - size
  }

  function Rotated(i: nat, f: nat, size: nat): (r: nat)
    requires i < size && f < size
    ensures r < size && Real(r, f, size) == i
  {
    if i >= f then i - f else i - f + size
  }

  /** The home position of a hash value in the rotated view. */
  function Home(hash: nat, f: nat, size: nat): (r: nat)
    requires f < size
    ensures r < size
  {
    Rotated(hash % size, f, size)
  }

  /** In the view from `f`: position r is unoccupied, or at or after its home, and when
      after it, then next to an occupied position whose home is no later. */
  ghost predicate Ascends<T>(u: seq<Entry<T>>, f: nat, r: nat)
    requires f < |u| && r < |u|
  {
    Free(u[r]) ||
    (var h := Home(u[r].hash, f, |u|);
     1 <= h <= r && (h < r ==> !Free(u[r - 1]) && Home(u[r - 1].hash, f, |u|) <= h))
  }

  ghost predicate Linear<T>(u: seq<Entry<T>>, f: nat) {
    && f < |u|
    && Free(u[0])
    && forall r :: 0 <= r < |u| ==> Ascends(u, f, r)
  }

  lemma RotatedDisplacement(r: nat, hash: nat, f: nat, size: nat)
    requires r < size && f < size
    ensures var h := Home(hash, f, size);
            Displacement(Real(r, f, size), hash, size) == if h <= r then r - h else r - h + size
  {
    DisplacementIs(Real(r, f, size), hash, size);
  }

  /** Cyclic ordering gives the linear one. */
  lemma {:induction false} ToLinear<T>(t: seq<Entry<T>>, f: nat)
    requires f < |t| && RobinHoodOrder(t) && Free(t[f])
    ensures Linear(Rotate(t, f), f)
  {
    var u := Rotate(t, f);
    assert u[0] == t[f];
    for r := 0 to |u|
      invariant forall k :: 0 <= k < r ==> Ascends(u, f, k)
    {
      AscendsNext(t, f, r);
    }
  }

  lemma AscendsNext<T>(t: seq<Entry<T>>, f: nat, r: nat)
    requires f < |t| && RobinHoodOrder(t) && Free(t[f]) && r < |t|
    requires forall k :: 0 <= k < r ==> Ascends(Rotate(t, f), f, k)
    ensures Ascends(Rotate(t, f), f, r)
  {
    var u, n := Rotate(t, f), |t|;
    if r > 0 && !Free(u[r]) {
      var i := Real(r, f, n);
      assert Ordered(t, i) && u[r] == t[i];
      var p := Real(r - 1, f, n);
      assert Prev(i, n) == p && t[p] == u[r - 1];
      RotatedDisplacement(r, u[r].hash, f, n);
      RotatedDisplacement(r - 1, u[r - 1].hash, f, n);
      assert Ascends(u, f, r - 1);
      assert u[0] == t[f];
    }
  }

  /** And back. */
  lemma FromLinear<T>(t: seq<Entry<T>>, f: nat)
    requires f < |t| && Linear(Rotate(t, f), f)
    ensures RobinHoodOrder(t)
  {
    var u, n := Rotate(t, f), |t|;
    forall i | 0 <= i < n
      ensures Ordered(t, i)
    {
      var r := Rotated(i, f, n);
      assert u[r] == t[i] && Ascends(u, f, r);
      if !Free(u[r]) {
        RotatedDisplacement(r, u[r].hash, f, n);
        assert Real(r - 1, f, n) == Prev(i, n);
        assert u[r - 1] == t[Prev(i, n)];
        RotatedDisplacement(r - 1, u[r - 1].hash, f, n);
        assert Ascends(u, f, r - 1);
      }
    }
  }

  /** Home positions ascend over the whole linear view. */
  lemma {:induction false} HomesAscend<T>(u: seq<Entry<T>>, f: nat, a: nat, b: nat)
    requires Linear(u, f) && a <= b < |u| && !Free(u[a]) && !Free(u[b])
    ensures Home(u[a].hash, f, |u|) <= Home(u[b].hash, f, |u|)
  {
    assert Ascends(u, f, a) && Ascends(u, f, b);
    if a < b && Home(u[b].hash, f, |u|) < b {
      HomesAscend(u, f, a, b - 1);
    }
  }

  /** From its home to its place an entry is preceded by entries with no later home: no
      probe for its hash value gives up before reaching it. */
  lemma {:induction false} ProbeReaches<T>(u: seq<Entry<T>>, f: nat, x: nat)
    requires Linear(u, f) && x < |u| && !Free(u[x])
    ensures 1 <= Home(u[x].hash, f, |u|) <= x
    ensures forall k :: Home(u[x].hash, f, |u|) <= k <= x ==>
              !Free(u[k]) && Home(u[k].hash, f, |u|) <= Home(u[x].hash, f, |u|)
  {
    assert Ascends(u, f, x);
    if Home(u[x].hash, f, |u|) < x {
      assert Ascends(u, f, x - 1);
      var h, h' := Home(u[x].hash, f, |u|), Home(u[x - 1].hash, f, |u|);
      ProbeReaches(u, f, x - 1);
    }
  }

  // --- Inserting ----------------------------------------------------------------------

  /** Where a probe for `hash` stops without a match, in the view from `f`. */
  ghost predicate StopsAt<T>(u: seq<Entry<T>>, f: nat, hash: nat, r: nat)
    requires f < |u|
  {
    var h := Home(hash, f, |u|);
    && 1 <= h <= r < |u|
    && (forall k :: h <= k < r ==> !Free(u[k]) && Home(u[k].hash, f, |u|) <= h)
    && (Free(u[r]) || Home(u[r].hash, f, |u|) > h)
  }

  /** The table after shifting positions r up to the unoccupied position q by one. */
  ghost function ShiftIn<T>(u: seq<Entry<T>>, r: nat, q: nat, e: Entry<T>): (v: seq<Entry<T>>)
    requires r <= q < |u|
    ensures |v| == |u| && v[r] == e
    ensures forall k :: 0 <= k < r ==> v[k] == u[k]
    ensures forall k :: r < k <= q ==> v[k] == u[k - 1]
    ensures forall k :: q < k < |u| ==> v[k] == u[k]
  {
    u[..r] + [e] + u[r..q] + u[q + 1..]
  }

  lemma InsertKeepsLinear<T>(u: seq<Entry<T>>, f: nat, e: Entry<T>, r: nat, q: nat)
    requires Linear(u, f) && !Free(e) && StopsAt(u, f, e.hash, r)
    requires r <= q < |u| && Free(u[q]) && forall k :: r <= k < q ==> !Free(u[k])
    ensures Linear(ShiftIn(u, r, q, e), f)
  {
    hide Home, ShiftIn;
    var v := ShiftIn(u, r, q, e);
    forall k | 0 <= k < |v|
      ensures Ascends(v, f, k)
    {
      InsertAscends(u, f, e, r, q, k);
    }
  }

  lemma InsertAscends<T>(u: seq<Entry<T>>, f: nat, e: Entry<T>, r: nat, q: nat, k: nat)
    requires Linear(u, f) && !Free(e) && StopsAt(u, f, e.hash, r)
    requires r <= q < |u| && Free(u[q]) && forall k :: r <= k < q ==> !Free(u[k])
    requires k < |u|
    ensures Ascends(ShiftIn(u, r, q, e), f, k)
  {
    hide Home, ShiftIn;
    assert Ascends(u, f, k);
    if r < k <= q {
      assert Ascends(u, f, k - 1) && !Free(u[k - 1]);
      if r + 1 < k {
        assert Ascends(u, f, k - 2) && !Free(u[k - 2]);
      }
    }
  }

  lemma InsertAddsEntry<T(!new)>(u: seq<Entry<T>>, r: nat, q: nat, e: Entry<T>)
    requires r <= q < |u| && Free(u[q]) && !Free(e)
    ensures SameEntries(u, ShiftIn(u, r, q, e), multiset{e})
    ensures Occupied(ShiftIn(u, r, q, e)) == Occupied(u) + 1
  {
    InsertAddsEntryParts(u[..r], u[r..q], u[q + 1..], u[q], e);
    Parts(u, r, q);
  }

  lemma Parts<T>(u: seq<Entry<T>>, r: nat, q: nat)
    requires r <= q < |u|
    ensures u == u[..r] + u[r..q] + [u[q]] + u[q + 1..]
  {
    assert u == u[..q] + u[q..];
    assert u[..q] == u[..r] + u[r..q];
  }

  lemma InsertAddsEntryParts<T(!new)>(a: seq<Entry<T>>, b: seq<Entry<T>>, c: seq<Entry<T>>, free: Entry<T>, e: Entry<T>)
    requires Free(free) && !Free(e)
    ensures SameEntries(a + b + [free] + c, a + [e] + b + c, multiset{e})
    ensures Occupied(a + [e] + b + c) == Occupied(a + b + [free] + c) + 1
  {
    OccupiedConcat(a + b + [free], c);
    OccupiedConcat(a + b, [free]);
    OccupiedConcat(a, b);
    OccupiedConcat(a + [e] + b, c);
    OccupiedConcat(a + [e], b);
    OccupiedConcat(a, [e]);
    OccupiedOne(e);
    OccupiedOne(free);
  }

  lemma OccupiedOne<T>(e: Entry<T>)
    ensures Occupied([e]) == if Free(e) then 0 else 1
  {
    assert [e][..0] == [];
  }

  lemma {:induction false} OccupiedConcat<T>(a: seq<Entry<T>>, b: seq<Entry<T>>)
    ensures Occupied(a + b) == Occupied(a) + Occupied(b)
  {
    if b == [] {
      assert a + b == a;
    } else {
      assert (a + b)[..|a + b| - 1] == a + b[..|b| - 1];
      OccupiedConcat(a, b[..|b| - 1]);
    }
  }

  lemma RotateSame<T(!new)>(t: seq<Entry<T>>, f: nat)
    requires f < |t|
    ensures multiset(Rotate(t, f)) == multiset(t)
    ensures Occupied(Rotate(t, f)) == Occupied(t)
  {
    assert t == t[..f] + t[f..];
    OccupiedConcat(t[..f], t[f..]);
    OccupiedConcat(t[f..], t[..f]);
  }

  /** A table with fewer occupied buckets than buckets has an unoccupied one other than `not`. */
  lemma {:induction false} FreeExists<T>(t: seq<Entry<T>>, not: int) returns (f: nat)
    requires Occupied(t) + (if 0 <= not < |t| then 2 else 1) <= |t|
    ensures f < |t| && f != not && Free(t[f])
  {
    var n := |t| - 1;
    if Free(t[n]) && n != not {
      f := n;
    } else {
      f := FreeExists(t[..n], not);
    }
  }

  lemma {:induction false} OccupiedBound<T>(t: seq<Entry<T>>)
    ensures Occupied(t) <= |t|
  {
    if t != [] {
      OccupiedBound(t[..|t| - 1]);
    }
  }

  // --- Doubling -----------------------------------------------------------------------

  /** The offset of the half of a doubled table (of n buckets before) that holds position x. */
  function HalfOf(x: nat, n: nat): nat {
    if x < n then 0 else n
  }

  /** Seen from the same unoccupied bucket, a home position stays or moves up by the old size. */
  lemma HomeInHalf(hash: nat, f: nat, n: nat)
    requires f < n
    ensures var h, h2 := Home(hash, f, n), Home(hash, f, 2 * n); h2 == h || h2 == h + n
  {
    HomeDoubles(hash, n);
  }

  /** Position x of the new table `v` when the first i positions of the old view are copied
      and no home copied so far exceeds m: it lies in its half below i, and it ascends. */
  ghost predicate Settled<T>(v: seq<Entry<T>>, f: nat, n: nat, i: nat, m: nat, x: nat)
    requires f < n && |v| == 2 * n && x < |v|
  {
    Free(v[x]) ||
    (var h, b := Home(v[x].hash, f, 2 * n), HalfOf(x, n);
     && b < h <= x < b + i
     && h <= b + m
     && (h < x ==> !Free(v[x - 1]) && Home(v[x - 1].hash, f, 2 * n) <= h))
  }

  /** What the copying loop of xmlDictGrow keeps, with both tables seen from bucket `f`. */
  ghost predicate Growing<T(!new)>(u: seq<Entry<T>>, v: seq<Entry<T>>, f: nat, i: nat, m: nat) {
    && Linear(u, f) && |v| == 2 * |u| && i <= |u|
    && (forall x :: 0 <= x < |v| ==> Settled(v, f, |u|, i, m, x))
    && (forall j :: i <= j < |u| && !Free(u[j]) ==> m <= Home(u[j].hash, f, |u|))
    && SameEntries(u[..i], v, multiset{})
    && Occupied(v) == Occupied(u[..i])
  }

  lemma GrowStart<T(!new)>(u: seq<Entry<T>>, v: seq<Entry<T>>, f: nat)
    requires Linear(u, f) && |v| == 2 * |u| && forall x :: 0 <= x < |v| ==> Free(v[x])
    ensures Growing(u, v, f, 0, 0)
  {
    NoneOccupied(v);
    forall e | !Free(e)
      ensures multiset(v)[e] == 0
    {
      assert e !in v;
    }
  }

  lemma {:induction false} NoneOccupied<T>(v: seq<Entry<T>>)
    requires forall x :: 0 <= x < |v| ==> Free(v[x])
    ensures Occupied(v) == 0
  {
    if v != [] {
      NoneOccupied(v[..|v| - 1]);
    }
  }

  lemma GrowSkip<T(!new)>(u: seq<Entry<T>>, v: seq<Entry<T>>, f: nat, i: nat, m: nat)
    requires Growing(u, v, f, i, m) && i < |u| && Free(u[i])
    ensures Growing(u, v, f, i + 1, m)
  {
    assert u[..i + 1] == u[..i] + [u[i]];
    OccupiedConcat(u[..i], [u[i]]);
    OccupiedOne(u[i]);
    var n, i' := |u|, i + 1;
    forall x | 0 <= x < |v|
      ensures Settled(v, f, n, i', m, x)
    {
      assert Settled(v, f, |u|, i, m, x);
    }
  }

  /** Plain linear probing, with no comparison of displacements, puts entry i of the old view
      where the ordering wants it, and never beyond position i of its half. */
  lemma GrowPlace<T(!new)>(u: seq<Entry<T>>, v: seq<Entry<T>>, f: nat, i: nat, m: nat, x: nat)
    requires Growing(u, v, f, i, m) && i < |u| && !Free(u[i])
    requires Home(u[i].hash, f, 2 * |u|) <= x < |v| && Free(v[x])
    requires forall k :: Home(u[i].hash, f, 2 * |u|) <= k < x ==> !Free(v[k])
    ensures Growing(u, v[x := u[i]], f, i + 1, Home(u[i].hash, f, |u|))
  {
    hide Home, Occupied, SameEntries;
    var n, h, h2 := |u|, Home(u[i].hash, f, |u|), Home(u[i].hash, f, 2 * |u|);
    HomeInHalf(u[i].hash, f, n);
    assert Ascends(u, f, i);
    var b := h2 - h;
    assert Free(v[b + i]) by { assert Settled(v, f, n, i, m, b + i); }
    assert x <= b + i;
    var v', i' := v[x := u[i]], i + 1;
    forall y | 0 <= y < |v'|
      ensures Settled(v', f, n, i', h, y)
    {
      PlaceSettles(v, u[i], f, n, i, m, x, b, y);
    }
    forall j | i + 1 <= j < n && !Free(u[j])
      ensures h <= Home(u[j].hash, f, n)
    {
      HomesAscend(u, f, i, j);
    }
    PlaceCounts(u, v, i, x);
  }

  lemma PlaceSettles<T>(v: seq<Entry<T>>, e: Entry<T>, f: nat, n: nat, i: nat, m: nat, x: nat, b: nat, y: nat)
    requires f < n && |v| == 2 * n && x < |v| && y < |v| && !Free(e) && Free(v[x])
    requires forall k :: 0 <= k < |v| ==> Settled(v, f, n, i, m, k)
    requires (b == 0 || b == n) && b < Home(e.hash, f, 2 * n) <= x <= b + i < b + n
    requires forall k :: Home(e.hash, f, 2 * n) <= k < x ==> !Free(v[k])
    requires m <= Home(e.hash, f, 2 * n) - b
    ensures Settled(v[x := e], f, n, i + 1, Home(e.hash, f, 2 * n) - b, y)
  {
    hide Home;
    assert Settled(v, f, n, i, m, y);
    assert Settled(v, f, n, i, m, x - 1);
  }

  lemma PlaceCounts<T(!new)>(u: seq<Entry<T>>, v: seq<Entry<T>>, i: nat, x: nat)
    requires i < |u| && !Free(u[i]) && x < |v| && Free(v[x])
    requires SameEntries(u[..i], v, multiset{}) && Occupied(v) == Occupied(u[..i])
    ensures SameEntries(u[..i + 1], v[x := u[i]], multiset{})
    ensures Occupied(v[x := u[i]]) == Occupied(u[..i + 1])
  {
    assert u[..i + 1] == u[..i] + [u[i]];
    OccupiedConcat(u[..i], [u[i]]);
    OccupiedOne(u[i]);
    InsertAddsEntry(v, x, x, u[i]);
    hide Occupied;
    assert ShiftIn(v, x, x, u[i]) == v[x := u[i]];
  }

  /** When every entry is copied, the new table is in Robin Hood order and holds the same entries. */
  lemma GrowDone<T(!new)>(t: seq<Entry<T>>, t': seq<Entry<T>>, f: nat, m: nat)
    requires f < |t| && |t'| == 2 * |t|
    requires Growing(Rotate(t, f), Rotate(t', f), f, |t|, m)
    ensures RobinHoodOrder(t') && SameEntries(t, t', multiset{}) && Occupied(t') == Occupied(t)
  {
    var u, v := Rotate(t, f), Rotate(t', f);
    assert u[..|t|] == u;
    RotateSame(t, f);
    RotateSame(t', f);
    SettledIsLinear(v, f, |t|, m);
    FromLinear(t', f);
  }

  lemma SettledIsLinear<T>(v: seq<Entry<T>>, f: nat, n: nat, m: nat)
    requires f < n && |v| == 2 * n && forall x :: 0 <= x < |v| ==> Settled(v, f, n, n, m, x)
    ensures Linear(v, f)
  {
    hide Home;
    assert Settled(v, f, n, n, m, 0);
    forall x | 0 <= x < |v|
      ensures Ascends(v, f, x)
    {
      assert Settled(v, f, n, n, m, x);
    }
  }
}
