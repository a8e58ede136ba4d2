/** Duplicate attributes of a start tag (HTMLparser.c:3729-3756, 3923-3969): an open-addressing
    table of indices, and the in-place compaction of the attribute array. */
module AttrHash {
  import opened OpenAddressing

  /** A name handle, its hash, and the value. Equal names are one handle and have one hash. */
  datatype Attr = Attr(name: nat, hash: nat, value: nat)

  ghost predicate HashesAgree(s: seq<Attr>) {
    forall i, j :: 0 <= i < |s| && 0 <= j < |s| && s[i].name == s[j].name ==> s[i].hash == s[j].hash
  }

  // --- First occurrences ----------------------------------------------------------------------------

  ghost predicate HasName(s: seq<Attr>, name: nat) {
    exists i :: 0 <= i < |s| && s[i].name == name
  }

  /** The attributes whose names have not occurred before, in order. */
  ghost function FirstOnly(s: seq<Attr>): (r: seq<Attr>) {
    if s == [] then []
    else
      var init, last := s[..|s| - 1], s[|s| - 1];
      if HasName(init, last.name) then FirstOnly(init) else FirstOnly(init) + [last]
  }

  /** Every name of the list occurs once, and with the value that it had first. */
  lemma {:induction false} FirstOnlyIs(s: seq<Attr>)
    ensures forall a :: a in FirstOnly(s) ==> exists i :: 0 <= i < |s| && s[i] == a && !HasName(s[..i], a.name)
    ensures forall n :: HasName(FirstOnly(s), n) <==> HasName(s, n)
    ensures forall i, j :: 0 <= i < j < |FirstOnly(s)| ==> FirstOnly(s)[i].name != FirstOnly(s)[j].name
  {
    if s != [] {
      var n := |s| - 1;
      var init, last, r := s[..n], s[n], FirstOnly(s[..n]);
      FirstOnlyIs(init);
      NamesOfMore(init, last);
      NamesOfMore(r, last);
      assert s == init + [last];
      assert FirstOnly(s) == if HasName(init, last.name) then r else r + [last];
      hide HasName, FirstOnly;
      forall a | a in FirstOnly(s)
        ensures exists i :: 0 <= i < |s| && s[i] == a && !HasName(s[..i], a.name)
      {
        FirstStays(init, last, a);
      }
      forall i | 0 <= i < |r| && !HasName(init, last.name)
        ensures r[i].name != last.name
      {
        NameFound(r, i, r[i].name);
      }
    }
  }

  lemma FirstStays(init: seq<Attr>, last: Attr, a: Attr)
    requires (a == last && !HasName(init, last.name)) ||
             exists i :: 0 <= i < |init| && init[i] == a && !HasName(init[..i], a.name)
    ensures exists i :: 0 <= i < |init + [last]| && (init + [last])[i] == a && !HasName((init + [last])[..i], a.name)
  {
    hide HasName;
    var s := init + [last];
    if i :| 0 <= i < |init| && init[i] == a && !HasName(init[..i], a.name) {
      assert s[..i] == init[..i] && s[i] == a;
    } else {
      assert s[..|init|] == init && s[|init|] == last;
    }
  }

  lemma NamesOfMore(s: seq<Attr>, a: Attr)
    ensures forall n :: HasName(s + [a], n) <==> HasName(s, n) || n == a.name
  {
    forall n
      ensures HasName(s + [a], n) <==> HasName(s, n) || n == a.name
    {
      assert (s + [a])[|s|] == a;
      if HasName(s, n) {
        var i :| 0 <= i < |s| && s[i].name == n;
        assert (s + [a])[i].name == n;
      }
    }
  }

  // --- The table --------------------------------------------------------------------------------------

  /** hashValue & (size - 1) */
  function Home(hash: nat, size: nat): (h: nat)
    requires size > 0
    ensures h < size
  {
    hash % size
  }

  /** The attributes `atts` are in the table, each `dist[a]` steps from its home slot, with no free
      slot on the way. */
  ghost predicate TableOk(table: seq<int>, atts: seq<Attr>, dist: seq<nat>) {
    && |dist| == |atts| && |table| > 0
    && (forall s :: 0 <= s < |table| ==> -1 <= table[s] < |atts|)
    && (forall s, t :: 0 <= s < t < |table| && table[s] >= 0 ==> table[s] != table[t])
    && (forall a :: 0 <= a < |atts| ==> Stored(table, atts[a].hash, a, dist[a]))
  }

  ghost predicate Stored(table: seq<int>, hash: nat, a: nat, d: nat)
    requires |table| > 0
  {
    && d < |table| && table[Steps(Home(hash, |table|), d, |table|)] == a
    && Taken(table, Home(hash, |table|), d)
  }

  /** The first `d` slots from the home slot on are taken. */
  ghost predicate Taken(table: seq<int>, home: nat, d: nat)
    requires home < |table| && d <= |table|
  {
    forall m :: 0 <= m < d ==> table[Steps(home, m, |table|)] >= 0
  }

  /** A table with more slots than attributes has a free one. */
  lemma HasFree(table: seq<int>, atts: seq<Attr>, dist: seq<nat>, home: nat) returns (k: nat)
    requires TableOk(table, atts, dist) && |atts| < |table| && home < |table|
    ensures k < |table| && table[Steps(home, k, |table|)] < 0
  {
    if forall s :: 0 <= s < |table| ==> table[s] >= 0 {
      Pigeonhole(table, |atts|);
    }
    var s :| 0 <= s < |table| && table[s] < 0;
    k := if home <= s then s - home else s + |table| - home;
  }

  lemma {:induction false} Pigeonhole(t: seq<int>, n: nat)
    requires forall s :: 0 <= s < |t| ==> 0 <= t[s] < n
    requires forall r, s :: 0 <= r < s < |t| ==> t[r] != t[s]
    ensures |t| <= n
    decreases n
  {
    if t != [] {
      assert t[0] < n;
      var m: nat := n - 1;
      if exists s :: 0 <= s < |t| && t[s] == m {
        var s :| 0 <= s < |t| && t[s] == m;
        Pigeonhole(t[..s] + t[s + 1..], m);
      } else {
        Pigeonhole(t, m);
      }
    }
  }

  /** A free slot before the name was met: the name is not in the table. */
  lemma NotStored(table: seq<int>, atts: seq<Attr>, dist: seq<nat>, name: nat, hash: nat, k: nat)
    requires TableOk(table, atts, dist) && k < |table|
    requires forall a :: 0 <= a < |atts| && atts[a].name == name ==> atts[a].hash == hash
    requires var home := Home(hash, |table|);
             && table[Steps(home, k, |table|)] < 0
             && forall m :: 0 <= m < k ==>
                 table[Steps(home, m, |table|)] >= 0 && atts[table[Steps(home, m, |table|)]].name != name
    ensures !HasName(atts, name)
  {
    hide Home;
    forall a | 0 <= a < |atts|
      ensures atts[a].name != name
    {
      assert Stored(table, atts[a].hash, a, dist[a]);
    }
  }

  /** A new index in the free slot that probing found. */
  lemma StoreNew(table: seq<int>, atts: seq<Attr>, dist: seq<nat>, attr: Attr, k: nat)
    requires TableOk(table, atts, dist) && k < |table|
    requires var home := Home(attr.hash, |table|); table[Steps(home, k, |table|)] < 0 && Taken(table, home, k)
    ensures var s := Steps(Home(attr.hash, |table|), k, |table|);
            TableOk(table[s := |atts|], atts + [attr], dist + [k])
  {
    hide Home, Steps;
    var n := |atts|;
    var s := Steps(Home(attr.hash, |table|), k, |table|);
    var table', atts', dist' := table[s := n], atts + [attr], dist + [k];
    forall a | 0 <= a <= n
      ensures Stored(table', atts'[a].hash, a, dist'[a])
    {
      if a < n {
        assert Stored(table, atts[a].hash, a, dist[a]);
        StillTaken(table, s, n, Home(atts[a].hash, |table|), dist[a]);
      } else {
        StillTaken(table, s, n, Home(attr.hash, |table|), k);
      }
    }
  }

  lemma StillTaken(table: seq<int>, s: nat, v: nat, home: nat, d: nat)
    requires home < |table| && d <= |table| && s < |table| && Taken(table, home, d)
    ensures Taken(table[s := v], home, d)
  {
  }

  /** htmlAttrHashInsert: the index of an attribute of that name or, after storing the new index in
      a free bucket, nothing. */
  method Insert(table: array<int>, size: nat, atts: array<Attr>, j: nat, attr: Attr, ghost dist: seq<nat>)
    returns (found: bool, index: nat, ghost dist': seq<nat>)
    requires size == table.Length > j && j <= atts.Length && TableOk(table[..], atts[..j], dist)
    requires forall a :: 0 <= a < j && atts[a].name == attr.name ==> atts[a].hash == attr.hash
    modifies table
    ensures found ==> index < j && atts[index].name == attr.name && table[..] == old(table[..]) && dist' == dist
    ensures !found ==> !HasName(atts[..j], attr.name) && TableOk(table[..], atts[..j] + [attr], dist')
  {
    hide Home, Steps, TableOk;
    ghost var t, home, k := table[..], Home(attr.hash, size), 0;
    ghost var free := HasFree(t, atts[..j], dist, home);
    IndicesOk(t, atts[..j], dist);
    var hindex := Home(attr.hash, size);
    SlotNext(home, 0, size);
    dist' := dist;
    while table[hindex] >= 0
      invariant k <= free < size && hindex == Steps(home, k, size) && table[..] == t
      invariant Taken(t, home, k)
      invariant forall m :: 0 <= m < k ==>
                  t[Steps(home, m, size)] >= 0 && atts[t[Steps(home, m, size)]].name != attr.name
      decreases size - k
    {
      assert table[hindex] == t[hindex];
      if atts[table[hindex]].name == attr.name {
        return true, table[hindex], dist;
      }
      SlotNext(home, k, size);
      k := k + 1;
      hindex := hindex + 1;
      if hindex >= size {
        hindex := 0;
      }
    }
    assert table[hindex] == t[hindex];
    NotStored(t, atts[..j], dist, attr.name, attr.hash, k);
    StoreNew(t, atts[..j], dist, attr, k);
    table[hindex] := j;
    assert table[..] == t[hindex := j];
    found, index, dist' := false, 0, dist + [k];
  }

  lemma SlotNext(home: nat, k: nat, size: nat)
    requires home < size && k < size
    ensures k == 0 ==> Steps(home, k, size) == home
    ensures k + 1 < size ==>
              Steps(home, k + 1, size) == if Steps(home, k, size) + 1 < size then Steps(home, k, size) + 1 else 0
  {
  }

  lemma IndicesOk(table: seq<int>, atts: seq<Attr>, dist: seq<nat>)
    requires TableOk(table, atts, dist)
    ensures forall s :: 0 <= s < |table| ==> -1 <= table[s] < |atts|
  {
  }

  // --- Compaction ---------------------------------------------------------------------------------------

  /** The size of the table: at least twice the number of attributes (HTMLparser.c:3930-3932). */
  method TableSize(n: nat) returns (size: nat)
    ensures size >= 2 * n && size >= 4 && PowerOfTwo(size)
  {
    size := 4;
    assert PowerOfTwo(2) && PowerOfTwo(4);
    hide PowerOfTwo;
    while size / 2 < n
      invariant PowerOfTwo(size) && size >= 4
      decreases 2 * n - size
    {
      Doubled(size);
      size := 2 * size;
    }
  }

  /** What the pass keeps: the front of the array holds the first occurrences among the attributes
      passed, and the rest is untouched. */
  ghost predicate Compacted(atts: seq<Attr>, orig: seq<Attr>, i: nat, j: nat) {
    && j <= i <= |atts| == |orig|
    && atts[..j] == FirstOnly(orig[..i]) && atts[i..] == orig[i..]
  }

  lemma CompactedNext(atts: seq<Attr>, orig: seq<Attr>, i: nat, j: nat)
    requires Compacted(atts, orig, i, j) && i < |orig|
    ensures atts[i] == orig[i]
    ensures HasName(atts[..j], orig[i].name) ==> Compacted(atts, orig, i + 1, j)
    ensures !HasName(atts[..j], orig[i].name) ==> Compacted(atts[j := orig[i]], orig, i + 1, j + 1)
    ensures atts[j := orig[i]][..j + 1] == atts[..j] + [orig[i]]
  {
    hide HasName, FirstOnly;
    FirstStep(orig, i);
    assert atts[i] == atts[i..][0] == orig[i..][0];
    assert atts[i + 1..] == atts[i..][1..] == orig[i..][1..];
    assert atts[j := orig[i]][i + 1..] == atts[i + 1..];
  }

  /** The pass over the attributes: exactly the first occurrence of each name is left, in the
      original order and with its own value. */
  method RemoveDuplicates(atts: array<Attr>) returns (nbatts: nat)
    requires HashesAgree(atts[..])
    modifies atts
    ensures nbatts <= atts.Length && atts[..nbatts] == FirstOnly(old(atts[..]))
  {
    hide TableOk, HasName, FirstOnly, HashesAgree;
    ghost var orig := atts[..];
    if atts.Length < 2 {
      SingleIsFirst(orig);
      return atts.Length;
    }
    var size := TableSize(atts.Length);
    var table := new int[size](_ => -1);
    ghost var dist: seq<nat> := [];
    var i, j := 0, 0;
    EmptyTable(table[..]);
    SingleIsFirst([]);
    assert atts[..0] == [] && orig[..0] == [];
    while i < atts.Length
      invariant Compacted(atts[..], orig, i, j) && atts.Length < size == table.Length
      invariant TableOk(table[..], atts[..][..j], dist) && fresh(table)
    {
      CompactedNext(atts[..], orig, i, j);
      FirstHashes(orig, i);
      assert atts[..j] == atts[..][..j];
      var found, index;
      ghost var now := atts[..];
      hide Compacted;
      found, index, dist := Insert(table, size, atts, j, atts[i], dist);
      if found {
        NameFound(now[..j], index, orig[i].name);
      } else {
        atts[j] := atts[i];
        assert atts[..] == now[j := orig[i]];
        j := j + 1;
      }
      i := i + 1;
    }
    assert orig[..i] == orig && atts[..j] == atts[..][..j];
    nbatts := j;
  }

  lemma NameFound(s: seq<Attr>, i: nat, name: nat)
    requires i < |s| && s[i].name == name
    ensures HasName(s, name)
  {
  }

  lemma SingleIsFirst(s: seq<Attr>)
    requires |s| < 2
    ensures FirstOnly(s) == s
  {
    if |s| == 1 {
      assert s[..0] == [];
    }
  }

  lemma EmptyTable(table: seq<int>)
    requires |table| > 0 && forall s :: 0 <= s < |table| ==> table[s] == -1
    ensures TableOk(table, [], [])
  {
  }

  lemma FirstStep(orig: seq<Attr>, i: nat)
    requires i < |orig|
    ensures FirstOnly(orig[..i + 1]) == if HasName(FirstOnly(orig[..i]), orig[i].name) then FirstOnly(orig[..i])
            else FirstOnly(orig[..i]) + [orig[i]]
  {
    FirstOnlyIs(orig[..i]);
    assert orig[..i + 1][..i] == orig[..i];
  }

  lemma FirstHashes(orig: seq<Attr>, i: nat)
    requires i < |orig| && HashesAgree(orig)
    ensures forall a :: 0 <= a < |FirstOnly(orig[..i])| && FirstOnly(orig[..i])[a].name == orig[i].name ==>
              FirstOnly(orig[..i])[a].hash == orig[i].hash
  {
    var r := FirstOnly(orig[..i]);
    FirstOnlyIs(orig[..i]);
    forall a | 0 <= a < |r| && r[a].name == orig[i].name
      ensures r[a].hash == orig[i].hash
    {
      assert r[a] in r;
      var k :| 0 <= k < i && orig[..i][k] == r[a];
      assert orig[k].name == orig[i].name;
    }
  }
}
