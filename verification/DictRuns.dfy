/** Runs of calls on a dictionary: what interning promises over all of them, and two short runs in
    which an empty prefix breaks it. */
module DictRuns {
  import opened Bytes
  import opened Dictionary

  /** A call of xmlDictLookup, xmlDictQLookup or xmlDictExists, with the outcomes of allocations. */
  datatype Request =
    | Look(name: seq<byte>, len: int, growOk: bool, poolOk: bool)
    | QLook(prefix: seq<byte>, name: seq<byte>, growOk: bool, poolOk: bool)
    | Test(name: seq<byte>, len: int)

  /** The string that the call is about. */
  function KeyOf(req: Request): seq<byte> {
    match req
    case Look(name, len, _, _) => CStr(name, len)
    case QLook(prefix, name, _, _) => CStr(prefix, -1) + [COLON] + CStr(name, -1)
    case Test(name, len) => CStr(name, len)
  }

  predicate HasEmptyPrefix(req: Request) {
    req.QLook? && CStr(req.prefix, -1) == []
  }

  method Perform(d: Dict, req: Request) returns (r: Interned, ghost step: Step)
    requires d.ValidAll()
    modifies d.Repr
    ensures d.ValidAll() && old(d.Repr) <= d.Repr && fresh(d.Repr - old(d.Repr))
    ensures step == Step(old(d.names), KeyOf(req), HasEmptyPrefix(req), r) && Stepped(step, d.SubNames(), d.names)
  {
    hide Looked, LookedUnmatched, d.Valid, CStr;
    match req {
      case Look(name, len, growOk, poolOk) => r := d.Lookup(name, len, growOk, poolOk);
      case QLook(prefix, name, growOk, poolOk) => r := d.QLookup(prefix, name, growOk, poolOk);
      case Test(name, len) => r := d.Exists(name, len);
    }
    step := Step(old(d.names), KeyOf(req), HasEmptyPrefix(req), r);
  }

  /** Two successful calls return the same pointer exactly when they are about the same string. */
  ghost predicate Consistent(reqs: seq<Request>, results: seq<Interned>)
    requires |results| == |reqs|
  {
    forall i, j :: 0 <= i < j < |reqs| && results[i] != Null && results[j] != Null ==>
      (results[i] == results[j] <==> KeyOf(reqs[i]) == KeyOf(reqs[j]))
  }

  /** Any run of calls on a dictionary is a run of steps; if every call with an empty prefix is
      harmless, the results are consistent. */
  method PerformAll(d: Dict, reqs: seq<Request>) returns (results: seq<Interned>, ghost steps: seq<Step>)
    requires d.ValidAll()
    modifies d.Repr
    ensures d.ValidAll() && |results| == |steps| == |reqs|
    ensures Run(steps, d.SubNames(), d.names) && (steps != [] ==> steps[0].names == old(d.names))
    ensures forall i :: 0 <= i < |reqs| ==>
              steps[i].key == KeyOf(reqs[i]) && steps[i].unmatched == HasEmptyPrefix(reqs[i]) &&
                steps[i].result == results[i]
    ensures Canonical(old(d.names)) && Canonical(d.SubNames()) && AllHarmless(steps, d.SubNames()) ==>
              Consistent(reqs, results)
    ensures (forall i :: 0 <= i < |reqs| ==> !HasEmptyPrefix(reqs[i])) ==> AllHarmless(steps, d.SubNames())
  {
    hide Run, Stepped, Canonical, Harmless, KeyOf, HasEmptyPrefix, d.Valid;
    ghost var sub := d.SubNames();
    results, steps := [], [];
    NoSteps(sub, d.names);
    for i := 0 to |reqs|
      invariant d.ValidAll() && d.SubNames() == sub && old(d.Repr) <= d.Repr && fresh(d.Repr - old(d.Repr))
      invariant |results| == |steps| == i && Run(steps, sub, d.names)
      invariant if steps == [] then d.names == old(d.names) else steps[0].names == old(d.names)
      invariant forall k :: 0 <= k < i ==>
                  steps[k].key == KeyOf(reqs[k]) && steps[k].unmatched == HasEmptyPrefix(reqs[k]) &&
                    steps[k].result == results[k]
    {
      ghost var before := d.names;
      var r;
      ghost var step;
      r, step := Perform(d, reqs[i]);
      OneMoreStep(steps, sub, before, step, d.names);
      results, steps := results + [r], steps + [step];
    }
    RunIsConsistent(reqs, results, steps, sub, d.names);
  }

  ghost predicate AllHarmless(steps: seq<Step>, sub: Names) {
    forall k :: 0 <= k < |steps| ==> Harmless(steps[k], sub)
  }

  lemma NoSteps(sub: Names, names: Names)
    ensures Run([], sub, names)
  {
  }

  lemma OneMoreStep(steps: seq<Step>, sub: Names, names: Names, step: Step, names': Names)
    requires Run(steps, sub, names) && step.names == names && Stepped(step, sub, names')
    ensures Run(steps + [step], sub, names')
  {
    hide Stepped;
    var all := steps + [step];
    forall i | 0 <= i < |all|
      ensures Stepped(all[i], sub, After(all, i, names'))
    {
      if i < |steps| {
        assert Stepped(steps[i], sub, After(steps, i, names));
      }
    }
  }

  lemma RunIsConsistent(reqs: seq<Request>, results: seq<Interned>, steps: seq<Step>, sub: Names, last: Names)
    requires |results| == |steps| == |reqs| && Run(steps, sub, last)
    requires forall k :: 0 <= k < |reqs| ==>
               steps[k].key == KeyOf(reqs[k]) && steps[k].unmatched == HasEmptyPrefix(reqs[k]) &&
                 steps[k].result == results[k]
    ensures steps != [] && Canonical(steps[0].names) && Canonical(sub) && AllHarmless(steps, sub) ==>
              Consistent(reqs, results)
    ensures steps == [] ==> Consistent(reqs, results)
    ensures (forall i :: 0 <= i < |reqs| ==> !HasEmptyPrefix(reqs[i])) ==> AllHarmless(steps, sub)
  {
    hide Run, Stepped, Canonical, KeyOf, HasEmptyPrefix;
    if steps != [] && Canonical(steps[0].names) && Canonical(sub) && AllHarmless(steps, sub) {
      forall i, j | 0 <= i < j < |reqs| && results[i] != Null && results[j] != Null
        ensures results[i] == results[j] <==> KeyOf(reqs[i]) == KeyOf(reqs[j])
      {
        InterningIsCanonical(steps, sub, last, i, j);
      }
    }
  }

  // --- Empty prefixes -----------------------------------------------------------------------------

  /** ":a" */
  const COLON_A: seq<byte> := [COLON, 0x61]

  lemma AboutColonA(limit: nat)
    requires limit == 0
    ensures LookupKey(Some([]), [0x61], -1) == COLON_A && EmptyPrefix(Some([])) && Admitted(Some([]), [0x61], -1, limit)
    ensures CStr(COLON_A, -1) == COLON_A && Admitted(None, COLON_A, -1, limit) &&
            LookupKey(None, COLON_A, -1) == COLON_A
    ensures CStr([], -1) == [] && CStr([0x61], -1) == [0x61]
  {
    assert CStr([0x61], -1) == [0x61] + CStr([], -1);
    assert CStr(COLON_A, -1) == [COLON] + CStr([0x61], -1) by {
      assert COLON_A[1..] == [0x61];
    }
  }

  /** Looking up the empty prefix with one name twice gives two pointers to one string. */
  method EmptyPrefixTwice(seed: bv32) returns (d: Dict, a: Interned, b: Interned)
    ensures d.ValidAll() && a.Own? && b.Own? && a != b
    ensures a.handle in d.names && b.handle in d.names && d.names[a.handle] == d.names[b.handle] == COLON_A
  {
    d := new Dict(seed, null, 0);
    AboutColonA(0);
    hide CStr, d.Valid;
    a := d.QLookup([], [0x61], true, true);
    b := d.QLookup([], [0x61], true, true);
  }

  /** And it hides a string of the sub-dictionary: the same lookup gives one pointer before, and
      another one after. */
  method EmptyPrefixHidesSub(seed: bv32) returns (d: Dict, a: Interned, b: Interned)
    ensures d.ValidAll() && a.FromSub? && b.Own?
    ensures a.handle in d.SubNames() && b.handle in d.names
    ensures d.SubNames()[a.handle] == d.names[b.handle] == COLON_A
  {
    var sub := DictWithColonA(seed);
    AboutColonA(0);
    hide CStr, Holds, sub.Valid;
    d := new Dict(seed, sub, 0);
    a := d.Lookup(COLON_A, -1, true, true);
    b := ShadowAndLook(d);
  }

  method DictWithColonA(seed: bv32) returns (d: Dict)
    ensures d.ValidAll() && d.subdict == null && fresh(d.Repr) && Holds(d.names, COLON_A)
  {
    d := new Dict(seed, null, 0);
    AboutColonA(0);
    hide CStr, d.Valid;
    var r := d.Lookup(COLON_A, -1, true, true);
    HeldBy(d.names, r.handle, COLON_A);
  }

  method ShadowAndLook(d: Dict) returns (b: Interned)
    requires d.ValidAll() && d.limit == 0 && d.table.Length < MAX_HASH_SIZE / 2
    modifies d.Repr
    ensures d.ValidAll() && b.Own? && b.handle in d.names && d.names[b.handle] == COLON_A
    ensures d.SubNames() == old(d.SubNames())
  {
    AboutColonA(0);
    hide CStr, d.Valid;
    var r := d.QLookup([], [0x61], true, true);
    HeldBy(d.names, r.handle, COLON_A);
    b := d.Lookup(COLON_A, -1, true, true);
  }
}
