/**
 * Flattening a tree into a path-to-leaf map: `plain`, its keys `paths`, and
 * `entries` (src/datamix.js:490-539).
 */
module Flatten {
  import opened Wrappers
  import opened Decimal
  import opened Fields
  import opened Data
  import opened Paths
  import opened Access
  import opened Iteration
  import opened Wildcards

  /** `plain` goes below a value: a non-empty object, or a non-empty array when arrays are traversed. */
  predicate Descends(v: Value, traverseArrays: bool) {
    IsIterable(v) && Size(v) != Some(0) && (traverseArrays || !v.Arr?)
  }

  /** The value of an owner's `n`-th entry, taken apart so that it is known to be smaller than its owner. */
  function EntryValue(owner: Value, n: nat): (v: Value)
    requires n < |OwnEntries(owner)|
    ensures v == OwnEntries(owner)[n].1
    ensures owner.Arr? ==> v == owner.items[n]
    ensures owner.Obj? ==> v == owner.fields[n].1
  {
    match owner
    case Arr(items) => items[n]
    case Obj(fields) => fields[n].1
  }

  /** An entry of well-formed data is well-formed, and one of data with spellable keys has spellable keys. */
  lemma EntryFacts(owner: Value, n: nat)
    requires n < |OwnEntries(owner)|
    ensures WellFormed(owner) ==> WellFormed(EntryValue(owner, n))
    ensures SpellableKeys(owner) ==> SpellableKeys(EntryValue(owner, n))
    ensures SpellableKeys(owner) ==> Spellable(KeySegment(OwnEntries(owner)[n].0))
  {
    match owner {
      case Arr(items) =>
        assert '.' !in NatToString(n) by {
          var s := NatToString(n);
          assert forall c :: c in s ==> IsDigit(c);
        }
      case Obj(fields) =>
    }
  }

  /**
   * Every leaf `plain` reaches: the segments leading there and the value,
   * depth first in iteration order; a leaf is a scalar, nil, an empty array or
   * object, or an array left whole.
   */
  function Leaves(data: Value, traverseArrays: bool): seq<(seq<string>, Value)>
    decreases data, 1
  {
    LeavesUnder(data, |OwnEntries(data)|, traverseArrays)
  }

  /** The leaves below the first `n` entries of `owner`. */
  function LeavesUnder(owner: Value, n: nat, traverseArrays: bool): seq<(seq<string>, Value)>
    requires n <= |OwnEntries(owner)|
    decreases owner, 0, n
  {
    if n == 0 then []
    else LeavesUnder(owner, n - 1, traverseArrays) + Prefixed(KeySegment(OwnEntries(owner)[n - 1].0), Below(EntryValue(owner, n - 1), traverseArrays))
  }

  /** What an entry contributes below its key: its own leaves, or itself as a leaf. */
  function Below(v: Value, traverseArrays: bool): (r: seq<(seq<string>, Value)>)
    decreases v, 2
  {
    if Descends(v, traverseArrays) then Leaves(v, traverseArrays) else [([], v)]
  }

  /**
   * The step of `plainRec` for one entry: descend and merge the sub-map, or
   * store the value under the joined path (an empty array or object is stored
   * as a fresh empty one, which is the same value).
   */
  function FlatStep(paths: seq<(string, Value)>, value: Value, traverseArrays: bool, subpath: seq<string>, below: seq<(string, Value)>): seq<(string, Value)> {
    if Descends(value, traverseArrays) then AssignAll(paths, below)
    else AssignKey(paths, Join(subpath), value)
  }

  /** The inner recursion of `plain`: the path map of everything below `data`, under `current`. */
  function Flat(data: Value, traverseArrays: bool, current: seq<string>): seq<(string, Value)>
    decreases data, 1
  {
    FlatUnder(data, |OwnEntries(data)|, traverseArrays, current)
  }

  /** The reduce of `plainRec` over the first `n` entries of `owner`. */
  function FlatUnder(owner: Value, n: nat, traverseArrays: bool, current: seq<string>): seq<(string, Value)>
    requires n <= |OwnEntries(owner)|
    decreases owner, 0, n
  {
    if n == 0 then []
    else
      var v := EntryValue(owner, n - 1);
      var subpath := current + [KeySegment(OwnEntries(owner)[n - 1].0)];
      FlatStep(FlatUnder(owner, n - 1, traverseArrays, current), v, traverseArrays, subpath,
               if Descends(v, traverseArrays) then Flat(v, traverseArrays, subpath) else [])
  }

  /** The inner recursion of `plain`: a reduce over the entries of `data`. */
  method PlainRec(data: Value, traverseArrays: bool, current: seq<string>) returns (paths: seq<(string, Value)>)
    ensures paths == Flat(data, traverseArrays, current)
    decreases data, 1
  {
    paths := [];
    var i := 0;
    while i < |OwnEntries(data)|
      invariant 0 <= i <= |OwnEntries(data)|
      invariant paths == FlatUnder(data, i, traverseArrays, current)
    {
      paths := PlainStep(paths, data, i, traverseArrays, current);
      i := i + 1;
    }
  }

  /**
   * The reduce callback of `plainRec` for the `n`-th entry of `data`: merge
   * the sub-branch's map, or store the value under its joined path.
   */
  method PlainStep(paths: seq<(string, Value)>, data: Value, n: nat, traverseArrays: bool, current: seq<string>) returns (r: seq<(string, Value)>)
    requires n < |OwnEntries(data)|
    ensures r == FlatStep(paths, EntryValue(data, n), traverseArrays, current + [KeySegment(OwnEntries(data)[n].0)],
                          if Descends(EntryValue(data, n), traverseArrays) then Flat(EntryValue(data, n), traverseArrays, current + [KeySegment(OwnEntries(data)[n].0)]) else [])
    ensures paths == FlatUnder(data, n, traverseArrays, current) ==> r == FlatUnder(data, n + 1, traverseArrays, current)
    decreases data, 0
  {
    FlatUnderNext(data, n, traverseArrays, current);
    var value := EntryValue(data, n);
    var subpath := current + [KeySegment(OwnEntries(data)[n].0)];
    if Descends(value, traverseArrays) {
      var below := PlainRec(value, traverseArrays, subpath);
      r := AssignAll(paths, below);
    } else {
      r := AssignKey(paths, Join(subpath), value);
    }
  }

  /** The reduce over one more entry is one more step. */
  lemma FlatUnderNext(owner: Value, n: nat, traverseArrays: bool, current: seq<string>)
    requires n < |OwnEntries(owner)|
    ensures FlatUnder(owner, n + 1, traverseArrays, current) ==
      var v := EntryValue(owner, n);
      var subpath := current + [KeySegment(OwnEntries(owner)[n].0)];
      FlatStep(FlatUnder(owner, n, traverseArrays, current), v, traverseArrays, subpath, if Descends(v, traverseArrays) then Flat(v, traverseArrays, subpath) else [])
  {
  }

  /** `plain`. */
  method Plain(data: Value, traverseArrays: bool) returns (r: Value)
    ensures r == Obj(Flat(data, traverseArrays, []))
  {
    var paths := PlainRec(data, traverseArrays, []);
    r := Obj(paths);
  }

  lemma LeafStep(current: seq<string>, seg: string, earlier: seq<(seq<string>, Value)>, v: Value)
    ensures AssignKey(AssignAll([], Label(current, earlier)), Join(current + [seg]), v) ==
      AssignAll([], Label(current, earlier + Prefixed(seg, [([], v)])))
  {
    var l1 := Label(current, earlier);
    var l := Label(current, earlier + Prefixed(seg, [([], v)]));
    assert current + ([seg] + []) == current + [seg];
    assert l == l1 + [(Join(current + [seg]), v)];
    assert l[..|l| - 1] == l1;
  }

  lemma DescendStep(current: seq<string>, seg: string, earlier: seq<(seq<string>, Value)>, inner: seq<(seq<string>, Value)>)
    ensures AssignAll(AssignAll([], Label(current, earlier)), AssignAll([], Label(current + [seg], inner))) ==
      AssignAll([], Label(current, earlier + Prefixed(seg, inner)))
  {
    var l1 := Label(current, earlier);
    var l2 := Label(current + [seg], inner);
    MergeBuiltObject(AssignAll([], l1), l2);
    AssignAllConcat([], l1, l2);
    LabelConcat(current, earlier, Prefixed(seg, inner));
    LabelPrefixed(current, seg, inner);
  }

  /** A leaf entry is the one-segment path to the value. */
  lemma LeafIsPrefixed(seg: string, v: Value)
    ensures [([seg], v)] == Prefixed(seg, [([], v)])
  {
    assert [seg] + [] == [seg];
  }

  /**
   * The map `plain` builds is the list of leaves, labelled with their joined
   * paths and merged key by key in order.
   */
  lemma {:induction false} FlatIsLeaves(data: Value, traverseArrays: bool, current: seq<string>)
    ensures Flat(data, traverseArrays, current) == AssignAll([], Label(current, Leaves(data, traverseArrays)))
    decreases data, 1
  {
    FlatUnderIsLeavesUnder(data, |OwnEntries(data)|, traverseArrays, current);
  }

  /** The map `plainRec`'s reduce builds from the first `n` entries of `owner`. */
  ghost function Built(owner: Value, n: nat, traverseArrays: bool, current: seq<string>): seq<(string, Value)>
    requires n <= |OwnEntries(owner)|
  {
    FlatUnder(owner, n, traverseArrays, current)
  }

  /** The map the leaves below the first `n` entries of `owner` merge to. */
  ghost function MergedLeaves(owner: Value, n: nat, traverseArrays: bool, current: seq<string>): seq<(string, Value)>
    requires n <= |OwnEntries(owner)|
  {
    AssignAll([], Label(current, LeavesUnder(owner, n, traverseArrays)))
  }

  /** The first `n` entries of `owner` are merged as their leaves. */
  lemma {:induction false} FlatUnderIsLeavesUnder(owner: Value, n: nat, traverseArrays: bool, current: seq<string>)
    requires n <= |OwnEntries(owner)|
    ensures Built(owner, n, traverseArrays, current) == MergedLeaves(owner, n, traverseArrays, current)
    decreases owner, 0, n, 1
  {
    if n > 0 {
      EntryIsBelow(owner, n, traverseArrays, current);
    } else {
      NoEntriesMerged(owner, traverseArrays, current);
    }
  }

  /** No entries merge to the empty map, which is what no leaves merge to. */
  lemma NoEntriesMerged(owner: Value, traverseArrays: bool, current: seq<string>)
    ensures Built(owner, 0, traverseArrays, current) == MergedLeaves(owner, 0, traverseArrays, current)
  {
    assert Label(current, []) == [];
  }

  /** The first `n - 1` entries are merged as their leaves, and the `n`-th entry's step merges its leaves below its key. */
  lemma {:induction false} EntryIsBelow(owner: Value, n: nat, traverseArrays: bool, current: seq<string>)
    requires 0 < n <= |OwnEntries(owner)|
    ensures Built(owner, n, traverseArrays, current) == MergedLeaves(owner, n, traverseArrays, current)
    decreases owner, 0, n, 0
  {
    var prev := n - 1;
    FlatUnderIsLeavesUnder(owner, prev, traverseArrays, current);
    MergedNext(owner, prev, n, traverseArrays, current);
  }

  /** Once the entries before `n` are merged as their leaves, so are the first `n`. */
  lemma {:induction false} MergedNext(owner: Value, prev: nat, n: nat, traverseArrays: bool, current: seq<string>)
    requires n == prev + 1 && n <= |OwnEntries(owner)|
    ensures Built(owner, prev, traverseArrays, current) == MergedLeaves(owner, prev, traverseArrays, current) ==>
            Built(owner, n, traverseArrays, current) == MergedLeaves(owner, n, traverseArrays, current)
    decreases owner, 0, prev, 3
  {
    var seg := KeySegment(OwnEntries(owner)[prev].0);
    var v := EntryValue(owner, prev);
    var subpath := current + [seg];
    EntryFlatIsLeaves(owner, prev, traverseArrays, subpath);
    StepMergesBelow(FlatUnder(owner, prev, traverseArrays, current), current, seg, LeavesUnder(owner, prev, traverseArrays), v, traverseArrays);
    FlatUnderStep(owner, prev, n, traverseArrays, current);
    LeavesUnderStep(owner, prev, n, traverseArrays);
  }

  /** The reduce over the entries before `n` and one more step is the reduce over the first `n`. */
  lemma FlatUnderStep(owner: Value, prev: nat, n: nat, traverseArrays: bool, current: seq<string>)
    requires n == prev + 1 && n <= |OwnEntries(owner)|
    ensures Built(owner, n, traverseArrays, current) ==
      var v := EntryValue(owner, prev);
      var subpath := current + [KeySegment(OwnEntries(owner)[prev].0)];
      FlatStep(FlatUnder(owner, prev, traverseArrays, current), v, traverseArrays, subpath, if Descends(v, traverseArrays) then Flat(v, traverseArrays, subpath) else [])
  {
    FlatUnderNext(owner, prev, traverseArrays, current);
  }

  /** The leaves below the first `n` entries are those below the entries before `n`, then entry `prev`'s below its key. */
  lemma LeavesUnderStep(owner: Value, prev: nat, n: nat, traverseArrays: bool)
    requires n == prev + 1 && n <= |OwnEntries(owner)|
    ensures LeavesUnder(owner, n, traverseArrays) ==
      LeavesUnder(owner, prev, traverseArrays) + Prefixed(KeySegment(OwnEntries(owner)[prev].0), Below(EntryValue(owner, prev), traverseArrays))
  {
  }

  /** The map below one entry of `owner` is its leaves, merged. */
  lemma {:induction false} EntryFlatIsLeaves(owner: Value, i: nat, traverseArrays: bool, subpath: seq<string>)
    requires i < |OwnEntries(owner)|
    ensures Descends(EntryValue(owner, i), traverseArrays) ==>
      Flat(EntryValue(owner, i), traverseArrays, subpath) == AssignAll([], Label(subpath, Leaves(EntryValue(owner, i), traverseArrays)))
    decreases owner, 0, i, 2
  {
    if Descends(EntryValue(owner, i), traverseArrays) {
      FlatIsLeaves(EntryValue(owner, i), traverseArrays, subpath);
    }
  }

  /** Merging one entry's step onto the merged earlier leaves merges its leaves below its key too. */
  lemma StepMergesBelow(prev: seq<(string, Value)>, current: seq<string>, seg: string, earlier: seq<(seq<string>, Value)>, v: Value, traverseArrays: bool)
    ensures && prev == AssignAll([], Label(current, earlier))
            && (Descends(v, traverseArrays) ==> Flat(v, traverseArrays, current + [seg]) == AssignAll([], Label(current + [seg], Leaves(v, traverseArrays))))
            ==> FlatStep(prev, v, traverseArrays, current + [seg], if Descends(v, traverseArrays) then Flat(v, traverseArrays, current + [seg]) else []) ==
                AssignAll([], Label(current, earlier + Prefixed(seg, Below(v, traverseArrays))))
  {
    if Descends(v, traverseArrays) {
      DescendStep(current, seg, earlier, Leaves(v, traverseArrays));
    } else {
      LeafStep(current, seg, earlier, v);
    }
  }

  /** Walking from `from` along each listed path reaches the value listed with it. */
  ghost predicate AllFound(from: Value, leaves: seq<(seq<string>, Value)>) {
    forall i :: 0 <= i < |leaves| ==> Walk(from, leaves[i].0) == leaves[i].1
  }

  /** Walking a prefixed path from the owner is walking the rest from the child the prefix names. */
  lemma WalkPrefixed(owner: Value, seg: string, child: Value, inner: seq<(seq<string>, Value)>)
    requires Child(owner, seg) == child && AllFound(child, inner)
    ensures AllFound(owner, Prefixed(seg, inner))
  {
    forall i | 0 <= i < |inner| ensures Walk(owner, Prefixed(seg, inner)[i].0) == inner[i].1 {
      assert Prefixed(seg, inner)[i].0[1..] == inner[i].0;
    }
  }

  lemma WalksConcat(owner: Value, a: seq<(seq<string>, Value)>, b: seq<(seq<string>, Value)>)
    requires AllFound(owner, a) && AllFound(owner, b)
    ensures AllFound(owner, a + b)
  {
    forall i | 0 <= i < |a + b| ensures Walk(owner, (a + b)[i].0) == (a + b)[i].1 {
      if i >= |a| {
        assert (a + b)[i] == b[i - |a|];
      }
    }
  }

  /** In well-formed data, every leaf's path leads to that leaf. */
  lemma {:induction false} LeavesFound(data: Value, traverseArrays: bool)
    requires WellFormed(data)
    ensures forall i :: 0 <= i < |Leaves(data, traverseArrays)| ==>
      Walk(data, Leaves(data, traverseArrays)[i].0) == Leaves(data, traverseArrays)[i].1
    decreases data, 1
  {
    LeavesUnderFound(data, |OwnEntries(data)|, traverseArrays);
  }

  lemma {:induction false} LeavesUnderFound(owner: Value, n: nat, traverseArrays: bool)
    requires WellFormed(owner) && n <= |OwnEntries(owner)|
    ensures AllFound(owner, LeavesUnder(owner, n, traverseArrays))
    decreases owner, 0, n
  {
    if n > 0 {
      LeavesUnderFound(owner, n - 1, traverseArrays);
      EntryFacts(owner, n - 1);
      BelowFound(EntryValue(owner, n - 1), traverseArrays);
      FoundStep(owner, n, traverseArrays);
    }
  }

  /** The leaves below one more entry are found from the owner when those below the earlier ones are, and the entry's own are found from it. */
  lemma FoundStep(owner: Value, n: nat, traverseArrays: bool)
    requires 0 < n <= |OwnEntries(owner)| && (owner.Obj? ==> UniqueKeys(owner.fields))
    requires AllFound(owner, LeavesUnder(owner, n - 1, traverseArrays))
    requires AllFound(EntryValue(owner, n - 1), Below(EntryValue(owner, n - 1), traverseArrays))
    ensures AllFound(owner, LeavesUnder(owner, n, traverseArrays))
  {
    var v := EntryValue(owner, n - 1);
    var seg := KeySegment(OwnEntries(owner)[n - 1].0);
    var earlier := LeavesUnder(owner, n - 1, traverseArrays);
    assert LeavesUnder(owner, n, traverseArrays) == earlier + Prefixed(seg, Below(v, traverseArrays));
    ChildOfEntry(owner, n - 1);
    WalkPrefixed(owner, seg, v, Below(v, traverseArrays));
    WalksConcat(owner, earlier, Prefixed(seg, Below(v, traverseArrays)));
  }

  lemma {:induction false} BelowFound(v: Value, traverseArrays: bool)
    requires WellFormed(v)
    ensures AllFound(v, Below(v, traverseArrays))
    decreases v, 2
  {
    if Descends(v, traverseArrays) {
      LeavesFound(v, traverseArrays);
    }
  }

  /** No listed value is one `plain` would go below. */
  ghost predicate Settled(leaves: seq<(seq<string>, Value)>, traverseArrays: bool) {
    forall i :: 0 <= i < |leaves| ==> !Descends(leaves[i].1, traverseArrays)
  }

  /** Every leaf is a value `plain` stores whole: a scalar, nil, an empty array or object, or an array left whole. */
  lemma {:induction false} LeavesSettled(data: Value, traverseArrays: bool)
    ensures Settled(Leaves(data, traverseArrays), traverseArrays)
    decreases data, 1
  {
    LeavesUnderSettled(data, |OwnEntries(data)|, traverseArrays);
  }

  lemma {:induction false} LeavesUnderSettled(owner: Value, n: nat, traverseArrays: bool)
    requires n <= |OwnEntries(owner)|
    ensures Settled(LeavesUnder(owner, n, traverseArrays), traverseArrays)
    decreases owner, 0, n
  {
    if n > 0 {
      LeavesUnderSettled(owner, n - 1, traverseArrays);
      BelowSettled(EntryValue(owner, n - 1), traverseArrays);
      SettledStep(owner, n, traverseArrays);
    }
  }

  /** The leaves below one more entry are settled when the earlier ones and the entry's own are. */
  lemma SettledStep(owner: Value, n: nat, traverseArrays: bool)
    requires 0 < n <= |OwnEntries(owner)|
    requires Settled(LeavesUnder(owner, n - 1, traverseArrays), traverseArrays)
    requires Settled(Below(EntryValue(owner, n - 1), traverseArrays), traverseArrays)
    ensures Settled(LeavesUnder(owner, n, traverseArrays), traverseArrays)
  {
    var earlier := LeavesUnder(owner, n - 1, traverseArrays);
    var later := Prefixed(KeySegment(OwnEntries(owner)[n - 1].0), Below(EntryValue(owner, n - 1), traverseArrays));
    var r := LeavesUnder(owner, n, traverseArrays);
    assert r == earlier + later;
    forall i | 0 <= i < |r| ensures !Descends(r[i].1, traverseArrays) {
      if i >= |earlier| {
        assert r[i] == later[i - |earlier|];
      } else {
        assert r[i] == earlier[i];
      }
    }
  }

  lemma {:induction false} BelowSettled(v: Value, traverseArrays: bool)
    ensures Settled(Below(v, traverseArrays), traverseArrays)
    decreases v, 2
  {
    if Descends(v, traverseArrays) {
      LeavesSettled(v, traverseArrays);
    }
  }

  /**
   * A route `plain` follows: each segment names an own key of the value the
   * earlier ones reach, and every value strictly inside the route is one it
   * goes below. The top level is iterated whatever its kind.
   */
  ghost predicate Route(data: Value, traverseArrays: bool, segs: seq<string>) {
    && (forall i :: 0 <= i < |segs| ==> OwnKey(Walk(data, segs[..i]), segs[i]))
    && (forall i :: 0 < i < |segs| ==> Descends(Walk(data, segs[..i]), traverseArrays))
  }

  /**
   * Flattening is complete: a route that ends at a value `plain` stores whole
   * leads to a leaf.
   */
  lemma {:induction false} LeavesComplete(data: Value, traverseArrays: bool, segs: seq<string>)
    requires |segs| >= 1 && Route(data, traverseArrays, segs)
    requires !Descends(Walk(data, segs), traverseArrays)
    ensures (segs, Walk(data, segs)) in Leaves(data, traverseArrays)
    decreases |segs|
  {
    var seg, rest := segs[0], segs[1..];
    assert segs[..0] == [];
    var m := EntryOf(data, seg);
    var child := Child(data, seg);
    var x := (segs, Walk(data, segs));
    assert segs == [seg] + rest && Walk(data, segs) == Walk(child, rest);
    if rest == [] {
      assert segs == [seg] && Walk(child, rest) == child;
      LeafIsPrefixed(seg, child);
    } else {
      RouteRest(data, traverseArrays, segs);
      LeavesComplete(child, traverseArrays, rest);
      var inner := Leaves(child, traverseArrays);
      var k :| 0 <= k < |inner| && inner[k] == (rest, Walk(child, rest));
      assert Prefixed(seg, inner)[k] == x;
    }
    LeavesUnderHas(data, |OwnEntries(data)|, traverseArrays, m, x);
  }

  /** Past its first segment, a route continues from the child it names, which `plain` goes below. */
  lemma RouteRest(data: Value, traverseArrays: bool, segs: seq<string>)
    requires |segs| >= 2 && Route(data, traverseArrays, segs)
    ensures Descends(Child(data, segs[0]), traverseArrays)
    ensures Route(Child(data, segs[0]), traverseArrays, segs[1..])
  {
    var child, rest := Child(data, segs[0]), segs[1..];
    forall i | 0 <= i < |rest|
      ensures Walk(child, rest[..i]) == Walk(data, segs[..i + 1]) && rest[i] == segs[i + 1]
    {
      assert segs[..i + 1] == [segs[0]] + rest[..i];
    }
    assert segs[..1] == [segs[0]];
  }

  /** What the `m`-th entry contributes below its key is among the leaves below the first `n` entries, once `m < n`. */
  lemma {:induction false} LeavesUnderHas(owner: Value, n: nat, traverseArrays: bool, m: nat, x: (seq<string>, Value))
    requires m < n <= |OwnEntries(owner)|
    requires x in Prefixed(KeySegment(OwnEntries(owner)[m].0), Below(EntryValue(owner, m), traverseArrays))
    ensures x in LeavesUnder(owner, n, traverseArrays)
    decreases n
  {
    var earlier := LeavesUnder(owner, n - 1, traverseArrays);
    var later := Prefixed(KeySegment(OwnEntries(owner)[n - 1].0), Below(EntryValue(owner, n - 1), traverseArrays));
    assert LeavesUnder(owner, n, traverseArrays) == earlier + later;
    if m < n - 1 {
      LeavesUnderHas(owner, n - 1, traverseArrays, m, x);
      assert x in earlier;
    } else {
      assert x in later;
    }
  }

  /** Leaf paths inherit spellable segments from the keys of the data. */
  lemma {:induction false} LeavesSpellable(data: Value, traverseArrays: bool)
    requires SpellableKeys(data)
    ensures forall i :: 0 <= i < |Leaves(data, traverseArrays)| ==> SpellablePath(Leaves(data, traverseArrays)[i].0)
    decreases data, 1
  {
    LeavesUnderSpellable(data, |OwnEntries(data)|, traverseArrays);
  }

  lemma {:induction false} LeavesUnderSpellable(owner: Value, n: nat, traverseArrays: bool)
    requires SpellableKeys(owner) && n <= |OwnEntries(owner)|
    ensures forall i :: 0 <= i < |LeavesUnder(owner, n, traverseArrays)| ==> SpellablePath(LeavesUnder(owner, n, traverseArrays)[i].0)
    decreases owner, 0, n
  {
    if n > 0 {
      var v := EntryValue(owner, n - 1);
      LeavesUnderSpellable(owner, n - 1, traverseArrays);
      EntryFacts(owner, n - 1);
      BelowSpellable(v, traverseArrays);
      PrefixedSpellable(LeavesUnder(owner, n - 1, traverseArrays), KeySegment(OwnEntries(owner)[n - 1].0), Below(v, traverseArrays));
    }
  }

  lemma {:induction false} BelowSpellable(v: Value, traverseArrays: bool)
    requires SpellableKeys(v)
    ensures forall i :: 0 <= i < |Below(v, traverseArrays)| ==> SpellablePath(Below(v, traverseArrays)[i].0)
    decreases v, 2
  {
    if Descends(v, traverseArrays) {
      LeavesSpellable(v, traverseArrays);
    } else {
      assert Below(v, traverseArrays) == [([], v)];
    }
  }

  /** In well-formed data, leaf paths are pairwise distinct. */
  lemma {:induction false} LeavesDistinct(data: Value, traverseArrays: bool)
    requires WellFormed(data)
    ensures forall i, j :: 0 <= i < j < |Leaves(data, traverseArrays)| ==>
      Leaves(data, traverseArrays)[i].0 != Leaves(data, traverseArrays)[j].0
    decreases data, 1
  {
    LeavesUnderDistinct(data, |OwnEntries(data)|, traverseArrays);
  }

  lemma {:induction false} LeavesUnderDistinct(owner: Value, n: nat, traverseArrays: bool)
    requires WellFormed(owner) && n <= |OwnEntries(owner)|
    ensures forall i, j :: 0 <= i < j < |LeavesUnder(owner, n, traverseArrays)| ==>
      LeavesUnder(owner, n, traverseArrays)[i].0 != LeavesUnder(owner, n, traverseArrays)[j].0
    decreases owner, 0, n
  {
    if n > 0 {
      var seg := KeySegment(OwnEntries(owner)[n - 1].0);
      var v := EntryValue(owner, n - 1);
      LeavesUnderDistinct(owner, n - 1, traverseArrays);
      EntryFacts(owner, n - 1);
      BelowDistinct(v, traverseArrays);
      EarlierLeafHeadsDiffer(owner, n - 1, traverseArrays);
      DistinctGroups(LeavesUnder(owner, n - 1, traverseArrays), seg, Below(v, traverseArrays));
    }
  }

  lemma {:induction false} BelowDistinct(v: Value, traverseArrays: bool)
    requires WellFormed(v)
    ensures forall i, j :: 0 <= i < j < |Below(v, traverseArrays)| ==> Below(v, traverseArrays)[i].0 != Below(v, traverseArrays)[j].0
    decreases v, 2
  {
    if Descends(v, traverseArrays) {
      LeavesDistinct(v, traverseArrays);
    } else {
      assert Below(v, traverseArrays) == [([], v)];
    }
  }

  /** Leaves below the first `n` entries never start with the key of entry `n`, since own keys are distinct. */
  lemma EarlierLeafHeadsDiffer(owner: Value, n: nat, traverseArrays: bool)
    requires owner.Obj? ==> UniqueKeys(owner.fields)
    requires n < |OwnEntries(owner)|
    ensures forall i :: 0 <= i < |LeavesUnder(owner, n, traverseArrays)| ==>
      |LeavesUnder(owner, n, traverseArrays)[i].0| > 0 && LeavesUnder(owner, n, traverseArrays)[i].0[0] != KeySegment(OwnEntries(owner)[n].0)
  {
    var es := OwnEntries(owner);
    var seg := KeySegment(es[n].0);
    var r := LeavesUnder(owner, n, traverseArrays);
    EntrySegmentsDistinct(owner);
    LeavesUnderHeads(owner, n, traverseArrays);
    forall i | 0 <= i < |r| ensures r[i].0[0] != seg {
      var m :| 0 <= m < n && KeySegmentsOf(es[..n])[m] == r[i].0[0];
      assert es[..n][m] == es[m];
    }
  }

  /** Leaves below the first `n` entries start with one of those entries' keys. */
  lemma {:induction false} LeavesUnderHeads(owner: Value, n: nat, traverseArrays: bool)
    requires n <= |OwnEntries(owner)|
    ensures forall i :: 0 <= i < |LeavesUnder(owner, n, traverseArrays)| ==>
      |LeavesUnder(owner, n, traverseArrays)[i].0| >= 1 && LeavesUnder(owner, n, traverseArrays)[i].0[0] in KeySegmentsOf(OwnEntries(owner)[..n])
    decreases n
  {
    if n > 0 {
      var es := OwnEntries(owner);
      var seg := KeySegment(es[n - 1].0);
      var earlier := LeavesUnder(owner, n - 1, traverseArrays);
      LeavesUnderHeads(owner, n - 1, traverseArrays);
      var inner := Below(EntryValue(owner, n - 1), traverseArrays);
      assert KeySegmentsOf(es[..n]) == KeySegmentsOf(es[..n - 1]) + [seg];
      assert LeavesUnder(owner, n, traverseArrays) == earlier + Prefixed(seg, inner);
      HeadsAppend(earlier, KeySegmentsOf(es[..n - 1]), seg, inner);
    }
  }

  /** Every leaf path has at least one segment, and the first is the key of one of the data's own entries. */
  lemma LeavesHeads(data: Value, traverseArrays: bool)
    ensures forall i :: 0 <= i < |Leaves(data, traverseArrays)| ==>
      |Leaves(data, traverseArrays)[i].0| >= 1 && Leaves(data, traverseArrays)[i].0[0] in KeySegmentsOf(OwnEntries(data))
  {
    LeavesUnderHeads(data, |OwnEntries(data)|, traverseArrays);
    assert OwnEntries(data)[..|OwnEntries(data)|] == OwnEntries(data);
  }

  /** Appending the paths below one more key adds that key to the heads. */
  lemma HeadsAppend(earlier: seq<(seq<string>, Value)>, heads: seq<string>, seg: string, inner: seq<(seq<string>, Value)>)
    requires forall i :: 0 <= i < |earlier| ==> |earlier[i].0| >= 1 && earlier[i].0[0] in heads
    ensures forall i :: 0 <= i < |earlier + Prefixed(seg, inner)| ==>
      |(earlier + Prefixed(seg, inner))[i].0| >= 1 && (earlier + Prefixed(seg, inner))[i].0[0] in heads + [seg]
  {
    var r := earlier + Prefixed(seg, inner);
    forall i | 0 <= i < |r| ensures |r[i].0| >= 1 && r[i].0[0] in heads + [seg] {
      if i >= |earlier| {
        assert r[i].0 == [seg] + inner[i - |earlier|].0;
      } else {
        assert r[i] == earlier[i];
      }
    }
  }

  /**
   * For well-formed data with spellable keys, `plain` holds exactly one entry
   * per leaf, keyed by the leaf's joined path, in depth-first iteration order.
   */
  lemma PlainExact(data: Value, traverseArrays: bool)
    requires WellFormed(data) && SpellableKeys(data)
    ensures Flat(data, traverseArrays, []) == Label([], Leaves(data, traverseArrays))
    ensures UniqueKeys(Flat(data, traverseArrays, []))
  {
    FlatIsLeaves(data, traverseArrays, []);
    LeavesDistinct(data, traverseArrays);
    LeavesSpellable(data, traverseArrays);
    LeavesHeads(data, traverseArrays);
    LabelsUnique(Leaves(data, traverseArrays));
  }

  /**
   * `plain` misses nothing: for well-formed data with spellable keys, a route
   * ending at a value `plain` stores whole appears under its dotted path.
   */
  lemma PlainComplete(data: Value, traverseArrays: bool, segs: seq<string>)
    requires WellFormed(data) && SpellableKeys(data)
    requires |segs| >= 1 && Route(data, traverseArrays, segs)
    requires !Descends(Walk(data, segs), traverseArrays)
    ensures (Join(segs), Walk(data, segs)) in Flat(data, traverseArrays, [])
  {
    var ls := Leaves(data, traverseArrays);
    PlainExact(data, traverseArrays);
    LeavesComplete(data, traverseArrays, segs);
    var k :| 0 <= k < |ls| && ls[k] == (segs, Walk(data, segs));
    LabelIn(ls, k);
  }

  /**
   * Every entry of `plain` reads back: `get` with its path on the original
   * data finds its value (or the default, when the leaf itself is nil), and
   * that value is a leaf.
   */
  lemma PlainEntriesAreGets(data: Value, traverseArrays: bool, notFound: Value)
    requires WellFormed(data) && SpellableKeys(data)
    ensures forall e :: e in Flat(data, traverseArrays, []) ==>
      Walk(data, Normalize(Text(e.0))) == e.1 && Get(data, Text(e.0), notFound) == DefaultsTo(e.1, notFound) &&
      !Descends(e.1, traverseArrays)
  {
    var ls := Leaves(data, traverseArrays);
    var labels := Label([], ls);
    FlatIsLeaves(data, traverseArrays, []);
    LeavesFound(data, traverseArrays);
    LeavesSpellable(data, traverseArrays);
    LeavesSettled(data, traverseArrays);
    AssignAllMembers([], labels);
    forall e | e in Flat(data, traverseArrays, [])
      ensures Walk(data, Normalize(Text(e.0))) == e.1 && !Descends(e.1, traverseArrays)
    {
      assert e in labels;
      var i :| 0 <= i < |labels| && labels[i] == e;
      assert [] + ls[i].0 == ls[i].0;
      NormalizeJoin(ls[i].0);
    }
  }

  /** `paths`: the keys of `plain`. */
  function LeafPaths(data: Value, traverseArrays: bool): (r: seq<string>)
    ensures |r| == |Flat(data, traverseArrays, [])|
  {
    KeysOf(Flat(data, traverseArrays, []))
  }

  /** For well-formed data with spellable keys, `paths` lists each leaf's joined path once, in order. */
  lemma LeafPathsExact(data: Value, traverseArrays: bool)
    requires WellFormed(data) && SpellableKeys(data)
    ensures |LeafPaths(data, traverseArrays)| == |Leaves(data, traverseArrays)|
    ensures forall i :: 0 <= i < |LeafPaths(data, traverseArrays)| ==>
      LeafPaths(data, traverseArrays)[i] == Join(Leaves(data, traverseArrays)[i].0)
    ensures forall i, j :: 0 <= i < j < |LeafPaths(data, traverseArrays)| ==>
      LeafPaths(data, traverseArrays)[i] != LeafPaths(data, traverseArrays)[j]
  {
    PlainExact(data, traverseArrays);
    var ls := Leaves(data, traverseArrays);
    forall i | 0 <= i < |ls| ensures [] + ls[i].0 == ls[i].0 {
    }
  }

  /** What `entries` returns: the own entries, or the entries of `plain` keyed by path. */
  function EntryList(data: Value, deep: bool, traverseArrays: bool): seq<(Key, Value)> {
    if !deep then OwnEntries(data)
    else
      var flat := Flat(data, traverseArrays, []);
      seq(|flat|, i requires 0 <= i < |flat| => (Name(flat[i].0), flat[i].1))
  }

  /** The reduce step of shallow `entries`: push `[key, value]`. */
  function PushEntry(): (seq<(Key, Value)>, Value, Key) -> seq<(Key, Value)> {
    (acc: seq<(Key, Value)>, v: Value, k: Key) => acc + [(k, v)]
  }

  lemma {:induction false} PushEntries(es: seq<(Key, Value)>, n: nat)
    requires n <= |es|
    ensures Fold(es[..n], PushEntry(), []) == es[..n]
  {
    if n > 0 {
      PushEntries(es, n - 1);
      assert es[..n][..n - 1] == es[..n - 1];
      assert es[..n] == es[..n - 1] + [es[n - 1]];
    }
  }

  /** `entries`. */
  method Entries(data: Value, deep: bool, traverseArrays: bool) returns (r: seq<(Key, Value)>)
    ensures r == EntryList(data, deep, traverseArrays)
  {
    if !deep {
      r := Reduce(data, PushEntry(), []);
      PushEntries(OwnEntries(data), |OwnEntries(data)|);
      assert OwnEntries(data)[..|OwnEntries(data)|] == OwnEntries(data);
      return;
    }
    var flat := Plain(data, traverseArrays);
    r := seq(|flat.fields|, i requires 0 <= i < |flat.fields| => (Name(flat.fields[i].0), flat.fields[i].1));
  }
}
