/**
 * Wildcard paths: `getAll` resolves every `*` segment to each own key in turn,
 * `setAll` writes every place a pattern resolves to, and `setWith` applies a
 * table of writes (src/datamix.js:404-472).
 */
module Wildcards {
  import opened Wrappers
  import opened Decimal
  import opened Fields
  import opened Data
  import opened Paths
  import opened Access

  /** A resolved path fits a pattern: same length, and equal wherever the pattern is not a wildcard. */
  predicate Fits(pattern: seq<string>, segs: seq<string>) {
    |segs| == |pattern| && forall j :: 0 <= j < |pattern| && !IsWildcard(pattern[j]) ==> segs[j] == pattern[j]
  }

  /** Every segment of a path can be spelled between dots. */
  predicate SpellablePath(segs: seq<string>) {
    forall j :: 0 <= j < |segs| ==> Spellable(segs[j])
  }

  /** Prepends one segment to each resolved path. */
  function Prefixed(seg: string, ms: seq<(seq<string>, Value)>): (r: seq<(seq<string>, Value)>)
    ensures |r| == |ms|
    ensures forall i :: 0 <= i < |r| ==> r[i] == ([seg] + ms[i].0, ms[i].1)
  {
    seq(|ms|, i requires 0 <= i < |ms| => ([seg] + ms[i].0, ms[i].1))
  }

  /**
   * Every place a pattern resolves to in `data`: the concrete segments and the
   * non-nil value found there, depth first, in iteration order.
   */
  function Matches(data: Value, pattern: seq<string>): (r: seq<(seq<string>, Value)>)
    ensures forall i :: 0 <= i < |r| ==> Fits(pattern, r[i].0) && Walk(data, r[i].0) == r[i].1 && !IsNil(r[i].1)
    decreases |pattern|, 0, 0
  {
    if IsNil(data) then []
    else if pattern == [] then [([], data)]
    else if !IsWildcard(pattern[0]) then
      var inner := Matches(Child(data, pattern[0]), pattern[1..]);
      PrefixedFacts(data, pattern[0], pattern[1..], pattern, inner);
      Prefixed(pattern[0], inner)
    else
      MatchesUnder(data, OwnEntries(data), pattern[1..])
  }

  /** The matches below the given entries of `data`, one entry after another. */
  function MatchesUnder(data: Value, es: seq<(Key, Value)>, tail: seq<string>): (r: seq<(seq<string>, Value)>)
    ensures forall i :: 0 <= i < |r| ==>
      Fits(["*"] + tail, r[i].0) && Walk(data, r[i].0) == r[i].1 && !IsNil(r[i].1) &&
      r[i].0[0] in KeySegmentsOf(es)
    decreases |tail|, 1, |es|
  {
    if es == [] then []
    else
      var seg := KeySegment(es[|es| - 1].0);
      var earlier := MatchesUnder(data, es[..|es| - 1], tail);
      var inner := Matches(Child(data, seg), tail);
      PrefixedFacts(data, seg, tail, ["*"] + tail, inner);
      assert KeySegmentsOf(es) == KeySegmentsOf(es[..|es| - 1]) + [seg];
      earlier + Prefixed(seg, inner)
  }

  lemma PrefixedFacts(data: Value, seg: string, tail: seq<string>, pattern: seq<string>, inner: seq<(seq<string>, Value)>)
    requires |pattern| == |tail| + 1 && (IsWildcard(pattern[0]) || pattern[0] == seg) && pattern[1..] == tail
    requires forall i :: 0 <= i < |inner| ==> Fits(tail, inner[i].0) && Walk(Child(data, seg), inner[i].0) == inner[i].1 && !IsNil(inner[i].1)
    ensures forall i :: 0 <= i < |inner| ==>
      Fits(pattern, Prefixed(seg, inner)[i].0) && Walk(data, Prefixed(seg, inner)[i].0) == inner[i].1 && Prefixed(seg, inner)[i].0[0] == seg
  {
    forall i | 0 <= i < |inner|
      ensures Fits(pattern, [seg] + inner[i].0) && Walk(data, [seg] + inner[i].0) == inner[i].1
    {
      var s := [seg] + inner[i].0;
      assert s[1..] == inner[i].0;
      forall j | 0 <= j < |pattern| && !IsWildcard(pattern[j]) ensures s[j] == pattern[j] {
        if j > 0 {
          assert s[j] == inner[i].0[j - 1] && pattern[j] == tail[j - 1];
        }
      }
    }
  }

  /** `{...values || {}}`: the fields of a path map, none when it is undefined. */
  function PathMap(v: Value): seq<(string, Value)> {
    if v.Obj? then v.fields else []
  }

  /** `Object.assign(paths, value)`, where an undefined value adds nothing. */
  function MergeInto(acc: seq<(string, Value)>, v: Value): seq<(string, Value)> {
    if v.Obj? then AssignAll(acc, v.fields) else acc
  }

  /**
   * After merging a branch's result, a key reads its last value in that
   * result, or its old value when the result lacks it or is undefined.
   */
  lemma MergeIntoLookup(acc: seq<(string, Value)>, v: Value, k: string)
    ensures Lookup(MergeInto(acc, v), k) ==
      if v.Obj? && LastLookup(v.fields, k).Some? then LastLookup(v.fields, k) else Lookup(acc, k)
    ensures !v.Obj? ==> MergeInto(acc, v) == acc
  {
    AssignAllLookup(acc, PathMap(v), k);
  }

  /**
   * The inner recursion of `getAll`: undefined on nil, a one-entry map at the
   * end of the pattern, one step down for a plain segment, and for a wildcard
   * the merge of every own key's results.
   */
  function Collect(data: Value, pattern: seq<string>, current: seq<string>): (r: Value)
    ensures r.Undefined? || r.Obj?
    decreases |pattern|, 0, 0
  {
    if IsNil(data) then Undefined
    else if pattern == [] then Obj([(Join(current), data)])
    else if !IsWildcard(pattern[0]) then Collect(Child(data, pattern[0]), pattern[1..], current + [pattern[0]])
    else Obj(CollectUnder(data, OwnEntries(data), pattern[1..], current))
  }

  /** The wildcard reduce of `getAll` over the given entries. */
  function CollectUnder(data: Value, es: seq<(Key, Value)>, tail: seq<string>, current: seq<string>): seq<(string, Value)>
    decreases |tail|, 1, |es|
  {
    if es == [] then []
    else
      var seg := KeySegment(es[|es| - 1].0);
      MergeInto(CollectUnder(data, es[..|es| - 1], tail, current), Collect(Child(data, seg), tail, current + [seg]))
  }

  /** What `getAll` returns: the path map itself, or its values in order. */
  function Gathered(data: Value, path: PathArg, withPaths: bool): (r: Value)
    ensures withPaths ==> r.Undefined? || r.Obj?
    ensures !withPaths ==> r.Arr? && |r.items| == |PathMap(Collect(data, Normalize(path), []))|
  {
    var found := Collect(data, Normalize(path), []);
    if withPaths then found else Arr(ValuesOf(PathMap(found)))
  }

  /** The inner recursion of `getAll`. */
  method GetAllRec(data: Value, pattern: seq<string>, current: seq<string>) returns (r: Value)
    ensures r == Collect(data, pattern, current)
    decreases |pattern|
  {
    if IsNil(data) {
      return Undefined;
    }
    if |pattern| == 0 {
      return Obj([(Join(current), data)]);
    }
    var needle := pattern[0];
    var tail := pattern[1..];
    if !IsWildcard(needle) {
      r := GetAllRec(Child(data, needle), tail, current + [needle]);
      return;
    }
    var es := OwnEntries(data);
    var paths: seq<(string, Value)> := [];
    var i := 0;
    while i < |es|
      invariant 0 <= i <= |es|
      invariant paths == CollectUnder(data, es[..i], tail, current)
    {
      var seg := KeySegment(es[i].0);
      var value := GetAllRec(Child(data, seg), tail, current + [seg]);
      CollectUnderStep(data, es, i, tail, current);
      paths := MergeInto(paths, value);
      i := i + 1;
    }
    assert es[..|es|] == es;
    r := Obj(paths);
  }

  lemma CollectUnderStep(data: Value, es: seq<(Key, Value)>, i: nat, tail: seq<string>, current: seq<string>)
    requires i < |es|
    ensures CollectUnder(data, es[..i + 1], tail, current) ==
      MergeInto(CollectUnder(data, es[..i], tail, current),
                Collect(Child(data, KeySegment(es[i].0)), tail, current + [KeySegment(es[i].0)]))
  {
    assert es[..i + 1][..i] == es[..i];
  }

  /** `getAll`. */
  method GetAll(data: Value, path: PathArg, withPaths: bool) returns (r: Value)
    ensures r == Gathered(data, path, withPaths)
  {
    var values := GetAllRec(data, Normalize(path), []);
    if withPaths {
      return values;
    }
    r := Arr(ValuesOf(PathMap(values)));
  }

  /** Resolved paths joined onto a common prefix, as the path map spells them. */
  function Label(current: seq<string>, ms: seq<(seq<string>, Value)>): (r: seq<(string, Value)>)
    ensures |r| == |ms|
  {
    seq(|ms|, i requires 0 <= i < |ms| => (Join(current + ms[i].0), ms[i].1))
  }

  lemma LabelConcat(current: seq<string>, a: seq<(seq<string>, Value)>, b: seq<(seq<string>, Value)>)
    ensures Label(current, a + b) == Label(current, a) + Label(current, b)
  {
  }

  lemma LabelPrefixed(current: seq<string>, seg: string, ms: seq<(seq<string>, Value)>)
    ensures Label(current, Prefixed(seg, ms)) == Label(current + [seg], ms)
  {
    forall i | 0 <= i < |ms| ensures current + ([seg] + ms[i].0) == (current + [seg]) + ms[i].0 {
    }
  }

  /**
   * The path map `getAll` builds is the list of matches, labelled with their
   * joined paths and merged key by key in order.
   */
  lemma {:induction false} CollectIsMatches(data: Value, pattern: seq<string>, current: seq<string>)
    ensures PathMap(Collect(data, pattern, current)) == AssignAll([], Label(current, Matches(data, pattern)))
    ensures IsNil(data) ==> Collect(data, pattern, current).Undefined? && Matches(data, pattern) == []
    decreases |pattern|, 0, 0
  {
    if IsNil(data) {
    } else if pattern == [] {
      assert current + [] == current;
    } else if !IsWildcard(pattern[0]) {
      CollectIsMatches(Child(data, pattern[0]), pattern[1..], current + [pattern[0]]);
      LabelPrefixed(current, pattern[0], Matches(Child(data, pattern[0]), pattern[1..]));
    } else {
      CollectUnderIsMatchesUnder(data, OwnEntries(data), pattern[1..], current);
    }
  }

  /** The segments of a pattern before its first `*`: the whole pattern when it has none. */
  function Lead(pattern: seq<string>): (r: seq<string>)
    ensures |r| <= |pattern| && r == pattern[..|r|]
    ensures forall i :: 0 <= i < |r| ==> !IsWildcard(r[i])
    ensures |r| < |pattern| ==> IsWildcard(pattern[|r|])
  {
    if pattern == [] || IsWildcard(pattern[0]) then []
    else
      var rest := Lead(pattern[1..]);
      assert [pattern[0]] + rest == pattern[..|rest| + 1];
      [pattern[0]] + rest
  }

  /**
   * `getAllRec` returns undefined exactly when the plain segments before the
   * first `*` lead to nil; from a wildcard level on it always builds an object.
   */
  lemma {:induction false} CollectUndefined(data: Value, pattern: seq<string>, current: seq<string>)
    ensures Collect(data, pattern, current).Undefined? <==> IsNil(Walk(data, Lead(pattern)))
    decreases |pattern|
  {
    if IsNil(data) {
      WalkNil(data, Lead(pattern));
    } else if pattern != [] && !IsWildcard(pattern[0]) {
      CollectUndefined(Child(data, pattern[0]), pattern[1..], current + [pattern[0]]);
      assert ([pattern[0]] + Lead(pattern[1..]))[1..] == Lead(pattern[1..]);
    }
  }

  lemma {:induction false} CollectUnderIsMatchesUnder(data: Value, es: seq<(Key, Value)>, tail: seq<string>, current: seq<string>)
    ensures CollectUnder(data, es, tail, current) == AssignAll([], Label(current, MatchesUnder(data, es, tail)))
    decreases |tail|, 1, |es|
  {
    if es != [] {
      var seg := KeySegment(es[|es| - 1].0);
      var child := Child(data, seg);
      CollectUnderIsMatchesUnder(data, es[..|es| - 1], tail, current);
      CollectIsMatches(child, tail, current + [seg]);
      var l1 := Label(current, MatchesUnder(data, es[..|es| - 1], tail));
      var l2 := Label(current + [seg], Matches(child, tail));
      MergeBuiltObject(AssignAll([], l1), l2);
      AssignAllConcat([], l1, l2);
      LabelConcat(current, MatchesUnder(data, es[..|es| - 1], tail), Prefixed(seg, Matches(child, tail)));
      LabelPrefixed(current, seg, Matches(child, tail));
    }
  }

  /**
   * Matching is complete: every concrete path that fits the pattern and leads
   * to a non-nil value is a match, since a wildcard visits every own key.
   */
  lemma {:induction false} MatchesComplete(data: Value, pattern: seq<string>, segs: seq<string>)
    requires Fits(pattern, segs) && !IsNil(Walk(data, segs))
    ensures (segs, Walk(data, segs)) in Matches(data, pattern)
    decreases |pattern|
  {
    if pattern != [] {
      var seg, rest := segs[0], segs[1..];
      var child := Child(data, seg);
      assert segs == [seg] + rest;
      assert Walk(data, segs) == Walk(child, rest);
      if IsNil(child) {
        WalkNil(child, rest);
      }
      assert Fits(pattern[1..], rest) by {
        forall j | 0 <= j < |rest| && !IsWildcard(pattern[1..][j]) ensures rest[j] == pattern[1..][j] {
          assert rest[j] == segs[j + 1] && pattern[1..][j] == pattern[j + 1];
        }
      }
      MatchesComplete(child, pattern[1..], rest);
      var inner := Matches(child, pattern[1..]);
      var k :| 0 <= k < |inner| && inner[k] == (rest, Walk(child, rest));
      assert Prefixed(seg, inner)[k] == (segs, Walk(data, segs));
      if IsWildcard(pattern[0]) {
        MatchesUnderHas(data, OwnEntries(data), pattern[1..], EntryOf(data, seg), (segs, Walk(data, segs)));
      }
    }
  }

  /** What the `m`-th entry contributes is among the matches below all the entries. */
  lemma {:induction false} MatchesUnderHas(data: Value, es: seq<(Key, Value)>, tail: seq<string>, m: nat, x: (seq<string>, Value))
    requires m < |es|
    requires x in Prefixed(KeySegment(es[m].0), Matches(Child(data, KeySegment(es[m].0)), tail))
    ensures x in MatchesUnder(data, es, tail)
    decreases |es|
  {
    var last := |es| - 1;
    var seg := KeySegment(es[last].0);
    var earlier := MatchesUnder(data, es[..last], tail);
    var later := Prefixed(seg, Matches(Child(data, seg), tail));
    assert MatchesUnder(data, es, tail) == earlier + later;
    if m < last {
      assert es[..last][m] == es[m];
      MatchesUnderHas(data, es[..last], tail, m, x);
      assert x in earlier;
    } else {
      assert x in later;
    }
  }

  /** Resolved paths inherit spellable segments from the pattern and from the keys of the data. */
  lemma {:induction false} MatchesSpellable(data: Value, pattern: seq<string>)
    requires SpellableKeys(data) && SpellablePath(pattern)
    ensures forall i :: 0 <= i < |Matches(data, pattern)| ==> SpellablePath(Matches(data, pattern)[i].0)
    decreases |pattern|, 0, 0
  {
    var ms := Matches(data, pattern);
    if IsNil(data) || pattern == [] {
    } else if !IsWildcard(pattern[0]) {
      ChildSpellable(data, pattern[0]);
      var inner := Matches(Child(data, pattern[0]), pattern[1..]);
      MatchesSpellable(Child(data, pattern[0]), pattern[1..]);
      forall i | 0 <= i < |ms| ensures SpellablePath(ms[i].0) {
        assert ms[i].0 == [pattern[0]] + inner[i].0;
      }
    } else {
      EntrySegmentsSpellable(data);
      MatchesUnderSpellable(data, OwnEntries(data), pattern[1..]);
    }
  }

  lemma {:induction false} MatchesUnderSpellable(data: Value, es: seq<(Key, Value)>, tail: seq<string>)
    requires SpellableKeys(data) && SpellablePath(tail)
    requires forall m :: 0 <= m < |es| ==> Spellable(KeySegment(es[m].0))
    ensures forall i :: 0 <= i < |MatchesUnder(data, es, tail)| ==> SpellablePath(MatchesUnder(data, es, tail)[i].0)
    decreases |tail|, 1, |es|
  {
    if es != [] {
      var init := es[..|es| - 1];
      var seg := KeySegment(es[|es| - 1].0);
      var child := Child(data, seg);
      MatchesUnderSpellable(data, init, tail);
      ChildSpellable(data, seg);
      MatchesSpellable(child, tail);
      PrefixedSpellable(MatchesUnder(data, init, tail), seg, Matches(child, tail));
    }
  }

  /** Spellable paths stay spellable behind a spellable segment and after other spellable paths. */
  lemma PrefixedSpellable(earlier: seq<(seq<string>, Value)>, seg: string, inner: seq<(seq<string>, Value)>)
    requires Spellable(seg)
    requires forall i :: 0 <= i < |earlier| ==> SpellablePath(earlier[i].0)
    requires forall i :: 0 <= i < |inner| ==> SpellablePath(inner[i].0)
    ensures forall i :: 0 <= i < |earlier + Prefixed(seg, inner)| ==> SpellablePath((earlier + Prefixed(seg, inner))[i].0)
  {
    forall i | 0 <= i < |inner| ensures SpellablePath(Prefixed(seg, inner)[i].0) {
      assert Prefixed(seg, inner)[i].0 == [seg] + inner[i].0;
    }
  }

  /** Resolved paths are pairwise distinct: objects hold each key once and indices differ. */
  lemma {:induction false} MatchesDistinct(data: Value, pattern: seq<string>)
    requires WellFormed(data)
    ensures forall i, j :: 0 <= i < j < |Matches(data, pattern)| ==> Matches(data, pattern)[i].0 != Matches(data, pattern)[j].0
    decreases |pattern|, 0, 0
  {
    var ms := Matches(data, pattern);
    if IsNil(data) || pattern == [] {
    } else if !IsWildcard(pattern[0]) {
      ChildWellFormed(data, pattern[0]);
      var inner := Matches(Child(data, pattern[0]), pattern[1..]);
      MatchesDistinct(Child(data, pattern[0]), pattern[1..]);
      forall i, j | 0 <= i < j < |ms| ensures ms[i].0 != ms[j].0 {
        assert ms[i].0[1..] == inner[i].0 && ms[j].0[1..] == inner[j].0;
      }
    } else {
      EntrySegmentsDistinct(data);
      MatchesUnderDistinct(data, OwnEntries(data), pattern[1..]);
    }
  }

  lemma {:induction false} MatchesUnderDistinct(data: Value, es: seq<(Key, Value)>, tail: seq<string>)
    requires WellFormed(data)
    requires forall m, n :: 0 <= m < n < |es| ==> KeySegment(es[m].0) != KeySegment(es[n].0)
    ensures forall i, j :: 0 <= i < j < |MatchesUnder(data, es, tail)| ==>
      MatchesUnder(data, es, tail)[i].0 != MatchesUnder(data, es, tail)[j].0
    decreases |tail|, 1, |es|
  {
    if es != [] {
      var seg := KeySegment(es[|es| - 1].0);
      var earlier := MatchesUnder(data, es[..|es| - 1], tail);
      MatchesUnderDistinct(data, es[..|es| - 1], tail);
      ChildWellFormed(data, seg);
      MatchesDistinct(Child(data, seg), tail);
      EarlierHeadsDiffer(data, es[..|es| - 1], seg, tail);
      DistinctGroups(earlier, seg, Matches(Child(data, seg), tail));
    }
  }

  /** Matches below some entries start with those entries' keys, never with another key. */
  lemma EarlierHeadsDiffer(data: Value, prior: seq<(Key, Value)>, seg: string, tail: seq<string>)
    requires forall m :: 0 <= m < |prior| ==> KeySegment(prior[m].0) != seg
    ensures forall i :: 0 <= i < |MatchesUnder(data, prior, tail)| ==> MatchesUnder(data, prior, tail)[i].0[0] != seg
  {
  }

  /** Two groups of distinct paths whose heads never meet stay distinct side by side. */
  lemma DistinctGroups(earlier: seq<(seq<string>, Value)>, seg: string, inner: seq<(seq<string>, Value)>)
    requires forall i, j :: 0 <= i < j < |earlier| ==> earlier[i].0 != earlier[j].0
    requires forall i :: 0 <= i < |earlier| ==> |earlier[i].0| > 0 && earlier[i].0[0] != seg
    requires forall i, j :: 0 <= i < j < |inner| ==> inner[i].0 != inner[j].0
    ensures forall i, j :: 0 <= i < j < |earlier + Prefixed(seg, inner)| ==>
      (earlier + Prefixed(seg, inner))[i].0 != (earlier + Prefixed(seg, inner))[j].0
  {
    var r := earlier + Prefixed(seg, inner);
    forall i, j | 0 <= i < j < |r| ensures r[i].0 != r[j].0 {
      if j >= |earlier| {
        assert r[j].0 == [seg] + inner[j - |earlier|].0;
        if i >= |earlier| {
          assert r[i].0 == [seg] + inner[i - |earlier|].0;
          assert r[i].0[1..] == inner[i - |earlier|].0 && r[j].0[1..] == inner[j - |earlier|].0;
        } else {
          assert r[i] == earlier[i];
        }
      }
    }
  }

  /** The labelled path of a match with spellable segments reads back, through `get`, the value matched. */
  lemma MatchLabelReadsBack(data: Value, segs: seq<string>, v: Value, notFound: Value)
    requires SpellablePath(segs) && Walk(data, segs) == v && !IsNil(v)
    ensures Normalize(Text(Join(segs))) == segs
    ensures Get(data, Text(Join(segs)), notFound) == v
  {
    if segs != [] {
      NormalizeJoin(segs);
    }
  }

  /**
   * Every entry of the path map `getAll` returns holds a non-nil value, and
   * `get` with that entry's path finds that same value.
   */
  lemma GatheredEntriesAreGets(data: Value, path: PathArg, notFound: Value)
    requires SpellableKeys(data) && SpellablePath(Normalize(path))
    ensures forall e :: e in PathMap(Gathered(data, path, true)) ==> !IsNil(e.1) && Get(data, Text(e.0), notFound) == e.1
  {
    var pattern := Normalize(path);
    var ms := Matches(data, pattern);
    CollectIsMatches(data, pattern, []);
    MatchesSpellable(data, pattern);
    LabelledAreGets(data, ms, notFound);
  }

  /** Each entry of the map that found values with spellable paths merge to is found again by `get` with its label. */
  lemma LabelledAreGets(data: Value, ms: seq<(seq<string>, Value)>, notFound: Value)
    requires forall i :: 0 <= i < |ms| ==> SpellablePath(ms[i].0) && Walk(data, ms[i].0) == ms[i].1 && !IsNil(ms[i].1)
    ensures forall e :: e in AssignAll([], Label([], ms)) ==> !IsNil(e.1) && Get(data, Text(e.0), notFound) == e.1
  {
    var labels := Label([], ms);
    AssignAllMembers([], labels);
    forall e | e in AssignAll([], labels) ensures !IsNil(e.1) && Get(data, Text(e.0), notFound) == e.1 {
      assert e in labels;
      var i :| 0 <= i < |labels| && labels[i] == e;
      assert [] + ms[i].0 == ms[i].0;
      MatchLabelReadsBack(data, ms[i].0, ms[i].1, notFound);
    }
  }

  /**
   * Distinct non-empty paths of spellable segments get distinct dotted labels,
   * so merging them into an empty object keeps every one of them, in order.
   */
  lemma LabelsUnique(ms: seq<(seq<string>, Value)>)
    requires forall i :: 0 <= i < |ms| ==> |ms[i].0| >= 1 && SpellablePath(ms[i].0)
    requires forall i, j :: 0 <= i < j < |ms| ==> ms[i].0 != ms[j].0
    ensures UniqueKeys(Label([], ms))
    ensures AssignAll([], Label([], ms)) == Label([], ms)
  {
    var labels := Label([], ms);
    forall i, j | 0 <= i < j < |labels| ensures labels[i].0 != labels[j].0 {
      assert [] + ms[i].0 == ms[i].0 && [] + ms[j].0 == ms[j].0;
      if labels[i].0 == labels[j].0 {
        JoinInjective(ms[i].0, ms[j].0);
      }
    }
    assert [] + labels == labels;
    AssignAllFresh([], labels);
  }

  /** Labels of matches with spellable segments are pairwise distinct. */
  lemma LabelsDistinct(data: Value, pattern: seq<string>)
    requires WellFormed(data) && SpellableKeys(data) && SpellablePath(pattern)
    ensures UniqueKeys(Label([], Matches(data, pattern)))
  {
    var ms := Matches(data, pattern);
    if pattern == [] {
      assert |Label([], ms)| <= 1;
    } else {
      MatchesDistinct(data, pattern);
      MatchesSpellable(data, pattern);
      LabelsUnique(ms);
    }
  }

  /**
   * For well-formed data with spellable keys and a spellable pattern, the path
   * map holds exactly one entry per match, in depth-first iteration order, and
   * the plain result lists the matched values in that order.
   */
  lemma GatheredExact(data: Value, path: PathArg)
    requires WellFormed(data) && SpellableKeys(data) && SpellablePath(Normalize(path))
    ensures PathMap(Gathered(data, path, true)) == Label([], Matches(data, Normalize(path)))
    ensures Gathered(data, path, false) ==
      Arr(seq(|Matches(data, Normalize(path))|, i requires 0 <= i < |Matches(data, Normalize(path))| => Matches(data, Normalize(path))[i].1))
  {
    GatheredPaths(data, Normalize(path));
    LabelValues([], Matches(data, Normalize(path)));
  }

  /**
   * `getAll` with paths misses nothing: every concrete path that fits the
   * pattern and leads to a non-nil value appears under its dotted label.
   */
  lemma GatheredComplete(data: Value, path: PathArg, segs: seq<string>)
    requires WellFormed(data) && SpellableKeys(data) && SpellablePath(Normalize(path))
    requires Fits(Normalize(path), segs) && !IsNil(Walk(data, segs))
    ensures (Join(segs), Walk(data, segs)) in PathMap(Gathered(data, path, true))
  {
    var ms := Matches(data, Normalize(path));
    assert Gathered(data, path, true) == Collect(data, Normalize(path), []);
    GatheredPaths(data, Normalize(path));
    MatchesComplete(data, Normalize(path), segs);
    var k :| 0 <= k < |ms| && ms[k] == (segs, Walk(data, segs));
    LabelIn(ms, k);
  }

  /** A listed path appears in the labels under its dotted join. */
  lemma LabelIn(ms: seq<(seq<string>, Value)>, k: nat)
    requires k < |ms|
    ensures (Join(ms[k].0), ms[k].1) in Label([], ms)
  {
    assert [] + ms[k].0 == ms[k].0;
    assert Label([], ms)[k] == (Join(ms[k].0), ms[k].1);
  }

  /** The path map built for a spellable pattern is exactly the labelled matches. */
  lemma GatheredPaths(data: Value, pattern: seq<string>)
    requires WellFormed(data) && SpellableKeys(data) && SpellablePath(pattern)
    ensures PathMap(Collect(data, pattern, [])) == Label([], Matches(data, pattern))
  {
    CollectIsMatches(data, pattern, []);
    LabelsDistinct(data, pattern);
    var labels := Label([], Matches(data, pattern));
    assert [] + labels == labels;
    AssignAllFresh([], labels);
  }

  /** Labelling keeps the matched values, in order. */
  lemma LabelValues(current: seq<string>, ms: seq<(seq<string>, Value)>)
    ensures ValuesOf(Label(current, ms)) == seq(|ms|, i requires 0 <= i < |ms| => ms[i].1)
  {
  }

  /** Nil data matches nothing: the path map is undefined and the value list empty. */
  lemma GatheredNil(data: Value, path: PathArg)
    requires IsNil(data)
    ensures Gathered(data, path, true) == Undefined
    ensures Gathered(data, path, false) == Arr([])
  {
  }

  /** One write per textual path, all with the same new value. */
  function PathWrites(paths: seq<string>, nv: NewValue): (r: seq<(PathArg, NewValue)>)
    ensures |r| == |paths|
  {
    seq(|paths|, i requires 0 <= i < |paths| => (Text(paths[i]), nv))
  }

  /** What `setAll` returns: `set` applied, in order, at every path of the path map. */
  function AllUpdated(data: Value, path: PathArg, nv: NewValue): Value {
    SetEach(data, PathWrites(KeysOf(PathMap(Gathered(data, path, true))), nv))
  }

  /** `setAll`. */
  method SetAll(data: Value, path: PathArg, nv: NewValue) returns (r: Value)
    ensures r == AllUpdated(data, path, nv)
  {
    var found := GetAll(data, path, true);
    var paths := KeysOf(PathMap(found));
    ghost var writes := PathWrites(paths, nv);
    r := data;
    var i := 0;
    while i < |paths|
      invariant 0 <= i <= |paths|
      invariant r == SetEach(data, writes[..i])
    {
      SetEachSnoc(data, writes, i);
      r := Set(r, Text(paths[i]), nv);
      i := i + 1;
    }
    assert writes[..|paths|] == writes;
  }

  /**
   * `setAll` writes every place the pattern resolves to: each holds the new
   * value computed from what the pattern matched there.
   */
  lemma SetAllWritesEveryMatch(data: Value, path: PathArg, nv: NewValue)
    requires WellFormed(data) && SpellableKeys(data) && SpellablePath(Normalize(path))
    ensures forall i :: 0 <= i < |Matches(data, Normalize(path))| ==>
      Walk(AllUpdated(data, path, nv), Matches(data, Normalize(path))[i].0) == NewLeaf(nv, Matches(data, Normalize(path))[i].1)
  {
    var ms := Matches(data, Normalize(path));
    var writes := PathWrites(KeysOf(PathMap(Gathered(data, path, true))), nv);
    MatchWrites(data, path, nv);
    var ps := seq(|ms|, i requires 0 <= i < |ms| => ms[i].0);
    SetEachAmong(data, writes, ps);
  }

  /**
   * The writes `setAll` makes, one per match and in match order, go to the
   * matches' paths, which part ways pairwise and can be written.
   */
  lemma MatchWrites(data: Value, path: PathArg, nv: NewValue)
    requires WellFormed(data) && SpellableKeys(data) && SpellablePath(Normalize(path))
    ensures |PathWrites(KeysOf(PathMap(Gathered(data, path, true))), nv)| == |Matches(data, Normalize(path))|
    ensures forall i :: 0 <= i < |Matches(data, Normalize(path))| ==>
      var m := Matches(data, Normalize(path))[i];
      Normalize(PathWrites(KeysOf(PathMap(Gathered(data, path, true))), nv)[i].0) == m.0 &&
      Writable(data, m.0) && Walk(data, m.0) == m.1
    ensures forall i, j :: 0 <= i < j < |Matches(data, Normalize(path))| ==>
      Diverge(Matches(data, Normalize(path))[i].0, Matches(data, Normalize(path))[j].0)
  {
    var pattern := Normalize(path);
    var ms := Matches(data, pattern);
    GatheredExact(data, path);
    MatchesSpellable(data, pattern);
    MatchesDistinct(data, pattern);
    var writes := PathWrites(KeysOf(Label([], ms)), nv);
    forall i | 0 <= i < |ms| ensures Normalize(writes[i].0) == ms[i].0 && Writable(data, ms[i].0) && Walk(data, ms[i].0) == ms[i].1 {
      assert [] + ms[i].0 == ms[i].0;
      MatchLabelReadsBack(data, ms[i].0, ms[i].1, Undefined);
      PresentIsWritable(data, ms[i].0);
    }
    forall i, j | 0 <= i < j < |ms| ensures Diverge(ms[i].0, ms[j].0) {
      DistinctSameLengthDiverge(ms[i].0, ms[j].0);
    }
  }

  /** Nothing else changes: a path that parts ways with every match keeps its value. */
  lemma SetAllKeepsOthers(data: Value, path: PathArg, nv: NewValue, other: seq<string>)
    requires WellFormed(data) && SpellableKeys(data) && SpellablePath(Normalize(path))
    requires forall i :: 0 <= i < |Matches(data, Normalize(path))| ==> Diverge(other, Matches(data, Normalize(path))[i].0)
    ensures Walk(AllUpdated(data, path, nv), other) == Walk(data, other)
  {
    var pattern := Normalize(path);
    var ms := Matches(data, pattern);
    GatheredExact(data, path);
    MatchesSpellable(data, pattern);
    var writes := PathWrites(KeysOf(Label([], ms)), nv);
    forall i | 0 <= i < |ms| ensures Diverge(other, Normalize(writes[i].0)) {
      assert [] + ms[i].0 == ms[i].0;
      MatchLabelReadsBack(data, ms[i].0, ms[i].1, Undefined);
    }
    SetEachKeeps(data, writes, other);
  }

  /** When the pattern matches nothing, `setAll` returns the data unchanged. */
  lemma SetAllNoMatch(data: Value, path: PathArg, nv: NewValue)
    requires Matches(data, Normalize(path)) == []
    ensures AllUpdated(data, path, nv) == data
  {
    CollectIsMatches(data, Normalize(path), []);
  }

  /**
   * The second argument of `setWith`: an object from paths to new values, or a list of pairs.
   * A JavaScript object never repeats a key, so `PathObject` fields are unique in practice;
   * the `SetWith` lemmas below hold for any field list and do not need that.
   */
  datatype PathValues = PathObject(fields: seq<(string, NewValue)>) | PathList(pairs: seq<(string, NewValue)>)

  /** The path-to-value object `setWith` works from; a list is folded into one with `paths[path] = value`. */
  function WriteTable(pv: PathValues): seq<(string, NewValue)> {
    match pv
    case PathObject(fields) => fields
    case PathList(pairs) => AssignAll([], pairs)
  }

  /** A table of textual paths turned into writes, in the table's order. */
  function TableWrites(table: seq<(string, NewValue)>): (r: seq<(PathArg, NewValue)>)
    ensures |r| == |table|
  {
    seq(|table|, i requires 0 <= i < |table| => (Text(table[i].0), table[i].1))
  }

  /** What `setWith` returns: `set` applied for each path of the table in order. */
  function WithUpdated(data: Value, pv: PathValues): Value {
    SetEach(data, TableWrites(WriteTable(pv)))
  }

  /** The first loop of `setWith`: a list of pairs folded into an object with `paths[path] = value`. */
  method PairTable(pairs: seq<(string, NewValue)>) returns (table: seq<(string, NewValue)>)
    ensures table == WriteTable(PathList(pairs))
  {
    table := [];
    var i := 0;
    while i < |pairs|
      invariant 0 <= i <= |pairs|
      invariant table == AssignAll([], pairs[..i])
    {
      assert pairs[..i + 1][..i] == pairs[..i];
      table := AssignKey(table, pairs[i].0, pairs[i].1);
      i := i + 1;
    }
    assert pairs[..|pairs|] == pairs;
  }

  /** The second loop of `setWith`: `set` for each path of the table, starting from the data. */
  method ApplyTable(data: Value, table: seq<(string, NewValue)>) returns (r: Value)
    ensures r == SetEach(data, TableWrites(table))
  {
    ghost var writes := TableWrites(table);
    r := data;
    var j := 0;
    while j < |table|
      invariant 0 <= j <= |table|
      invariant r == SetEach(data, writes[..j])
    {
      SetEachSnoc(data, writes, j);
      assert writes[j] == (Text(table[j].0), table[j].1);
      r := Set(r, Text(table[j].0), table[j].1);
      j := j + 1;
    }
    assert writes[..|table|] == writes;
  }

  /** `setWith`. */
  method SetWith(data: Value, pv: PathValues) returns (r: Value)
    ensures r == WithUpdated(data, pv)
  {
    var table: seq<(string, NewValue)>;
    match pv {
      case PathObject(fields) =>
        table := fields;
      case PathList(pairs) =>
        table := PairTable(pairs);
    }
    r := ApplyTable(data, table);
  }

  /** With a list of pairs, a path given twice takes the value of its last pair. */
  lemma SetWithLastWins(pairs: seq<(string, NewValue)>, k: string)
    ensures Lookup(WriteTable(PathList(pairs)), k) == LastLookup(pairs, k)
  {
    AssignAllLookup([], pairs, k);
  }

  /** `setWith` with independent paths leaves each path holding its own new value. */
  lemma SetWithWritesEveryPath(data: Value, pv: PathValues)
    requires IndependentWrites(data, TableWrites(WriteTable(pv)))
    ensures forall i :: 0 <= i < |WriteTable(pv)| ==>
      Walk(WithUpdated(data, pv), Normalize(Text(WriteTable(pv)[i].0))) ==
      NewLeaf(WriteTable(pv)[i].1, Walk(data, Normalize(Text(WriteTable(pv)[i].0))))
  {
    var writes := TableWrites(WriteTable(pv));
    SetEachWrites(data, writes);
    assert forall i :: 0 <= i < |writes| ==> writes[i] == (Text(WriteTable(pv)[i].0), WriteTable(pv)[i].1);
  }

  /** Nothing else changes: `setWith` leaves a path that parts ways with every written path as it was. */
  lemma SetWithKeepsOthers(data: Value, pv: PathValues, other: seq<string>)
    requires forall i :: 0 <= i < |WriteTable(pv)| ==> Diverge(other, Normalize(Text(WriteTable(pv)[i].0)))
    ensures Walk(WithUpdated(data, pv), other) == Walk(data, other)
  {
    SetEachKeeps(data, TableWrites(WriteTable(pv)), other);
  }
}
