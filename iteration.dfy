/**
 * Uniform iteration over arrays and objects: reduce, and map, filter, keys
 * and values built on it (src/datamix.js:136-194, 478-488).
 */
module Iteration {
  import opened Wrappers
  import opened Decimal
  import opened Fields
  import opened Data

  /** Left fold of a callback over entries, in iteration order. */
  function Fold<A>(es: seq<(Key, Value)>, f: (A, Value, Key) -> A, init: A): A {
    if es == [] then init
    else f(Fold(es[..|es| - 1], f, init), es[|es| - 1].1, es[|es| - 1].0)
  }

  /**
   * `reduce`: arrays go through the native reduce and objects through a for-in
   * over own keys; both visit the own entries in order, and anything else has none.
   */
  method Reduce<A>(data: Value, f: (A, Value, Key) -> A, init: A) returns (result: A)
    ensures result == Fold(OwnEntries(data), f, init)
  {
    var es := OwnEntries(data);
    result := init;
    var i := 0;
    while i < |es|
      invariant 0 <= i <= |es|
      invariant result == Fold(es[..i], f, init)
    {
      assert es[..i + 1][..i] == es[..i];
      result := f(result, es[i].1, es[i].0);
      i := i + 1;
    }
    assert es[..|es|] == es;
  }

  /** `keys`: the reduce that concatenates each key. */
  function Keys(data: Value): (r: seq<Key>)
    ensures |r| == |OwnEntries(data)|
    ensures forall i :: 0 <= i < |r| ==> r[i] == OwnEntries(data)[i].0
    ensures IsObject(data) ==> |r| == Size(data).value
  {
    var es := OwnEntries(data);
    KeysFold(es, |es|);
    assert es[..|es|] == es;
    Fold(es, (ks: seq<Key>, _: Value, k: Key) => ks + [k], [])
  }

  lemma {:induction false} KeysFold(es: seq<(Key, Value)>, n: nat)
    requires n <= |es|
    ensures Fold(es[..n], (ks: seq<Key>, _: Value, k: Key) => ks + [k], []) == seq(n, i requires 0 <= i < n => es[i].0)
  {
    if n > 0 {
      KeysFold(es, n - 1);
      assert es[..n][..n - 1] == es[..n - 1];
    }
  }

  /** `values`: the reduce that concatenates each value. */
  function Values(data: Value): (r: seq<Value>)
    ensures |r| == |OwnEntries(data)|
    ensures forall i :: 0 <= i < |r| ==> r[i] == OwnEntries(data)[i].1
  {
    var es := OwnEntries(data);
    ValuesFold(es, |es|);
    assert es[..|es|] == es;
    Fold(es, (vs: seq<Value>, v: Value, _: Key) => vs + [v], [])
  }

  lemma {:induction false} ValuesFold(es: seq<(Key, Value)>, n: nat)
    requires n <= |es|
    ensures Fold(es[..n], (vs: seq<Value>, v: Value, _: Key) => vs + [v], []) == seq(n, i requires 0 <= i < n => es[i].1)
  {
    if n > 0 {
      ValuesFold(es, n - 1);
      assert es[..n][..n - 1] == es[..n - 1];
    }
  }

  /** Keys and values pair up into the entries, and an array's values are its items. */
  lemma KeysValuesZip(data: Value)
    ensures |Keys(data)| == |Values(data)|
    ensures forall i :: 0 <= i < |Keys(data)| ==> (Keys(data)[i], Values(data)[i]) == OwnEntries(data)[i]
    ensures data.Arr? ==> Values(data) == data.items
    ensures data.Obj? ==> Values(data) == ValuesOf(data.fields)
  {
  }

  /** The reduce step of `map` on objects: `object[key] = callback(data[key], key)`. */
  function MapStep(data: Value, f: (Value, Key) -> Value): (seq<(string, Value)>, Value, Key) -> seq<(string, Value)> {
    (acc: seq<(string, Value)>, _: Value, k: Key) => AssignKey(acc, KeySegment(k), f(Child(data, KeySegment(k)), k))
  }

  /** What `map` returns: the native array map, the object reduce into `{}`, or the value itself. */
  function Mapped(data: Value, f: (Value, Key) -> Value): Value {
    match data
    case Arr(items) => Arr(seq(|items|, i requires 0 <= i < |items| => f(items[i], Index(i))))
    case Obj(_) => Obj(Fold(OwnEntries(data), MapStep(data, f), []))
    case _ => data
  }

  /** `map`. */
  method Map(data: Value, f: (Value, Key) -> Value) returns (r: Value)
    ensures r == Mapped(data, f)
  {
    if data.Arr? {
      r := Arr(seq(|data.items|, i requires 0 <= i < |data.items| => f(data.items[i], Index(i))));
    } else if data.Obj? {
      var fields := Reduce(data, MapStep(data, f), []);
      r := Obj(fields);
    } else {
      r := data;
    }
  }

  lemma {:induction false} MapFold(data: Value, f: (Value, Key) -> Value, n: nat)
    requires data.Obj? && UniqueKeys(data.fields) && n <= |data.fields|
    ensures Fold(OwnEntries(data)[..n], MapStep(data, f), []) ==
      seq(n, i requires 0 <= i < n => (data.fields[i].0, f(data.fields[i].1, Name(data.fields[i].0))))
  {
    var es := OwnEntries(data);
    var fs := data.fields;
    if n > 0 {
      MapFold(data, f, n - 1);
      assert es[..n][..n - 1] == es[..n - 1];
      var acc := Fold(es[..n - 1], MapStep(data, f), []);
      ChildOfEntry(data, n - 1);
      forall j | 0 <= j < |acc| ensures acc[j].0 != fs[n - 1].0 {
        assert acc[j].0 == fs[j].0;
      }
      HasKeyAt(acc, fs[n - 1].0);
      assert Fold(es[..n], MapStep(data, f), []) == acc + [(fs[n - 1].0, f(fs[n - 1].1, Name(fs[n - 1].0)))];
    }
  }

  /**
   * `map` keeps every key, in order, and replaces each value by the callback's
   * result on that value and key; a value that is neither array nor object is returned as is.
   */
  lemma MapEntries(data: Value, f: (Value, Key) -> Value)
    requires data.Obj? ==> UniqueKeys(data.fields)
    ensures IsObject(data) ==> IsObject(Mapped(data, f)) && data.Arr? == Mapped(data, f).Arr?
    ensures |OwnEntries(Mapped(data, f))| == |OwnEntries(data)|
    ensures forall i :: 0 <= i < |OwnEntries(data)| ==>
      OwnEntries(Mapped(data, f))[i] == (OwnEntries(data)[i].0, f(OwnEntries(data)[i].1, OwnEntries(data)[i].0))
    ensures !IsObject(data) ==> Mapped(data, f) == data
  {
    if data.Obj? {
      MapFold(data, f, |data.fields|);
      assert OwnEntries(data)[..|data.fields|] == OwnEntries(data);
    }
  }

  /** The entries a predicate keeps, in their original order. */
  function KeepEntries(es: seq<(Key, Value)>, keep: (Value, Key) -> bool): (r: seq<(Key, Value)>)
    ensures |r| <= |es|
  {
    if es == [] then []
    else
      var rest := KeepEntries(es[..|es| - 1], keep);
      var e := es[|es| - 1];
      if keep(e.1, e.0) then rest + [e] else rest
  }

  /** Filtering keeps exactly the entries the predicate accepts. */
  lemma {:induction false} KeepEntriesMembers(es: seq<(Key, Value)>, keep: (Value, Key) -> bool)
    ensures forall e :: e in KeepEntries(es, keep) <==> e in es && keep(e.1, e.0)
  {
    if es != [] {
      KeepEntriesMembers(es[..|es| - 1], keep);
      assert es == es[..|es| - 1] + [es[|es| - 1]];
    }
  }

  /** Filtering distributes over concatenation, so it never reorders what it keeps. */
  lemma {:induction false} KeepEntriesConcat(a: seq<(Key, Value)>, b: seq<(Key, Value)>, keep: (Value, Key) -> bool)
    ensures KeepEntries(a + b, keep) == KeepEntries(a, keep) + KeepEntries(b, keep)
  {
    if b != [] {
      KeepEntriesConcat(a, b[..|b| - 1], keep);
      assert (a + b)[..|a + b| - 1] == a + b[..|b| - 1];
    } else {
      assert a + b == a;
    }
  }

  /** The reduce step of `filter` on objects: copy `data[key]` when the callback accepts it. */
  function FilterStep(data: Value, keep: (Value, Key) -> bool): (seq<(string, Value)>, Value, Key) -> seq<(string, Value)> {
    (acc: seq<(string, Value)>, _: Value, k: Key) =>
      if keep(Child(data, KeySegment(k)), k) then AssignKey(acc, KeySegment(k), Child(data, KeySegment(k))) else acc
  }

  /** What `filter` returns: the native array filter, the object reduce into `{}`, or the value itself. */
  function Filtered(data: Value, keep: (Value, Key) -> bool): Value {
    match data
    case Arr(_) => Arr(seq(|KeepEntries(OwnEntries(data), keep)|,
                           i requires 0 <= i < |KeepEntries(OwnEntries(data), keep)| => KeepEntries(OwnEntries(data), keep)[i].1))
    case Obj(_) => Obj(Fold(OwnEntries(data), FilterStep(data, keep), []))
    case _ => data
  }

  /** `filter`. */
  method Filter(data: Value, keep: (Value, Key) -> bool) returns (r: Value)
    ensures r == Filtered(data, keep)
  {
    if data.Arr? {
      var es := OwnEntries(data);
      var kept: seq<Value> := [];
      var i := 0;
      while i < |es|
        invariant 0 <= i <= |es|
        invariant kept == seq(|KeepEntries(es[..i], keep)|, j requires 0 <= j < |KeepEntries(es[..i], keep)| => KeepEntries(es[..i], keep)[j].1)
      {
        assert es[..i + 1][..i] == es[..i];
        if keep(es[i].1, es[i].0) {
          kept := kept + [es[i].1];
        }
        i := i + 1;
      }
      assert es[..|es|] == es;
      r := Arr(kept);
    } else if data.Obj? {
      var fields := Reduce(data, FilterStep(data, keep), []);
      r := Obj(fields);
    } else {
      r := data;
    }
  }

  /** Entries written back as object fields. */
  function AsFields(es: seq<(Key, Value)>): seq<(string, Value)> {
    seq(|es|, i requires 0 <= i < |es| => (KeySegment(es[i].0), es[i].1))
  }

  lemma {:induction false} FilterFold(data: Value, keep: (Value, Key) -> bool, n: nat)
    requires data.Obj? && UniqueKeys(data.fields) && n <= |data.fields|
    ensures Fold(OwnEntries(data)[..n], FilterStep(data, keep), []) == AsFields(KeepEntries(OwnEntries(data)[..n], keep))
  {
    var es := OwnEntries(data);
    if n > 0 {
      FilterFold(data, keep, n - 1);
      assert es[..n][..n - 1] == es[..n - 1];
      var prior := KeepEntries(es[..n - 1], keep);
      var acc := Fold(es[..n - 1], FilterStep(data, keep), []);
      var e := es[n - 1];
      assert Fold(es[..n], FilterStep(data, keep), []) == FilterStep(data, keep)(acc, e.1, e.0);
      ChildOfEntry(data, n - 1);
      if keep(e.1, e.0) {
        KeptNamesBefore(data, keep, n);
        assert AsFields(prior + [e]) == AsFields(prior) + [(KeySegment(e.0), e.1)];
      }
    }
  }

  lemma {:induction false} KeptNamesBefore(data: Value, keep: (Value, Key) -> bool, n: nat)
    requires data.Obj? && UniqueKeys(data.fields) && 0 < n <= |data.fields|
    ensures !HasKey(AsFields(KeepEntries(OwnEntries(data)[..n - 1], keep)), data.fields[n - 1].0)
  {
    var es := OwnEntries(data)[..n - 1];
    var prior := KeepEntries(es, keep);
    var acc := AsFields(prior);
    KeepEntriesMembers(es, keep);
    forall j | 0 <= j < |acc| ensures acc[j].0 != data.fields[n - 1].0 {
      assert prior[j] in prior;
      var m :| 0 <= m < n - 1 && es[m] == prior[j];
      assert prior[j].0 == Name(data.fields[m].0);
    }
    HasKeyAt(acc, data.fields[n - 1].0);
  }

  /**
   * `filter` keeps exactly the entries the callback accepts, in their original
   * order; arrays are re-indexed, objects keep their keys, other values are returned as is.
   */
  lemma FilterEntries(data: Value, keep: (Value, Key) -> bool)
    requires data.Obj? ==> UniqueKeys(data.fields)
    ensures data.Arr? ==> Filtered(data, keep).Arr? && Values(Filtered(data, keep)) == Values(Arr(seq(
      |KeepEntries(OwnEntries(data), keep)|, i requires 0 <= i < |KeepEntries(OwnEntries(data), keep)| => KeepEntries(OwnEntries(data), keep)[i].1)))
    ensures data.Obj? ==> Filtered(data, keep).Obj? && OwnEntries(Filtered(data, keep)) == KeepEntries(OwnEntries(data), keep)
    ensures !IsObject(data) ==> Filtered(data, keep) == data
  {
    if data.Obj? {
      var es := OwnEntries(data);
      FilterFold(data, keep, |es|);
      assert es[..|es|] == es;
      var kept := KeepEntries(es, keep);
      KeepEntriesMembers(es, keep);
      forall i | 0 <= i < |kept| ensures OwnEntries(Filtered(data, keep))[i] == kept[i] {
        assert kept[i] in kept;
        assert kept[i].0.Name?;
      }
    }
  }
}
