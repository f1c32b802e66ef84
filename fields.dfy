/**
 * Plain JavaScript objects as insertion-ordered lists of (key, value) fields.
 * `obj[key] = v` overwrites an existing key where it stands and appends a new
 * one at the end; `Object.assign(target, source)` does that for each field of
 * the source in turn. The value type is a parameter so that the same rules
 * serve data objects, path maps and the buckets of a grouping.
 */
module Fields {
  import opened Wrappers

  /** `obj[k]` for an own key: the value stored under `k`, if any. */
  function Lookup<T>(fs: seq<(string, T)>, k: string): Option<T>
  {
    if fs == [] then None
    else if fs[0].0 == k then Some(fs[0].1)
    else Lookup(fs[1..], k)
  }

  predicate HasKey<T>(fs: seq<(string, T)>, k: string) {
    Lookup(fs, k).Some?
  }

  /** The value found under a key is one of the object's fields. */
  lemma {:induction false} LookupFound<T>(fs: seq<(string, T)>, k: string)
    requires HasKey(fs, k)
    ensures (k, Lookup(fs, k).value) in fs
  {
    if fs[0].0 != k {
      LookupFound(fs[1..], k);
    }
  }

  /** `Object.keys(obj)` */
  function KeysOf<T>(fs: seq<(string, T)>): seq<string> {
    seq(|fs|, i requires 0 <= i < |fs| => fs[i].0)
  }

  /** `Object.values(obj)` */
  function ValuesOf<T>(fs: seq<(string, T)>): seq<T> {
    seq(|fs|, i requires 0 <= i < |fs| => fs[i].1)
  }

  /** A JavaScript object never holds the same own key twice. */
  predicate UniqueKeys<T>(fs: seq<(string, T)>) {
    forall i, j :: 0 <= i < j < |fs| ==> fs[i].0 != fs[j].0
  }

  lemma {:induction false} HasKeyAt<T>(fs: seq<(string, T)>, k: string)
    ensures HasKey(fs, k) <==> exists i :: 0 <= i < |fs| && fs[i].0 == k
    ensures HasKey(fs, k) <==> k in KeysOf(fs)
  {
    if fs != [] {
      HasKeyAt(fs[1..], k);
      if fs[0].0 != k && HasKey(fs, k) {
        var i :| 1 <= i + 1 < |fs| && fs[1..][i].0 == k;
        assert fs[i + 1].0 == k;
      }
      if fs[0].0 != k && !HasKey(fs, k) {
        forall i | 0 <= i < |fs| ensures fs[i].0 != k {
          if i > 0 { assert fs[i] == fs[1..][i - 1]; }
        }
      }
      assert KeysOf(fs) == [fs[0].0] + KeysOf(fs[1..]);
    }
  }

  /** `obj[k] = v`: the key is overwritten where it stands, or appended when new; every other key keeps its value. */
  function AssignKey<T>(fs: seq<(string, T)>, k: string, v: T): (r: seq<(string, T)>)
    ensures Lookup(r, k) == Some(v)
    ensures forall k' :: k' != k ==> Lookup(r, k') == Lookup(fs, k')
    ensures !HasKey(fs, k) ==> r == fs + [(k, v)]
  {
    if fs == [] then [(k, v)]
    else if fs[0].0 == k then [(k, v)] + fs[1..]
    else
      [fs[0]] + AssignKey(fs[1..], k, v)
  }

  /** The keys of a field put in front of others. */
  lemma KeysOfCons<T>(f: (string, T), fs: seq<(string, T)>)
    ensures KeysOf([f] + fs) == [f.0] + KeysOf(fs)
  {
    assert forall i :: 0 <= i < |fs| ==> ([f] + fs)[i + 1] == fs[i];
  }

  /** Overwriting a key already present changes no key and no key's place. */
  lemma {:induction false} AssignKeyKeys<T>(fs: seq<(string, T)>, k: string, v: T)
    requires HasKey(fs, k)
    ensures KeysOf(AssignKey(fs, k, v)) == KeysOf(fs)
    decreases |fs|
  {
    assert fs == [fs[0]] + fs[1..];
    KeysOfCons(fs[0], fs[1..]);
    if fs[0].0 == k {
      KeysOfCons((k, v), fs[1..]);
    } else {
      AssignKeyKeys(fs[1..], k, v);
      KeysOfCons(fs[0], AssignKey(fs[1..], k, v));
    }
  }

  lemma {:induction false} AssignKeyKeepsUnique<T>(fs: seq<(string, T)>, k: string, v: T)
    requires UniqueKeys(fs)
    ensures UniqueKeys(AssignKey(fs, k, v))
  {
    var r := AssignKey(fs, k, v);
    if HasKey(fs, k) {
      AssignKeyKeys(fs, k, v);
      assert |KeysOf(r)| == |KeysOf(fs)|;
      forall i, j | 0 <= i < j < |r| ensures r[i].0 != r[j].0 {
        assert KeysOf(r)[i] == KeysOf(fs)[i] && KeysOf(r)[j] == KeysOf(fs)[j];
      }
    } else {
      HasKeyAt(fs, k);
    }
  }

  /** `Object.assign(target, source)`: assign the fields of the source one after the other. */
  function AssignAll<T>(acc: seq<(string, T)>, src: seq<(string, T)>): seq<(string, T)> {
    if src == [] then acc
    else AssignKey(AssignAll(acc, src[..|src| - 1]), src[|src| - 1].0, src[|src| - 1].1)
  }

  /** Assigning one key adds no entry but the one assigned. */
  lemma {:induction false} AssignKeyMembers<T>(fs: seq<(string, T)>, k: string, v: T)
    ensures forall p :: p in AssignKey(fs, k, v) ==> p in fs || p == (k, v)
    decreases |fs|
  {
    if fs != [] && fs[0].0 != k {
      AssignKeyMembers(fs[1..], k, v);
      assert AssignKey(fs, k, v) == [fs[0]] + AssignKey(fs[1..], k, v);
    }
  }

  /** `Object.assign` adds no entry that neither the target nor the source holds. */
  lemma {:induction false} AssignAllMembers<T>(acc: seq<(string, T)>, src: seq<(string, T)>)
    ensures forall p :: p in AssignAll(acc, src) ==> p in acc || p in src
    decreases |src|
  {
    if src != [] {
      var init := src[..|src| - 1];
      AssignAllMembers(acc, init);
      AssignKeyMembers(AssignAll(acc, init), src[|src| - 1].0, src[|src| - 1].1);
      assert forall p :: p in init ==> p in src;
    }
  }

  /** Assigning the fields of `a + b` is assigning those of `a`, then those of `b`. */
  lemma {:induction false} AssignAllConcat<T>(acc: seq<(string, T)>, a: seq<(string, T)>, b: seq<(string, T)>)
    ensures AssignAll(acc, a + b) == AssignAll(AssignAll(acc, a), b)
    decreases |b|
  {
    if b == [] {
      assert a + b == a;
    } else {
      var b' := b[..|b| - 1];
      assert (a + b)[..|a + b| - 1] == a + b';
      AssignAllConcat(acc, a, b');
    }
  }

  lemma {:induction false} AssignAllKeepsUnique<T>(acc: seq<(string, T)>, src: seq<(string, T)>)
    requires UniqueKeys(acc)
    ensures UniqueKeys(AssignAll(acc, src))
    decreases |src|
  {
    if src != [] {
      AssignAllKeepsUnique(acc, src[..|src| - 1]);
      AssignKeyKeepsUnique(AssignAll(acc, src[..|src| - 1]), src[|src| - 1].0, src[|src| - 1].1);
    }
  }

  lemma {:induction false} AssignAllKeepsKeys<T>(acc: seq<(string, T)>, src: seq<(string, T)>, k: string)
    requires HasKey(acc, k)
    ensures HasKey(AssignAll(acc, src), k)
    decreases |src|
  {
    if src != [] {
      AssignAllKeepsKeys(acc, src[..|src| - 1], k);
    }
  }

  /** The value the last field named `k` carries, if any field is named `k`. */
  function LastLookup<T>(src: seq<(string, T)>, k: string): Option<T>
  {
    if src == [] then None
    else if src[|src| - 1].0 == k then Some(src[|src| - 1].1)
    else LastLookup(src[..|src| - 1], k)
  }

  /** After `Object.assign`, a key carries the value of its last occurrence in the source, or keeps its old value: later duplicates win. */
  lemma {:induction false} AssignAllLookup<T>(acc: seq<(string, T)>, src: seq<(string, T)>, k: string)
    ensures Lookup(AssignAll(acc, src), k) ==
      if LastLookup(src, k).Some? then LastLookup(src, k) else Lookup(acc, k)
    decreases |src|
  {
    if src != [] {
      AssignAllLookup(acc, src[..|src| - 1], k);
    }
  }

  /** Assigning fields whose keys are all new and distinct appends them in order. */
  lemma {:induction false} AssignAllFresh<T>(acc: seq<(string, T)>, src: seq<(string, T)>)
    requires UniqueKeys(acc + src)
    ensures AssignAll(acc, src) == acc + src
    decreases |src|
  {
    if src != [] {
      var src' := src[..|src| - 1];
      var last := src[|src| - 1];
      assert UniqueKeys(acc + src') by {
        forall i, j | 0 <= i < j < |acc + src'| ensures (acc + src')[i].0 != (acc + src')[j].0 {
          assert (acc + src')[i] == (acc + src)[i] && (acc + src')[j] == (acc + src)[j];
        }
      }
      AssignAllFresh(acc, src');
      HasKeyAt(acc + src', last.0);
      assert !HasKey(acc + src', last.0) by {
        forall i | 0 <= i < |acc + src'| ensures (acc + src')[i].0 != last.0 {
          assert (acc + src')[i] == (acc + src)[i];
          assert (acc + src)[|acc + src| - 1] == last;
        }
      }
      assert acc + src == (acc + src') + [last];
    }
  }

  /** Position of the first field named `k`. */
  function KeyIndex<T>(fs: seq<(string, T)>, k: string): (i: nat)
    requires HasKey(fs, k)
    ensures i < |fs| && fs[i].0 == k
    ensures forall j :: 0 <= j < i ==> fs[j].0 != k
  {
    if fs[0].0 == k then 0 else 1 + KeyIndex(fs[1..], k)
  }

  /** The lookup finds the value at the key's first position. */
  lemma {:induction false} LookupAtKeyIndex<T>(fs: seq<(string, T)>, k: string)
    requires HasKey(fs, k)
    ensures Lookup(fs, k).value == fs[KeyIndex(fs, k)].1
  {
    if fs[0].0 != k {
      LookupAtKeyIndex(fs[1..], k);
    }
  }

  /** An existing key is overwritten at its first position. */
  lemma {:induction false} AssignKeyAt<T>(fs: seq<(string, T)>, k: string, v: T)
    requires HasKey(fs, k)
    ensures AssignKey(fs, k, v) == fs[..KeyIndex(fs, k)] + [(k, v)] + fs[KeyIndex(fs, k) + 1..]
  {
    if fs[0].0 != k {
      AssignKeyAt(fs[1..], k, v);
    }
  }

  /** Writing a key twice leaves the second value. */
  lemma {:induction false} AssignKeyTwice<T>(fs: seq<(string, T)>, k: string, v1: T, v2: T)
    ensures AssignKey(AssignKey(fs, k, v1), k, v2) == AssignKey(fs, k, v2)
  {
    if fs != [] && fs[0].0 != k {
      AssignKeyTwice(fs[1..], k, v1, v2);
    }
  }

  /** Overwriting a key that is already present commutes with writing any other key. */
  lemma {:induction false} AssignKeyCommute<T>(fs: seq<(string, T)>, k: string, v: T, a: string, w: T)
    requires HasKey(fs, k) && a != k
    ensures AssignKey(AssignKey(fs, k, v), a, w) == AssignKey(AssignKey(fs, a, w), k, v)
  {
    if fs[0].0 != k && fs[0].0 != a {
      AssignKeyCommute(fs[1..], k, v, a, w);
    }
  }

  lemma {:induction false} OverwriteThenAssignAll<T>(t: seq<(string, T)>, k: string, v: T, m: seq<(string, T)>)
    requires HasKey(t, k) && !HasKey(m, k)
    ensures AssignAll(AssignKey(t, k, v), m) == AssignKey(AssignAll(t, m), k, v)
    decreases |m|
  {
    if m != [] {
      var m' := m[..|m| - 1];
      var y := m[|m| - 1];
      HasKeyAt(m, k);
      HasKeyAt(m', k);
      OverwriteThenAssignAll(t, k, v, m');
      AssignAllKeepsKeys(t, m', k);
      AssignKeyCommute(AssignAll(t, m'), k, v, y.0, y.1);
    }
  }

  lemma {:induction false} AssignAllAfterKey<T>(acc: seq<(string, T)>, m: seq<(string, T)>, k: string, v: T)
    requires UniqueKeys(m)
    ensures AssignAll(acc, AssignKey(m, k, v)) == AssignKey(AssignAll(acc, m), k, v)
  {
    if HasKey(m, k) {
      var i := KeyIndex(m, k);
      AssignKeyAt(m, k, v);
      var m1, m2 := m[..i], m[i + 1..];
      assert m == m1 + [m[i]] + m2;
      var t0 := AssignAll(acc, m1);
      AssignAllConcat(acc, m1 + [(k, v)], m2);
      AssignAllConcat(acc, m1, [(k, v)]);
      AssignAllConcat(acc, m1 + [m[i]], m2);
      AssignAllConcat(acc, m1, [m[i]]);
      assert AssignAll(t0, [(k, v)]) == AssignKey(t0, k, v);
      assert AssignAll(t0, [m[i]]) == AssignKey(t0, k, m[i].1);
      var t := AssignKey(t0, k, m[i].1);
      AssignKeyTwice(t0, k, m[i].1, v);
      HasKeyAt(m2, k);
      assert !HasKey(m2, k) by {
        forall j | 0 <= j < |m2| ensures m2[j].0 != k {
          assert m2[j] == m[i + 1 + j];
        }
      }
      OverwriteThenAssignAll(t, k, v, m2);
    } else {
      assert (m + [(k, v)])[..|m|] == m;
    }
  }

  lemma {:induction false} AssignAllRegroup<T>(acc: seq<(string, T)>, m: seq<(string, T)>, src: seq<(string, T)>)
    requires UniqueKeys(m)
    ensures AssignAll(acc, AssignAll(m, src)) == AssignAll(AssignAll(acc, m), src)
    decreases |src|
  {
    if src != [] {
      var src' := src[..|src| - 1];
      var x := src[|src| - 1];
      AssignAllRegroup(acc, m, src');
      AssignAllKeepsUnique(m, src');
      AssignAllAfterKey(acc, AssignAll(m, src'), x.0, x.1);
    }
  }

  /**
   * Merging a source object built field by field into a target is the same as
   * assigning those fields to the target directly, even when keys repeat.
   */
  lemma MergeBuiltObject<T>(acc: seq<(string, T)>, src: seq<(string, T)>)
    ensures AssignAll(acc, AssignAll([], src)) == AssignAll(acc, src)
  {
    AssignAllRegroup(acc, [], src);
  }
}
