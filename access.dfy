/**
 * Reading and writing along a path: `get` and copy-on-write `set`
 * (src/datamix.js:108-126, 262-291).
 */
module Access {
  import opened Wrappers
  import opened Decimal
  import opened Fields
  import opened Data
  import opened Paths

  /** Raw descent `data[s0][s1]…`, where a step into anything without that own key gives undefined. */
  function Walk(data: Value, path: seq<string>): Value
    decreases |path|
  {
    if path == [] then data else Walk(Child(data, path[0]), path[1..])
  }

  /** Once the descent reaches nil it stays there. */
  lemma {:induction false} WalkNil(data: Value, path: seq<string>)
    requires IsNil(data)
    ensures IsNil(Walk(data, path))
    decreases |path|
  {
    if path != [] {
      WalkNil(Child(data, path[0]), path[1..]);
    }
  }

  /** Descending along `p + q` is descending along `p`, then along `q`. */
  lemma {:induction false} WalkAppend(data: Value, p: seq<string>, q: seq<string>)
    ensures Walk(data, p + q) == Walk(Walk(data, p), q)
    decreases |p|
  {
    if p != [] {
      assert (p + q)[1..] == p[1..] + q;
      WalkAppend(Child(data, p[0]), p[1..], q);
    } else {
      assert p + q == q;
    }
  }

  /** A descent that ends on a value passed through values at every prefix of its path. */
  lemma WalkThroughPrefix(data: Value, path: seq<string>, n: nat)
    requires n <= |path| && !IsNil(Walk(data, path))
    ensures !IsNil(Walk(data, path[..n]))
  {
    assert path == path[..n] + path[n..];
    WalkAppend(data, path[..n], path[n..]);
    if IsNil(Walk(data, path[..n])) {
      WalkNil(Walk(data, path[..n]), path[n..]);
    }
  }

  /**
   * `get`: the value the path leads to, or `notFound` when the descent meets
   * nil on the way or at the end.
   */
  function Get(data: Value, path: PathArg, notFound: Value): (r: Value)
    ensures r == DefaultsTo(Walk(data, Normalize(path)), notFound)
    ensures IsNil(data) ==> r == notFound
    ensures !IsNil(data) && Normalize(path) == [] ==> r == data
    ensures r == notFound || !IsNil(r)
    decreases |Normalize(path)|
  {
    if IsNil(data) then
      WalkNil(data, Normalize(path));
      notFound
    else
      var segs := Normalize(path);
      if |segs| == 0 then data
      else Get(Child(data, segs[0]), Segments(segs[1..]), notFound)
  }

  /** Reading a path first found by walking a prefix is reading the whole path. */
  lemma GetAfterPrefix(data: Value, p: seq<string>, q: seq<string>, notFound: Value)
    requires !IsNil(Walk(data, p))
    ensures Get(Walk(data, p), Segments(q), notFound) == Get(data, Segments(p + q), notFound)
  {
    WalkAppend(data, p, q);
  }

  /** The third argument of `set`: a value, or a function of the value found there. */
  datatype NewValue = Literal(v: Value) | Fn(f: Value -> Value)

  /** What `set` stores at the end of the path, given what was there. */
  function NewLeaf(nv: NewValue, found: Value): Value {
    match nv
    case Literal(v) => v
    case Fn(f) => f(found)
  }

  /** Whether `data[key] = child` takes effect: any object key, or an array index up to the length. */
  predicate CanPut(data: Value, key: string) {
    data.Obj? || (data.Arr? && ParseIndex(key).Some? && ParseIndex(key).value <= |data.items|)
  }

  /**
   * `data[key] = child` on a fresh copy: an object key is overwritten or
   * appended, an array index replaces an item or appends at the length, and
   * any other write is dropped.
   */
  function Put(data: Value, key: string, child: Value): (r: Value)
    ensures CanPut(data, key) ==> Child(r, key) == child
    ensures forall k :: k != key ==> Child(r, k) == Child(data, k)
    ensures !CanPut(data, key) ==> r == data
    ensures data.Arr? ==> r.Arr? && |data.items| <= |r.items| <= |data.items| + 1
    ensures data.Obj? ==> r.Obj? && (KeysOf(r.fields) == KeysOf(data.fields) || KeysOf(r.fields) == KeysOf(data.fields) + [key])
  {
    match data
    case Obj(fields) =>
      var r := AssignKey(fields, key, child);
      if HasKey(fields, key) then AssignKeyKeys(fields, key, child); Obj(r) else
      assert KeysOf(fields + [(key, child)]) == KeysOf(fields) + [key];
      Obj(r)
    case Arr(items) =>
      (match ParseIndex(key)
       case Some(i) =>
         if i < |items| then
           PutFrameAt(items, key, i);
           Arr(items[i := child])
         else if i == |items| then
           PutFrameAt(items, key, i);
           ParseNatToString(i);
           Arr(items + [child])
         else data
       case None => data)
    case _ => data
  }

  /** Distinct keys never name the same array index. */
  lemma PutFrameAt(items: seq<Value>, key: string, i: nat)
    requires ParseIndex(key) == Some(i)
    ensures forall k :: k != key && ParseIndex(k).Some? ==> ParseIndex(k).value != i
  {
  }

  /**
   * `set`: a copy of `data` where the path now holds the new value, with nil
   * nodes on the way replaced by empty objects; siblings of the path's first
   * segment are untouched.
   */
  function Set(data: Value, path: PathArg, nv: NewValue): (r: Value)
    ensures Normalize(path) == [] ==> r == NewLeaf(nv, data)
    ensures Normalize(path) != [] && IsNil(data) ==> r.Obj?
    ensures Normalize(path) != [] && data.Arr? ==> r.Arr? && |data.items| <= |r.items| <= |data.items| + 1
    ensures Normalize(path) != [] && data.Obj? ==>
      (r.Obj? && (KeysOf(r.fields) == KeysOf(data.fields) || KeysOf(r.fields) == KeysOf(data.fields) + [Normalize(path)[0]]))
    ensures Normalize(path) != [] && !IsObject(data) && !IsNil(data) ==> r == data
    ensures Normalize(path) != [] ==> forall k :: k != Normalize(path)[0] ==> Child(r, k) == Child(data, k)
    decreases |Normalize(path)|
  {
    var copied := Copy(data);
    var segs := Normalize(path);
    if |segs| == 0 then NewLeaf(nv, copied)
    else
      var target := if IsNil(copied) then Obj([]) else copied;
      Put(target, segs[0], Set(Child(target, segs[0]), Segments(segs[1..]), nv))
  }

  /** A textual path and its segment list address the same place. */
  lemma SetNormalized(data: Value, path: PathArg, nv: NewValue)
    ensures Set(data, path, nv) == Set(data, Segments(Normalize(path)), nv)
  {
  }

  /** Every write along the path takes effect: each node is nil, an object, or an array indexed at most at its length. */
  predicate Writable(data: Value, path: seq<string>)
    decreases |path|
  {
    path == [] ||
    (var target := if IsNil(data) then Obj([]) else data;
     CanPut(target, path[0]) && Writable(Child(target, path[0]), path[1..]))
  }

  /** A path that already leads to a value can be written. */
  lemma {:induction false} PresentIsWritable(data: Value, path: seq<string>)
    requires !IsNil(Walk(data, path))
    ensures Writable(data, path)
    decreases |path|
  {
    if path != [] {
      if IsNil(Child(data, path[0])) {
        WalkNil(Child(data, path[0]), path[1..]);
      }
      PresentIsWritable(Child(data, path[0]), path[1..]);
    }
  }

  /** Round trip: after a writable `set`, the path leads to the new value computed from the old one. */
  lemma {:induction false} SetWalk(data: Value, path: PathArg, nv: NewValue)
    requires Writable(data, Normalize(path))
    ensures Walk(Set(data, path, nv), Normalize(path)) == NewLeaf(nv, Walk(data, Normalize(path)))
    decreases |Normalize(path)|
  {
    var segs := Normalize(path);
    if segs != [] {
      var target := if IsNil(data) then Obj([]) else data;
      SetWalk(Child(target, segs[0]), Segments(segs[1..]), nv);
      if IsNil(data) {
        WalkNil(data, segs);
        WalkNil(Child(target, segs[0]), segs[1..]);
      }
    }
  }

  /** Round trip through `get`: reading a written literal gives it back (or `notFound` if it is nil). */
  lemma SetThenGet(data: Value, path: PathArg, v: Value, notFound: Value)
    requires Writable(data, Normalize(path))
    ensures Get(Set(data, path, Literal(v)), path, notFound) == DefaultsTo(v, notFound)
  {
    SetWalk(data, path, Literal(v));
  }

  /** Round trip through `get` for an updater: the path holds the function applied to what the descent found. */
  lemma SetFnThenGet(data: Value, path: PathArg, f: Value -> Value, notFound: Value)
    requires Writable(data, Normalize(path))
    ensures Get(Set(data, path, Fn(f)), path, notFound) == DefaultsTo(f(Walk(data, Normalize(path))), notFound)
  {
    SetWalk(data, path, Fn(f));
  }

  /** Two paths part ways: neither is a prefix of the other. */
  predicate Diverge(p: seq<string>, q: seq<string>) {
    |p| > 0 && |q| > 0 && (p[0] != q[0] || Diverge(p[1..], q[1..]))
  }

  lemma {:induction false} DivergeSymmetric(p: seq<string>, q: seq<string>)
    requires Diverge(p, q)
    ensures Diverge(q, p)
  {
    if p[0] == q[0] {
      DivergeSymmetric(p[1..], q[1..]);
    }
  }

  /** Two distinct paths of the same length part ways. */
  lemma {:induction false} DistinctSameLengthDiverge(p: seq<string>, q: seq<string>)
    requires |p| == |q| && p != q
    ensures Diverge(p, q)
  {
    if p[0] == q[0] {
      assert p == [p[0]] + p[1..] && q == [q[0]] + q[1..];
      DistinctSameLengthDiverge(p[1..], q[1..]);
    }
  }

  /** Frame: `set` leaves every path that parts ways with the written one as it was. */
  lemma {:induction false} SetDivergent(data: Value, path: PathArg, nv: NewValue, other: seq<string>)
    requires Diverge(other, Normalize(path))
    ensures Walk(Set(data, path, nv), other) == Walk(data, other)
    decreases |Normalize(path)|
  {
    var segs := Normalize(path);
    var target := if IsNil(data) then Obj([]) else data;
    var r := Set(data, path, nv);
    if other[0] == segs[0] {
      var inner := Set(Child(target, segs[0]), Segments(segs[1..]), nv);
      SetDivergent(Child(target, segs[0]), Segments(segs[1..]), nv, other[1..]);
      assert Child(target, segs[0]) == Child(data, segs[0]);
      if !CanPut(target, segs[0]) {
        assert Child(r, segs[0]) == Child(data, segs[0]);
      }
    }
  }

  /** A write that parts ways with a writable path keeps it writable. */
  lemma {:induction false} WritableAfterSet(data: Value, path: PathArg, nv: NewValue, other: seq<string>)
    requires Diverge(other, Normalize(path)) && Writable(data, other)
    ensures Writable(Set(data, path, nv), other)
    decreases |Normalize(path)|
  {
    var segs := Normalize(path);
    var target := if IsNil(data) then Obj([]) else data;
    var r := Set(data, path, nv);
    assert !IsNil(r);
    assert CanPut(r, other[0]);
    if other[0] == segs[0] {
      WritableAfterSet(Child(target, segs[0]), Segments(segs[1..]), nv, other[1..]);
    }
  }

  /**
   * Siblings are untouched at every level: below any prefix of the written
   * path, a key other than the path's own leads to the same subtree as before.
   */
  lemma SetKeepsSiblings(data: Value, segs: seq<string>, nv: NewValue, m: nat, k: string, rest: seq<string>)
    requires m < |segs| && k != segs[m]
    ensures Walk(Set(data, Segments(segs), nv), segs[..m] + [k] + rest) == Walk(data, segs[..m] + [k] + rest)
  {
    PrefixThenOtherDiverges(segs, m, k, rest);
    SetDivergent(data, Segments(segs), nv, segs[..m] + [k] + rest);
  }

  lemma {:induction false} PrefixThenOtherDiverges(segs: seq<string>, m: nat, k: string, rest: seq<string>)
    requires m < |segs| && k != segs[m]
    ensures Diverge(segs[..m] + [k] + rest, segs)
  {
    if m > 0 {
      PrefixThenOtherDiverges(segs[1..], m - 1, k, rest);
      assert (segs[..m] + [k] + rest)[1..] == segs[1..][..m - 1] + [k] + rest;
    }
  }

  /** Writes applied one after another, as `setAll` and `setWith` apply them. */
  function SetEach(data: Value, writes: seq<(PathArg, NewValue)>): Value {
    if writes == [] then data
    else
      var w := writes[|writes| - 1];
      Set(SetEach(data, writes[..|writes| - 1]), w.0, w.1)
  }

  /** One more write: the first `j + 1` writes are the first `j` followed by write `j`. */
  lemma SetEachSnoc(data: Value, writes: seq<(PathArg, NewValue)>, j: nat)
    requires j < |writes|
    ensures SetEach(data, writes[..j + 1]) == Set(SetEach(data, writes[..j]), writes[j].0, writes[j].1)
  {
    assert writes[..j + 1][..j] == writes[..j];
  }

  /** Pairwise diverging paths, each writable beforehand. */
  ghost predicate IndependentWrites(data: Value, writes: seq<(PathArg, NewValue)>) {
    (forall i, j :: 0 <= i < j < |writes| ==> Diverge(Normalize(writes[i].0), Normalize(writes[j].0))) &&
    (forall i :: 0 <= i < |writes| ==> Writable(data, Normalize(writes[i].0)))
  }

  /**
   * One write among paths that part ways pairwise: the written path gets its
   * new leaf, and every other path keeps its subtree and stays writable.
   */
  lemma SetAmong(before: Value, path: PathArg, nv: NewValue, ps: seq<seq<string>>, m: nat)
    requires m < |ps| && ps[m] == Normalize(path) && Writable(before, ps[m])
    requires forall i, j :: 0 <= i < j < |ps| ==> Diverge(ps[i], ps[j])
    ensures Walk(Set(before, path, nv), ps[m]) == NewLeaf(nv, Walk(before, ps[m]))
    ensures forall i :: 0 <= i < |ps| && i != m ==> Walk(Set(before, path, nv), ps[i]) == Walk(before, ps[i])
    ensures forall i :: 0 <= i < |ps| && i != m && Writable(before, ps[i]) ==> Writable(Set(before, path, nv), ps[i])
  {
    SetWalk(before, path, nv);
    forall i | 0 <= i < |ps| && i != m
      ensures Walk(Set(before, path, nv), ps[i]) == Walk(before, ps[i])
      ensures Writable(before, ps[i]) ==> Writable(Set(before, path, nv), ps[i])
    {
      if i > m {
        DivergeSymmetric(ps[m], ps[i]);
      }
      SetDivergent(before, path, nv, ps[i]);
      if Writable(before, ps[i]) {
        WritableAfterSet(before, path, nv, ps[i]);
      }
    }
  }

  /**
   * Independent writes in sequence: after all of them each path holds its own
   * new value, computed from what was there before any write.
   */
  lemma SetEachWrites(data: Value, writes: seq<(PathArg, NewValue)>)
    requires IndependentWrites(data, writes)
    ensures forall i :: 0 <= i < |writes| ==>
      Walk(SetEach(data, writes), Normalize(writes[i].0)) == NewLeaf(writes[i].1, Walk(data, Normalize(writes[i].0)))
  {
    var ps := seq(|writes|, i requires 0 <= i < |writes| => Normalize(writes[i].0));
    SetEachAmong(data, writes, ps);
    forall i | 0 <= i < |writes|
      ensures Walk(SetEach(data, writes), Normalize(writes[i].0)) == NewLeaf(writes[i].1, Walk(data, Normalize(writes[i].0)))
    {
      assert ps[i] == Normalize(writes[i].0);
    }
  }

  /**
   * The writes done so far, among the paths `ps` of all the writes: each path
   * written so far holds its new leaf, and each later one is untouched and writable.
   */
  lemma {:induction false} SetEachAmong(data: Value, writes: seq<(PathArg, NewValue)>, ps: seq<seq<string>>)
    requires |writes| <= |ps|
    requires forall i :: 0 <= i < |writes| ==> ps[i] == Normalize(writes[i].0)
    requires forall i, j :: 0 <= i < j < |ps| ==> Diverge(ps[i], ps[j])
    requires forall i :: 0 <= i < |ps| ==> Writable(data, ps[i])
    ensures forall i :: 0 <= i < |writes| ==> Walk(SetEach(data, writes), ps[i]) == NewLeaf(writes[i].1, Walk(data, ps[i]))
    ensures forall i :: |writes| <= i < |ps| ==>
      Walk(SetEach(data, writes), ps[i]) == Walk(data, ps[i]) && Writable(SetEach(data, writes), ps[i])
  {
    if writes != [] {
      var w := writes[|writes| - 1];
      SetEachAmong(data, writes[..|writes| - 1], ps);
      SetAmong(SetEach(data, writes[..|writes| - 1]), w.0, w.1, ps, |writes| - 1);
    }
  }

  /** Nothing else changes: writes that all part ways with a path leave it as it was. */
  lemma {:induction false} SetEachKeeps(data: Value, writes: seq<(PathArg, NewValue)>, other: seq<string>)
    requires forall i :: 0 <= i < |writes| ==> Diverge(other, Normalize(writes[i].0))
    ensures Walk(SetEach(data, writes), other) == Walk(data, other)
  {
    if writes != [] {
      var w := writes[|writes| - 1];
      SetEachKeeps(data, writes[..|writes| - 1], other);
      SetDivergent(SetEach(data, writes[..|writes| - 1]), w.0, w.1, other);
    }
  }
}
