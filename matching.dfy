/**
 * `match`: testing data against a predicate tree of literals, callbacks, and
 * path-keyed objects or `[path, predicate]` lists (src/datamix.js:228-256).
 */
module Matching {
  import opened Data
  import opened Paths
  import opened Access
  import opened Wildcards

  /** A predicate: a literal compared strictly, a callback, an object from paths to predicates, or a list of pairs. */
  datatype Spec =
    | Equals(v: Scalar)
    | Test(p: Value -> bool)
    | PathFields(fields: seq<(string, Spec)>)
    | PathPairs(pairs: seq<(PathArg, Spec)>)

  /** The getter `match` dispatches to: `getAll` for a wildcard path, `get` otherwise. */
  function Resolve(data: Value, path: PathArg): Value {
    if ContainsWildcard(Normalize(path)) then Gathered(data, path, false) else Get(data, path, Undefined)
  }

  /**
   * A path without a wildcard reads the single value it leads to (undefined
   * when the descent meets nil); a wildcard path reads the list of every match's value.
   */
  lemma ResolveDispatch(data: Value, path: PathArg)
    ensures !ContainsWildcard(Normalize(path)) ==> Resolve(data, path) == DefaultsTo(Walk(data, Normalize(path)), Undefined)
    ensures ContainsWildcard(Normalize(path)) ==> Resolve(data, path) == Gathered(data, path, false) && Resolve(data, path).Arr?
  {
  }

  /** `and`: the conjunction of a list of booleans, folded from `true`. */
  function All(bs: seq<bool>): (r: bool)
    ensures r <==> forall i :: 0 <= i < |bs| ==> bs[i]
  {
    if bs == [] then true else All(bs[..|bs| - 1]) && bs[|bs| - 1]
  }

  /** `and` over a concatenation is the conjunction of the two parts. */
  lemma AllConcat(xs: seq<bool>, ys: seq<bool>)
    ensures All(xs + ys) == (All(xs) && All(ys))
  {
    assert forall i :: 0 <= i < |xs| ==> (xs + ys)[i] == xs[i];
    assert forall i :: 0 <= i < |ys| ==> (xs + ys)[|xs| + i] == ys[i];
  }

  /**
   * `match`: a list of pairs and an object of path predicates each map every
   * clause to `match(getter(path)(data, path), predicate)` and take the
   * conjunction; a callback is applied; anything else is compared strictly.
   */
  function Match(data: Value, spec: Spec): bool
    decreases spec
  {
    match spec
    case PathPairs(pairs) =>
      All(seq(|pairs|, i requires 0 <= i < |pairs| => Match(Resolve(data, pairs[i].0), pairs[i].1)))
    case PathFields(fields) =>
      All(seq(|fields|, i requires 0 <= i < |fields| => Match(Resolve(data, Text(fields[i].0)), fields[i].1)))
    case Test(p) => p(data)
    case Equals(v) => data == v
  }

  /** A list of `[path, predicate]` pairs holds exactly when every predicate holds of what its path finds. */
  lemma MatchPairs(data: Value, pairs: seq<(PathArg, Spec)>)
    ensures Match(data, PathPairs(pairs)) <==> forall i :: 0 <= i < |pairs| ==> Match(Resolve(data, pairs[i].0), pairs[i].1)
  {
    var bs := seq(|pairs|, i requires 0 <= i < |pairs| => Match(Resolve(data, pairs[i].0), pairs[i].1));
    assert forall i :: 0 <= i < |pairs| ==> bs[i] == Match(Resolve(data, pairs[i].0), pairs[i].1);
    assert Match(data, PathPairs(pairs)) == All(bs);
  }

  /** An object of path predicates holds exactly when every predicate holds of what its key path finds. */
  lemma MatchFields(data: Value, fields: seq<(string, Spec)>)
    ensures Match(data, PathFields(fields)) <==> forall i :: 0 <= i < |fields| ==> Match(Resolve(data, Text(fields[i].0)), fields[i].1)
  {
    var bs := seq(|fields|, i requires 0 <= i < |fields| => Match(Resolve(data, Text(fields[i].0)), fields[i].1));
    assert forall i :: 0 <= i < |fields| ==> bs[i] == Match(Resolve(data, Text(fields[i].0)), fields[i].1);
    assert Match(data, PathFields(fields)) == All(bs);
  }

  /** The pair list spelling an object of path predicates: each key becomes a string path. */
  function AsPairs(fields: seq<(string, Spec)>): (r: seq<(PathArg, Spec)>)
    ensures |r| == |fields|
    ensures forall i :: 0 <= i < |fields| ==> r[i] == (Text(fields[i].0), fields[i].1)
  {
    seq(|fields|, i requires 0 <= i < |fields| => (Text(fields[i].0), fields[i].1))
  }

  /** An object of path predicates means the same as the list of its entries. */
  lemma FieldsAsPairs(data: Value, fields: seq<(string, Spec)>)
    ensures Match(data, PathFields(fields)) == Match(data, PathPairs(AsPairs(fields)))
  {
    MatchFields(data, fields);
    MatchPairs(data, AsPairs(fields));
  }

  /** A list of pairs over a concatenation is the conjunction of the two lists; the order does not matter. */
  lemma MatchPairsConcat(data: Value, a: seq<(PathArg, Spec)>, b: seq<(PathArg, Spec)>)
    ensures Match(data, PathPairs(a + b)) == (Match(data, PathPairs(a)) && Match(data, PathPairs(b)))
    ensures Match(data, PathPairs(a + b)) == Match(data, PathPairs(b + a))
  {
    MatchPairs(data, a + b);
    MatchPairs(data, b + a);
    MatchPairs(data, a);
    MatchPairs(data, b);
    forall i | 0 <= i < |b| ensures (a + b)[|a| + i] == b[i] && (b + a)[i] == b[i] {
    }
    forall i | 0 <= i < |a| ensures (b + a)[|b| + i] == a[i] && (a + b)[i] == a[i] {
    }
  }

  /** A single literal clause on a path without a wildcard compares what `get` finds there (undefined when missing). */
  lemma MatchPlainClause(data: Value, path: PathArg, v: Scalar)
    requires !ContainsWildcard(Normalize(path))
    ensures Match(data, PathPairs([(path, Equals(v))])) <==> Get(data, path, Undefined) == v
  {
    var pairs := [(path, Equals(v))];
    MatchPairs(data, pairs);
    assert pairs[0] == (path, Equals(v));
  }

  /** A non-nil literal written at a plain, writable path is then matched by a clause expecting it there. */
  lemma MatchAfterSet(data: Value, path: PathArg, v: Scalar)
    requires !ContainsWildcard(Normalize(path)) && Writable(data, Normalize(path)) && !IsNil(v)
    ensures Match(Set(data, path, Literal(v)), PathPairs([(path, Equals(v))]))
  {
    MatchPlainClause(Set(data, path, Literal(v)), path, v);
    SetThenGet(data, path, v, Undefined);
  }
}
