/**
 * Building new data out of paths: `groupBy`, `only` and `getFirst`
 * (src/datamix.js:199-223, 367-385, 390-399).
 */
module Aggregate {
  import opened Wrappers
  import opened Decimal
  import opened Fields
  import opened Data
  import opened Paths
  import opened Access
  import opened Iteration
  import opened Wildcards

  // ---------------------------------------------------------------- writing one key

  /** Setting a one-segment path on an object assigns that key, with the new value computed from the old child. */
  lemma SetOneKey(g: Value, name: string, nv: NewValue)
    requires g.Obj? && Spellable(name)
    ensures Normalize(Text(name)) == [name]
    ensures Set(g, Text(name), nv) == Obj(AssignKey(g.fields, name, NewLeaf(nv, Child(g, name))))
  {
    NormalizeJoin([name]);
    assert Join([name]) == name;
  }

  // ---------------------------------------------------------------- groupBy

  /** A bucket name the key function can produce: a single path segment. */
  type BucketName = s: string | Spellable(s) witness "_"

  /** How many leading segments of a resolved path name the record: through the first wildcard, none without one. */
  function CommonSize(pattern: seq<string>): (r: nat)
    ensures r <= |pattern|
    ensures r == 0 <==> !ContainsWildcard(pattern)
    ensures r > 0 ==> IsWildcard(pattern[r - 1]) && forall i :: 0 <= i < r - 1 ==> !IsWildcard(pattern[i])
  {
    var i := IndexOfWildcard(pattern);
    if i == -1 then 0 else i + 1
  }

  /** `segs.slice(0, n)`, which stops at the end of a shorter list. */
  function Take(segs: seq<string>, n: nat): (r: seq<string>)
    ensures |r| <= n && r <= segs
    ensures n <= |segs| ==> |r| == n
    ensures n >= |segs| ==> r == segs
  {
    if n <= |segs| then segs[..n] else segs
  }

  /** The entry `groupBy` records for the match found at `resolved`: what the resolved path reads up to its first wildcard. */
  function Record(data: Value, pattern: seq<string>, resolved: string): Value {
    Get(data, Segments(Take(Normalize(Text(resolved)), CommonSize(pattern))), Undefined)
  }

  /**
   * The updater handed to `set`: the bucket found there, or a new empty list,
   * with the record pushed at its end. A bucket is always a list or absent.
   */
  function Push(record: Value): (f: Value -> Value)
    ensures forall found: Value :: IsNil(found) ==> f(found) == Arr([record])
    ensures forall found: Value :: found.Arr? ==> f(found) == Arr(found.items + [record])
  {
    assert [] + [record] == [record];
    found =>
      var bucket := DefaultsTo(found, Arr([]));
      if bucket.Arr? then Arr(bucket.items + [record]) else bucket
  }

  /** One step of the `groupBy` reduce over the path map: push the record into the bucket the key function names. */
  function GroupStep(data: Value, pattern: seq<string>, keyFn: Value -> BucketName): (Value, Value, Key) -> Value {
    (groups: Value, value: Value, key: Key) =>
      Set(groups, Text(keyFn(value)), Fn(Push(Record(data, pattern, KeySegment(key)))))
  }

  /** What `groupBy` returns: the reduce, from an empty object, over the path map `getAll` builds. */
  function Grouped(data: Value, path: PathArg, keyFn: Value -> BucketName): Value {
    Fold(OwnEntries(Gathered(data, path, true)), GroupStep(data, Normalize(path), keyFn), Obj([]))
  }

  /** `groupBy`. */
  method GroupBy(data: Value, path: PathArg, keyFn: Value -> BucketName) returns (r: Value)
    ensures r == Grouped(data, path, keyFn)
  {
    var values := GetAll(data, path, true);
    r := Reduce(values, GroupStep(data, Normalize(path), keyFn), Obj([]));
  }

  /** Each path-map entry tagged with the bucket its leaf goes to and the record it contributes. */
  function Tagged(data: Value, pattern: seq<string>, keyFn: Value -> BucketName, es: seq<(Key, Value)>): (r: seq<(string, Value)>)
    ensures |r| == |es|
    ensures forall i :: 0 <= i < |es| ==> r[i] == (keyFn(es[i].1), Record(data, pattern, KeySegment(es[i].0)))
  {
    seq(|es|, i requires 0 <= i < |es| => (keyFn(es[i].1), Record(data, pattern, KeySegment(es[i].0))))
  }

  /** The records, in order, of the tagged entries that go to `name`. */
  function Bucket(tagged: seq<(string, Value)>, name: string): seq<Value> {
    if tagged == [] then []
    else
      var last := tagged[|tagged| - 1];
      Bucket(tagged[..|tagged| - 1], name) + (if last.0 == name then [last.1] else [])
  }

  /** What the groups hold under a name with the given records: nothing when there are none, else the list of them. */
  function Slot(records: seq<Value>): Option<Value> {
    if records == [] then None else Some(Arr(records))
  }

  /** One step on an object of groups assigns the bucket the key function names, with the record pushed. */
  lemma GroupStepAssigns(data: Value, pattern: seq<string>, keyFn: Value -> BucketName, g: Value, value: Value, key: Key)
    requires g.Obj?
    ensures GroupStep(data, pattern, keyFn)(g, value, key) ==
      Obj(AssignKey(g.fields, keyFn(value), Push(Record(data, pattern, KeySegment(key)))(Child(g, keyFn(value)))))
  {
    SetOneKey(g, keyFn(value), Fn(Push(Record(data, pattern, KeySegment(key)))));
  }

  /** Pushing into the slot of a bucket extends its records by one. */
  lemma PushIntoSlot(g: Value, name: string, records: seq<Value>, rec: Value)
    requires g.Obj? && Lookup(g.fields, name) == Slot(records)
    ensures Push(rec)(Child(g, name)) == Arr(records + [rec])
  {
    if records == [] {
      assert Child(g, name) == Undefined;
    } else {
      assert HasKey(g.fields, name);
    }
  }

  /**
   * The groups are an object with each name once; a name is present exactly
   * when some entry falls into it, and then holds those entries' records in order.
   */
  lemma {:induction false} GroupsAreBuckets(data: Value, pattern: seq<string>, keyFn: Value -> BucketName, es: seq<(Key, Value)>)
    ensures Fold(es, GroupStep(data, pattern, keyFn), Obj([])).Obj?
    ensures UniqueKeys(Fold(es, GroupStep(data, pattern, keyFn), Obj([])).fields)
    ensures forall k :: Lookup(Fold(es, GroupStep(data, pattern, keyFn), Obj([])).fields, k) == Slot(Bucket(Tagged(data, pattern, keyFn, es), k))
  {
    if es != [] {
      var pre := es[..|es| - 1];
      var last := es[|es| - 1];
      var step := GroupStep(data, pattern, keyFn);
      GroupsAreBuckets(data, pattern, keyFn, pre);
      var g := Fold(pre, step, Obj([]));
      assert Fold(es, step, Obj([])) == step(g, last.1, last.0);
      var tagged := Tagged(data, pattern, keyFn, es);
      assert tagged[..|tagged| - 1] == Tagged(data, pattern, keyFn, pre);
      var name := tagged[|tagged| - 1].0;
      var rec := tagged[|tagged| - 1].1;
      GroupStepAssigns(data, pattern, keyFn, g, last.1, last.0);
      PushIntoSlot(g, name, Bucket(tagged[..|tagged| - 1], name), rec);
      var pushed := Arr(Bucket(tagged[..|tagged| - 1], name) + [rec]);
      assert Fold(es, step, Obj([])) == Obj(AssignKey(g.fields, name, pushed));
      AssignKeyKeepsUnique(g.fields, name, pushed);
      BucketsAfterStep(tagged, g.fields);
    }
  }

  /** Assigning the last entry's bucket, with its record pushed, turns the slots of the earlier entries into those of all entries. */
  lemma BucketsAfterStep(tagged: seq<(string, Value)>, gf: seq<(string, Value)>)
    requires tagged != []
    requires forall k :: Lookup(gf, k) == Slot(Bucket(tagged[..|tagged| - 1], k))
    ensures forall k ::
      Lookup(AssignKey(gf, tagged[|tagged| - 1].0, Arr(Bucket(tagged[..|tagged| - 1], tagged[|tagged| - 1].0) + [tagged[|tagged| - 1].1])), k)
      == Slot(Bucket(tagged, k))
  {
    var pre := tagged[..|tagged| - 1];
    var last := tagged[|tagged| - 1];
    var fs := AssignKey(gf, last.0, Arr(Bucket(pre, last.0) + [last.1]));
    forall k ensures Lookup(fs, k) == Slot(Bucket(tagged, k)) {
      assert Bucket(tagged, k) == Bucket(pre, k) + (if last.0 == k then [last.1] else []);
      if k != last.0 {
        assert Lookup(fs, k) == Lookup(gf, k);
        assert Bucket(tagged, k) == Bucket(pre, k);
      }
    }
  }

  /** Without a wildcard every record is the whole data. */
  lemma RecordWithoutWildcard(data: Value, pattern: seq<string>, resolved: string)
    requires !ContainsWildcard(pattern) && !IsNil(data)
    ensures Record(data, pattern, resolved) == data
  {
  }

  /**
   * With a wildcard, the record of a match is the subtree its resolved path
   * reaches at the first wildcard's position: the whole entry, not the leaf.
   */
  lemma RecordOfMatch(data: Value, pattern: seq<string>, segs: seq<string>)
    requires SpellablePath(segs) && Fits(pattern, segs) && !IsNil(Walk(data, segs))
    ensures Record(data, pattern, Join(segs)) == Walk(data, segs[..CommonSize(pattern)])
    ensures !IsNil(Record(data, pattern, Join(segs)))
  {
    MatchLabelReadsBack(data, segs, Walk(data, segs), Undefined);
    var n := CommonSize(pattern);
    var head := segs[..n];
    assert Take(Normalize(Text(Join(segs))), n) == head;
    assert Record(data, pattern, Join(segs)) == DefaultsTo(Walk(data, head), Undefined);
    WalkThroughPrefix(data, segs, n);
  }

  /**
   * The reference grouping of a pattern's matches: each match is tagged with
   * the bucket its leaf goes to and the subtree at its first wildcard.
   */
  function MatchTags(data: Value, pattern: seq<string>, keyFn: Value -> BucketName): seq<(string, Value)> {
    var ms := Matches(data, pattern);
    seq(|ms|, i requires 0 <= i < |ms| => (keyFn(ms[i].1), Walk(data, ms[i].0[..CommonSize(pattern)])))
  }

  /**
   * `groupBy` on well-formed data and a spellable pattern: each bucket holds,
   * in match order, the entry (never nil) of every match whose leaf the key
   * function sends there, and no other name is present.
   */
  lemma GroupedByMatches(data: Value, path: PathArg, keyFn: Value -> BucketName)
    requires WellFormed(data) && SpellableKeys(data) && SpellablePath(Normalize(path))
    ensures Grouped(data, path, keyFn).Obj? && UniqueKeys(Grouped(data, path, keyFn).fields)
    ensures forall k :: Lookup(Grouped(data, path, keyFn).fields, k) == Slot(Bucket(MatchTags(data, Normalize(path), keyFn), k))
    ensures forall i :: 0 <= i < |MatchTags(data, Normalize(path), keyFn)| ==> !IsNil(MatchTags(data, Normalize(path), keyFn)[i].1)
  {
    var es := OwnEntries(Gathered(data, path, true));
    GroupsAreBuckets(data, Normalize(path), keyFn, es);
    TaggedAreMatchTags(data, path, keyFn);
  }

  /** The entries `groupBy` folds over, tagged, are the reference tags of the matches, and no record is nil. */
  lemma TaggedAreMatchTags(data: Value, path: PathArg, keyFn: Value -> BucketName)
    requires WellFormed(data) && SpellableKeys(data) && SpellablePath(Normalize(path))
    ensures Tagged(data, Normalize(path), keyFn, OwnEntries(Gathered(data, path, true))) == MatchTags(data, Normalize(path), keyFn)
    ensures forall i :: 0 <= i < |MatchTags(data, Normalize(path), keyFn)| ==> !IsNil(MatchTags(data, Normalize(path), keyFn)[i].1)
  {
    var pattern := Normalize(path);
    var es := OwnEntries(Gathered(data, path, true));
    var ms := Matches(data, pattern);
    GatheredExact(data, path);
    MatchesSpellable(data, pattern);
    assert |es| == |ms| && forall m :: 0 <= m < |es| ==> es[m] == (Name(Join(ms[m].0)), ms[m].1) by {
      forall m | 0 <= m < |es| ensures es[m] == (Name(Join(ms[m].0)), ms[m].1) {
        assert es[m] == (Name(Join([] + ms[m].0)), ms[m].1);
        assert [] + ms[m].0 == ms[m].0;
      }
    }
    TagsOfMatches(data, pattern, keyFn, ms, es);
  }

  /** Entries keyed by the dotted paths of the matches are tagged as the matches are, each with a non-nil record. */
  lemma TagsOfMatches(data: Value, pattern: seq<string>, keyFn: Value -> BucketName, ms: seq<(seq<string>, Value)>, es: seq<(Key, Value)>)
    requires ms == Matches(data, pattern)
    requires forall i :: 0 <= i < |ms| ==> SpellablePath(ms[i].0)
    requires |es| == |ms| && forall m :: 0 <= m < |es| ==> es[m] == (Name(Join(ms[m].0)), ms[m].1)
    ensures Tagged(data, pattern, keyFn, es) == MatchTags(data, pattern, keyFn)
    ensures forall i :: 0 <= i < |es| ==> !IsNil(Tagged(data, pattern, keyFn, es)[i].1)
  {
    var tags := Tagged(data, pattern, keyFn, es);
    forall m | 0 <= m < |es|
      ensures tags[m] == MatchTags(data, pattern, keyFn)[m] && !IsNil(tags[m].1)
    {
      RecordOfMatch(data, pattern, ms[m].0);
    }
    assert tags == MatchTags(data, pattern, keyFn);
  }

  // ---------------------------------------------------------------- only

  /** The second argument of `only`: a list of paths kept under their own spelling, or an object from new keys to paths. */
  datatype OnlyPaths = Names(names: seq<string>) | Renamed(table: seq<(string, PathArg)>)

  /** The object `only` reduces over: a list of names becomes an object mapping each name to itself. */
  function PathTable(paths: OnlyPaths): seq<(string, PathArg)> {
    match paths
    case Names(names) => AssignAll([], seq(|names|, i requires 0 <= i < |names| => (names[i], Text(names[i]))))
    case Renamed(table) => table
  }

  /** Each key of the table with what `get` reads at its path (undefined when missing). */
  function Reads(data: Value, table: seq<(string, PathArg)>): (r: seq<(string, Value)>)
    ensures |r| == |table|
    ensures forall i :: 0 <= i < |table| ==> r[i] == (table[i].0, Get(data, table[i].1, Undefined))
  {
    seq(|table|, i requires 0 <= i < |table| => (table[i].0, Get(data, table[i].1, Undefined)))
  }

  /** The reduce of `only` over the keys and what was read for them: a nil value is skipped unless `withMissing`, any other is set under its key. */
  function Assemble(picks: seq<(string, Value)>, withMissing: bool): Value {
    if picks == [] then Obj([])
    else
      var next := Assemble(picks[..|picks| - 1], withMissing);
      var entry := picks[|picks| - 1];
      if IsNil(entry.1) && !withMissing then next else Set(next, Text(entry.0), Literal(entry.1))
  }

  /** One more step of the reduce: the first `j + 1` keys are the first `j` followed by key `j`. */
  lemma AssembleSnoc(picks: seq<(string, Value)>, withMissing: bool, j: nat)
    requires j < |picks|
    ensures Assemble(picks[..j + 1], withMissing) ==
      if IsNil(picks[j].1) && !withMissing then Assemble(picks[..j], withMissing)
      else Set(Assemble(picks[..j], withMissing), Text(picks[j].0), Literal(picks[j].1))
  {
    assert picks[..j + 1][..j] == picks[..j];
  }

  /** What `only` returns. */
  function Picked(data: Value, paths: OnlyPaths, withMissing: bool): Value {
    Assemble(Reads(data, PathTable(paths)), withMissing)
  }

  /** The first reduce of `only`: each name of the list is assigned to itself. */
  method NameTable(names: seq<string>) returns (table: seq<(string, PathArg)>)
    ensures table == PathTable(Names(names))
  {
    ghost var pairs := seq(|names|, i requires 0 <= i < |names| => (names[i], Text(names[i])));
    table := [];
    var i := 0;
    while i < |names|
      invariant 0 <= i <= |names|
      invariant table == AssignAll([], pairs[..i])
    {
      assert pairs[..i + 1][..i] == pairs[..i];
      table := AssignKey(table, names[i], Text(names[i]));
      i := i + 1;
    }
    assert pairs[..|names|] == pairs;
  }

  /** `only`. */
  method Only(data: Value, paths: OnlyPaths, withMissing: bool) returns (r: Value)
    ensures r == Picked(data, paths, withMissing)
  {
    var table: seq<(string, PathArg)>;
    match paths {
      case Names(names) =>
        table := NameTable(names);
      case Renamed(t) =>
        table := t;
    }
    r := ReadAndAssemble(data, table, withMissing);
  }

  /** The second reduce of `only`: each key of the table is set to what `get` reads at its path, nil values skipped unless `withMissing`. */
  method ReadAndAssemble(data: Value, table: seq<(string, PathArg)>, withMissing: bool) returns (r: Value)
    ensures r == Assemble(Reads(data, table), withMissing)
  {
    ghost var picks := Reads(data, table);
    r := Obj([]);
    var j := 0;
    while j < |table|
      invariant 0 <= j <= |table|
      invariant r == Assemble(picks[..j], withMissing)
    {
      AssembleSnoc(picks, withMissing, j);
      var value := Get(data, table[j].1, Undefined);
      assert picks[j] == (table[j].0, value);
      if !(IsNil(value) && !withMissing) {
        r := Set(r, Text(table[j].0), Literal(value));
      }
      j := j + 1;
    }
    assert picks[..|table|] == picks;
  }

  /** A list of distinct names is read as the table mapping each name to itself, in order. */
  lemma NamesTable(names: seq<string>)
    requires forall i, j :: 0 <= i < j < |names| ==> names[i] != names[j]
    ensures PathTable(Names(names)) == seq(|names|, i requires 0 <= i < |names| => (names[i], Text(names[i])))
  {
    var pairs := seq(|names|, i requires 0 <= i < |names| => (names[i], Text(names[i])));
    assert [] + pairs == pairs;
    AssignAllFresh([], pairs);
  }

  /** What `only` stores under a key whose path reads `value`: nothing when nil and missing entries are dropped. */
  function Kept(value: Value, withMissing: bool): Option<Value> {
    if IsNil(value) && !withMissing then None else Some(value)
  }

  /**
   * With plain keys, the reduce builds a flat object: each key holds the value
   * read for it, is absent when that is nil and `withMissing` is off, and no
   * other key appears.
   */
  lemma AssembleFlat(picks: seq<(string, Value)>, withMissing: bool)
    requires UniqueKeys(picks) && forall i :: 0 <= i < |picks| ==> Spellable(picks[i].0)
    ensures Assemble(picks, withMissing).Obj?
    ensures UniqueKeys(Assemble(picks, withMissing).fields)
    ensures forall i :: 0 <= i < |picks| ==> Lookup(Assemble(picks, withMissing).fields, picks[i].0) == Kept(picks[i].1, withMissing)
    ensures forall k :: HasKey(Assemble(picks, withMissing).fields, k) ==> k in KeysOf(picks)
  {
    AssembleIsFlat(picks, withMissing);
    FlatPicksKept(picks, withMissing);
  }

  /** The flat reduce on fields alone: each pick assigned to its key in turn, nil ones skipped when dropped. */
  function FlatPicks(picks: seq<(string, Value)>, withMissing: bool): seq<(string, Value)> {
    if picks == [] then []
    else
      var fs := FlatPicks(picks[..|picks| - 1], withMissing);
      var entry := picks[|picks| - 1];
      if IsNil(entry.1) && !withMissing then fs else AssignKey(fs, entry.0, entry.1)
  }

  /** With plain keys, assembling is the flat reduce. */
  lemma {:induction false} AssembleIsFlat(picks: seq<(string, Value)>, withMissing: bool)
    requires forall i :: 0 <= i < |picks| ==> Spellable(picks[i].0)
    ensures Assemble(picks, withMissing) == Obj(FlatPicks(picks, withMissing))
  {
    if picks != [] {
      AssembleIsFlat(picks[..|picks| - 1], withMissing);
      AssembleLast(picks, withMissing);
    }
  }

  /** The flat reduce holds every kept pick under its key, and no other key. */
  lemma {:induction false} FlatPicksKept(picks: seq<(string, Value)>, withMissing: bool)
    requires UniqueKeys(picks)
    ensures UniqueKeys(FlatPicks(picks, withMissing))
    ensures forall i :: 0 <= i < |picks| ==> Lookup(FlatPicks(picks, withMissing), picks[i].0) == Kept(picks[i].1, withMissing)
    ensures forall k :: HasKey(FlatPicks(picks, withMissing), k) ==> k in KeysOf(picks)
  {
    if picks != [] {
      var pre := picks[..|picks| - 1];
      FlatPicksKept(pre, withMissing);
      KeptAfterStep(picks, FlatPicks(pre, withMissing), withMissing, FlatPicks(picks, withMissing));
    }
  }

  /** Onto an object, the last pick with a plain key is assigned to that key, or skipped when nil and dropped. */
  lemma AssembleLast(picks: seq<(string, Value)>, withMissing: bool)
    requires picks != [] && Assemble(picks[..|picks| - 1], withMissing).Obj? && Spellable(picks[|picks| - 1].0)
    ensures Assemble(picks, withMissing).Obj?
    ensures Assemble(picks, withMissing).fields ==
      var fs := Assemble(picks[..|picks| - 1], withMissing).fields;
      var entry := picks[|picks| - 1];
      if IsNil(entry.1) && !withMissing then fs else AssignKey(fs, entry.0, entry.1)
  {
    var entry := picks[|picks| - 1];
    if !(IsNil(entry.1) && !withMissing) {
      SetOneKey(Assemble(picks[..|picks| - 1], withMissing), entry.0, Literal(entry.1));
    }
  }

  /** One step of the flat reduce: the last pick is assigned, or skipped when nil and missing entries are dropped. */
  lemma KeptAfterStep(picks: seq<(string, Value)>, fs: seq<(string, Value)>, withMissing: bool, r: seq<(string, Value)>)
    requires picks != [] && UniqueKeys(picks) && UniqueKeys(fs)
    requires forall i :: 0 <= i < |picks| - 1 ==> Lookup(fs, picks[i].0) == Kept(picks[i].1, withMissing)
    requires forall k :: HasKey(fs, k) ==> k in KeysOf(picks[..|picks| - 1])
    requires r == if IsNil(picks[|picks| - 1].1) && !withMissing then fs else AssignKey(fs, picks[|picks| - 1].0, picks[|picks| - 1].1)
    ensures UniqueKeys(r)
    ensures forall i :: 0 <= i < |picks| ==> Lookup(r, picks[i].0) == Kept(picks[i].1, withMissing)
    ensures forall k :: HasKey(r, k) ==> k in KeysOf(picks)
  {
    var pre := picks[..|picks| - 1];
    var entry := picks[|picks| - 1];
    assert KeysOf(picks) == KeysOf(pre) + [entry.0];
    assert entry.0 !in KeysOf(pre);
    assert !HasKey(fs, entry.0);
    if !(IsNil(entry.1) && !withMissing) {
      AssignKeyKeepsUnique(fs, entry.0, entry.1);
      forall k | HasKey(r, k) ensures k in KeysOf(picks) {
        if k != entry.0 {
          assert Lookup(r, k) == Lookup(fs, k);
          assert HasKey(fs, k);
        }
      }
    }
  }

  /**
   * `only` with plain, distinct keys: the result is an object whose keys are
   * among the table's, each holding what `get` reads at its path unless that is
   * nil and missing entries are dropped.
   */
  lemma OnlyFlat(data: Value, paths: OnlyPaths, withMissing: bool)
    requires UniqueKeys(PathTable(paths)) && forall i :: 0 <= i < |PathTable(paths)| ==> Spellable(PathTable(paths)[i].0)
    ensures Picked(data, paths, withMissing).Obj?
    ensures UniqueKeys(Picked(data, paths, withMissing).fields)
    ensures forall i :: 0 <= i < |PathTable(paths)| ==>
      Lookup(Picked(data, paths, withMissing).fields, PathTable(paths)[i].0) == Kept(Get(data, PathTable(paths)[i].1, Undefined), withMissing)
    ensures forall k :: HasKey(Picked(data, paths, withMissing).fields, k) ==> k in KeysOf(PathTable(paths))
  {
    var table := PathTable(paths);
    var picks := Reads(data, table);
    assert KeysOf(picks) == KeysOf(table);
    AssembleFlat(picks, withMissing);
  }

  /** Any path can be written into an empty object or into undefined, and reads undefined there. */
  lemma {:induction false} FreshPath(path: seq<string>)
    ensures Writable(Obj([]), path) && Writable(Undefined, path)
    ensures Walk(Undefined, path) == Undefined && (path != [] ==> Walk(Obj([]), path) == Undefined)
    decreases |path|
  {
    if path != [] {
      FreshPath(path[1..]);
      assert Child(Obj([]), path[0]) == Undefined;
    }
  }

  /**
   * The reduce over the keys done so far, among the paths `ps` of all the keys,
   * which part ways pairwise: each key done so far leads to its value and each
   * later key reads undefined and can still be written.
   */
  lemma {:induction false} AssembleAmong(picks: seq<(string, Value)>, withMissing: bool, ps: seq<seq<string>>)
    requires |picks| <= |ps|
    requires forall i :: 0 <= i < |picks| ==> ps[i] == Normalize(Text(picks[i].0)) && picks[i].1 != Null
    requires forall i :: 0 <= i < |ps| ==> ps[i] != []
    requires forall i, j :: 0 <= i < j < |ps| ==> Diverge(ps[i], ps[j])
    ensures forall i :: 0 <= i < |picks| ==> Walk(Assemble(picks, withMissing), ps[i]) == picks[i].1
    ensures forall i :: |picks| <= i < |ps| ==>
      Walk(Assemble(picks, withMissing), ps[i]) == Undefined && Writable(Assemble(picks, withMissing), ps[i])
  {
    if picks == [] {
      forall i | 0 <= i < |ps|
        ensures Walk(Obj([]), ps[i]) == Undefined && Writable(Obj([]), ps[i])
      {
        FreshPath(ps[i]);
      }
    } else {
      var next := Assemble(picks[..|picks| - 1], withMissing);
      var entry := picks[|picks| - 1];
      AssembleAmong(picks[..|picks| - 1], withMissing, ps);
      if IsNil(entry.1) && !withMissing {
        assert Assemble(picks, withMissing) == next;
        assert entry.1 == Undefined;
        WrittenAmong(next, next, picks, ps);
      } else {
        AssembleWrite(picks, withMissing, ps, next);
        WrittenAmong(next, Assemble(picks, withMissing), picks, ps);
      }
    }
  }

  /** A step of the reduce that writes its key: it lands on its own path and leaves the others as they were. */
  lemma AssembleWrite(picks: seq<(string, Value)>, withMissing: bool, ps: seq<seq<string>>, next: Value)
    requires 0 < |picks| <= |ps| && next == Assemble(picks[..|picks| - 1], withMissing)
    requires !(IsNil(picks[|picks| - 1].1) && !withMissing)
    requires ps[|picks| - 1] == Normalize(Text(picks[|picks| - 1].0)) && Writable(next, ps[|picks| - 1])
    requires forall i, j :: 0 <= i < j < |ps| ==> Diverge(ps[i], ps[j])
    ensures Walk(Assemble(picks, withMissing), ps[|picks| - 1]) == picks[|picks| - 1].1
    ensures forall i :: 0 <= i < |ps| && i != |picks| - 1 ==> Walk(Assemble(picks, withMissing), ps[i]) == Walk(next, ps[i])
    ensures forall i :: 0 <= i < |ps| && i != |picks| - 1 && Writable(next, ps[i]) ==> Writable(Assemble(picks, withMissing), ps[i])
  {
    var entry := picks[|picks| - 1];
    assert Assemble(picks, withMissing) == Set(next, Text(entry.0), Literal(entry.1));
    SetAmong(next, Text(entry.0), Literal(entry.1), ps, |picks| - 1);
  }

  /** Bookkeeping of one step: the keys before the current one keep their values, and the later ones stay undefined and writable. */
  lemma WrittenAmong(next: Value, r: Value, picks: seq<(string, Value)>, ps: seq<seq<string>>)
    requires 0 < |picks| <= |ps|
    requires forall i :: 0 <= i < |picks| - 1 ==> Walk(next, ps[i]) == picks[i].1
    requires forall i :: |picks| - 1 <= i < |ps| ==> Walk(next, ps[i]) == Undefined && Writable(next, ps[i])
    requires Walk(r, ps[|picks| - 1]) == picks[|picks| - 1].1
    requires forall i :: 0 <= i < |ps| && i != |picks| - 1 ==> Walk(r, ps[i]) == Walk(next, ps[i])
    requires forall i :: 0 <= i < |ps| && i != |picks| - 1 && Writable(next, ps[i]) ==> Writable(r, ps[i])
    ensures forall i :: 0 <= i < |picks| ==> Walk(r, ps[i]) == picks[i].1
    ensures forall i :: |picks| <= i < |ps| ==> Walk(r, ps[i]) == Undefined && Writable(r, ps[i])
  {
  }

  /** `only` with keys whose dotted paths part ways pairwise: every key's path leads to what `get` reads at its source path. */
  lemma OnlyNested(data: Value, paths: OnlyPaths, withMissing: bool)
    requires forall i :: 0 <= i < |PathTable(paths)| ==> PathTable(paths)[i].0 != ""
    requires forall i, j :: 0 <= i < j < |PathTable(paths)| ==>
      Diverge(Normalize(Text(PathTable(paths)[i].0)), Normalize(Text(PathTable(paths)[j].0)))
    ensures forall i :: 0 <= i < |PathTable(paths)| ==>
      Walk(Picked(data, paths, withMissing), Normalize(Text(PathTable(paths)[i].0))) == Get(data, PathTable(paths)[i].1, Undefined)
  {
    ReadsAssembled(data, PathTable(paths), withMissing);
  }

  /** The reduce of `only` over a table whose keys' paths part ways pairwise. */
  lemma ReadsAssembled(data: Value, table: seq<(string, PathArg)>, withMissing: bool)
    requires forall i :: 0 <= i < |table| ==> table[i].0 != ""
    requires forall i, j :: 0 <= i < j < |table| ==> Diverge(Normalize(Text(table[i].0)), Normalize(Text(table[j].0)))
    ensures forall i :: 0 <= i < |table| ==>
      Walk(Assemble(Reads(data, table), withMissing), Normalize(Text(table[i].0))) == Get(data, table[i].1, Undefined)
  {
    var picks := Reads(data, table);
    var ps := seq(|table|, i requires 0 <= i < |table| => Normalize(Text(table[i].0)));
    ReadPathsApart(data, table, picks, ps);
    AssembleAmong(picks, withMissing, ps);
    forall i | 0 <= i < |table|
      ensures Walk(Assemble(picks, withMissing), Normalize(Text(table[i].0))) == Get(data, table[i].1, Undefined)
    {
      assert ps[i] == Normalize(Text(table[i].0));
      assert picks[i].1 == Get(data, table[i].1, Undefined);
    }
  }

  /** The key paths of a table whose keys part ways pairwise are non-empty and part ways, and what is read for them is never `null`. */
  lemma ReadPathsApart(data: Value, table: seq<(string, PathArg)>, picks: seq<(string, Value)>, ps: seq<seq<string>>)
    requires forall i :: 0 <= i < |table| ==> table[i].0 != ""
    requires forall i, j :: 0 <= i < j < |table| ==> Diverge(Normalize(Text(table[i].0)), Normalize(Text(table[j].0)))
    requires picks == Reads(data, table)
    requires |ps| == |table| && forall i :: 0 <= i < |table| ==> ps[i] == Normalize(Text(table[i].0))
    ensures forall i :: 0 <= i < |picks| ==> ps[i] == Normalize(Text(picks[i].0)) && picks[i].1 != Null
    ensures forall i :: 0 <= i < |ps| ==> ps[i] != []
    ensures forall i, j :: 0 <= i < j < |ps| ==> Diverge(ps[i], ps[j])
  {
    forall i | 0 <= i < |picks| ensures ps[i] == Normalize(Text(picks[i].0)) && picks[i].1 != Null {
      assert picks[i] == (table[i].0, Get(data, table[i].1, Undefined));
    }
    forall i | 0 <= i < |ps| ensures ps[i] != [] {
      assert ps[i] == Normalize(Text(table[i].0));
    }
    forall i, j | 0 <= i < j < |ps| ensures Diverge(ps[i], ps[j]) {
      assert ps[i] == Normalize(Text(table[i].0)) && ps[j] == Normalize(Text(table[j].0));
    }
  }

  // ---------------------------------------------------------------- getFirst

  /** `values.filter(v => v !== undefined)`: the defined values, in order. */
  function Defined(vs: seq<Value>): seq<Value> {
    if vs == [] then []
    else if vs[0] != Undefined then [vs[0]] + Defined(vs[1..])
    else Defined(vs[1..])
  }

  /**
   * Filtering keeps only defined values of the list; it is empty exactly when
   * all are undefined, and otherwise starts with the first defined one.
   */
  lemma {:induction false} DefinedFacts(vs: seq<Value>)
    ensures forall v :: v in Defined(vs) ==> v in vs && v != Undefined
    ensures Defined(vs) == [] <==> forall i :: 0 <= i < |vs| ==> vs[i] == Undefined
    ensures forall i :: 0 <= i < |vs| && vs[i] != Undefined && (forall j :: 0 <= j < i ==> vs[j] == Undefined) ==>
      Defined(vs) != [] && Defined(vs)[0] == vs[i]
  {
    if vs != [] {
      var tail := vs[1..];
      DefinedFacts(tail);
      assert forall i :: 1 <= i < |vs| ==> vs[i] == tail[i - 1];
      if vs[0] == Undefined {
        forall i | 0 <= i < |vs| && vs[i] != Undefined && (forall j :: 0 <= j < i ==> vs[j] == Undefined)
          ensures Defined(vs) != [] && Defined(vs)[0] == vs[i]
        {
          assert i > 0 && tail[i - 1] == vs[i];
          assert forall j :: 0 <= j < i - 1 ==> tail[j] == vs[j + 1];
        }
      }
    }
  }

  /** Filtering keeps order: filtering a concatenation filters each part in turn. */
  lemma {:induction false} DefinedConcat(a: seq<Value>, b: seq<Value>)
    ensures Defined(a + b) == Defined(a) + Defined(b)
  {
    if a == [] {
      assert a + b == b;
    } else {
      var rest := a[1..] + b;
      assert (a + b)[0] == a[0] && (a + b)[1..] == rest;
      DefinedConcat(a[1..], b);
      if a[0] != Undefined {
        var x, y := Defined(a[1..]), Defined(b);
        assert Defined(a + b) == [a[0]] + (x + y);
        assert Defined(a) == [a[0]] + x;
        assert [a[0]] + (x + y) == ([a[0]] + x) + y;
      } else {
        assert Defined(a + b) == Defined(rest);
        assert Defined(a) == Defined(a[1..]);
      }
    }
  }

  /** A single value is kept exactly when it is defined. */
  lemma DefinedOne(v: Value)
    ensures Defined([v]) == if v == Undefined then [] else [v]
  {
    assert [v][1..] == [];
  }

  /** `get(values, 0, defaultValue)` on a list: its first item, or the default when it is empty or that item is nil. */
  lemma FirstItem(items: seq<Value>, default: Value)
    ensures Get(Arr(items), Number(0), default) == if items == [] then default else DefaultsTo(items[0], default)
  {
    ParseNatToString(0);
    assert Normalize(Number(0)) == [NatToString(0)];
    assert Walk(Arr(items), [NatToString(0)]) == Child(Arr(items), NatToString(0));
  }

  /** What `get` reads at each path, undefined when missing. */
  function ReadEach(data: Value, paths: seq<PathArg>): (r: seq<Value>)
    ensures |r| == |paths|
    ensures forall i :: 0 <= i < |paths| ==> r[i] == Get(data, paths[i], Undefined)
    ensures forall i :: 0 <= i < |r| ==> r[i] == Undefined || !IsNil(r[i])
  {
    seq(|paths|, i requires 0 <= i < |paths| => Get(data, paths[i], Undefined))
  }

  /** `getFirst`: `get` at every path, the undefined results dropped, and the first one left read with the default. */
  function GetFirst(data: Value, paths: seq<PathArg>, default: Value): Value {
    Get(Arr(Defined(ReadEach(data, paths))), Number(0), default)
  }

  /** The first item of the defined values, read with a default, is the first defined value, or the default when there is none. */
  lemma FirstDefined(values: seq<Value>, default: Value)
    requires forall i :: 0 <= i < |values| ==> values[i] == Undefined || !IsNil(values[i])
    ensures (forall i :: 0 <= i < |values| ==> values[i] == Undefined) ==> Get(Arr(Defined(values)), Number(0), default) == default
    ensures forall i :: (0 <= i < |values| && values[i] != Undefined && forall j :: 0 <= j < i ==> values[j] == Undefined) ==>
      Get(Arr(Defined(values)), Number(0), default) == values[i]
  {
    var defined := Defined(values);
    DefinedFacts(values);
    FirstItem(defined, default);
    if defined != [] {
      assert defined[0] in values;
    }
  }

  /** When `get` finds nothing at any path (nil counts as nothing), `getFirst` returns the default. */
  lemma GetFirstNoneFound(data: Value, paths: seq<PathArg>, default: Value)
    requires forall i :: 0 <= i < |paths| ==> Get(data, paths[i], Undefined) == Undefined
    ensures GetFirst(data, paths, default) == default
  {
    FirstDefined(ReadEach(data, paths), default);
  }

  /** `getFirst` returns the value at the first path where `get` finds something (nil counts as nothing). */
  lemma GetFirstIsFirstFound(data: Value, paths: seq<PathArg>, default: Value, i: nat)
    requires i < |paths| && Get(data, paths[i], Undefined) != Undefined
    requires forall j :: 0 <= j < i ==> Get(data, paths[j], Undefined) == Undefined
    ensures GetFirst(data, paths, default) == Get(data, paths[i], Undefined)
  {
    FirstDefined(ReadEach(data, paths), default);
  }

  /** With one path, `getFirst` is `get` with the default. */
  lemma GetFirstOne(data: Value, path: PathArg, default: Value)
    ensures GetFirst(data, [path], default) == Get(data, path, default)
  {
    if Get(data, path, Undefined) == Undefined {
      GetFirstNoneFound(data, [path], default);
    } else {
      GetFirstIsFirstFound(data, [path], default, 0);
    }
  }
}
