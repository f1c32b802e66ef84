/**
 * The data the library walks: JavaScript's undefined, null, booleans, integer
 * numbers, strings, arrays and plain objects, with the structural classifier
 * (isNil, isArray, isObject, size, isIterable), copy and defaultsTo.
 */
module Data {
  import opened Wrappers
  import opened Decimal
  import opened Fields

  /** An own enumerable key as iteration hands it out: a number for arrays, a string for objects. */
  datatype Key = Index(i: nat) | Name(s: string)

  datatype Value =
    | Undefined
    | Null
    | Bool(b: bool)
    | Num(n: int)
    | Str(s: string)
    | Arr(items: seq<Value>)
    | Obj(fields: seq<(string, Value)>)

  /** Values that are neither arrays nor objects: a predicate literal compares with them. */
  type Scalar = v: Value | !(v.Arr? || v.Obj?) witness Undefined

  /** `isNil`: undefined or null. */
  predicate IsNil(v: Value)
  {
    v.Undefined? || v.Null?
  }

  /** `isArray`: `data instanceof Array`. */
  predicate IsArray(v: Value)
  {
    v.Arr?
  }

  /** `isObject`: `data instanceof Object`, which arrays are too. */
  predicate IsObject(v: Value)
  {
    v.Arr? || v.Obj?
  }

  /** The own enumerable entries of a value, in iteration order; nil and scalars have none. */
  function OwnEntries(v: Value): seq<(Key, Value)> {
    match v
    case Arr(items) => seq(|items|, i requires 0 <= i < |items| => (Index(i), items[i]))
    case Obj(fields) => seq(|fields|, i requires 0 <= i < |fields| => (Name(fields[i].0), fields[i].1))
    case _ => []
  }

  /** Every array is an object in the sense of `isObject`, and no object is nil. */
  lemma ArraysAreObjects(v: Value)
    ensures IsArray(v) ==> IsObject(v)
    ensures IsObject(v) ==> !IsNil(v)
  {
  }

  /** `undefined` and `null` have no own entries, and neither has any value that is not an object. */
  lemma NilHasNoEntries(v: Value)
    ensures IsNil(v) ==> OwnEntries(v) == []
    ensures !IsObject(v) ==> OwnEntries(v) == []
  {
  }

  /** `size`: the element or key count of an array or object, absent for anything else. */
  function Size(v: Value): (r: Option<nat>)
    ensures r.Some? <==> IsObject(v)
    ensures r.Some? ==> r.value == |OwnEntries(v)|
  {
    match v
    case Arr(items) => Some(|items|)
    case Obj(fields) => Some(|fields|)
    case _ => None
  }

  /** `isIterable`: the size is defined, which holds of arrays and objects only, never of nil. */
  function IsIterable(v: Value): (r: bool)
    ensures r <==> (v.Arr? || v.Obj?)
    ensures r ==> !IsNil(v)
  {
    Size(v) != None
  }

  /**
   * `copy`: a shallow copy. Values here are immutable, so the copy is the value
   * itself and writing into it can never reach the original.
   */
  function Copy(v: Value): (r: Value)
    ensures r == v
  {
    v
  }

  /** `defaultsTo`: the value unless it is nil. */
  function DefaultsTo(v: Value, default: Value): (r: Value)
    ensures r == v || r == default
    ensures IsNil(r) ==> IsNil(default)
    ensures !IsNil(v) ==> r == v
    ensures IsNil(v) ==> r == default
  {
    if IsNil(v) then default else v
  }

  /** A key as it appears inside a joined path: indices are spelled in decimal. */
  function KeySegment(k: Key): string {
    match k
    case Index(i) => NatToString(i)
    case Name(s) => s
  }

  /** `data[key]` restricted to own keys: an in-range canonical index of an array, or an object key. */
  function Child(v: Value, key: string): (r: Value)
    ensures v.Arr? && ParseIndex(key).Some? && ParseIndex(key).value < |v.items| ==> r == v.items[ParseIndex(key).value]
    ensures v.Arr? && (ParseIndex(key).None? || ParseIndex(key).value >= |v.items|) ==> r == Undefined
    ensures v.Obj? && HasKey(v.fields, key) ==> r == Lookup(v.fields, key).value
    ensures v.Obj? && !HasKey(v.fields, key) ==> r == Undefined
    ensures !IsObject(v) ==> r == Undefined
  {
    match v
    case Arr(items) =>
      (match ParseIndex(key)
       case Some(i) => if i < |items| then items[i] else Undefined
       case None => Undefined)
    case Obj(fields) =>
      (match Lookup(fields, key)
       case Some(x) => x
       case None => Undefined)
    case _ => Undefined
  }

  /** Objects at every depth hold each key once, as JavaScript objects do. */
  ghost predicate WellFormed(v: Value) {
    match v
    case Arr(items) => forall i :: 0 <= i < |items| ==> WellFormed(items[i])
    case Obj(fields) => UniqueKeys(fields) && forall i :: 0 <= i < |fields| ==> WellFormed(fields[i].1)
    case _ => true
  }

  /** A key that a dotted path can spell: not empty and without a dot. */
  predicate Spellable(k: string) {
    k != "" && '.' !in k
  }

  /** Every object key at every depth can be spelled in a dotted path. */
  ghost predicate SpellableKeys(v: Value) {
    match v
    case Arr(items) => forall i :: 0 <= i < |items| ==> SpellableKeys(items[i])
    case Obj(fields) => forall i :: 0 <= i < |fields| ==> Spellable(fields[i].0) && SpellableKeys(fields[i].1)
    case _ => true
  }

  /** The path segments the given entries' keys spell. */
  function KeySegmentsOf(es: seq<(Key, Value)>): seq<string> {
    seq(|es|, i requires 0 <= i < |es| => KeySegment(es[i].0))
  }

  /** Every key segment of a value's entries can be spelled in a dotted path. */
  lemma EntrySegmentsSpellable(v: Value)
    requires SpellableKeys(v)
    ensures forall i :: 0 <= i < |OwnEntries(v)| ==> Spellable(KeySegment(OwnEntries(v)[i].0))
  {
    var es := OwnEntries(v);
    forall i | 0 <= i < |es| ensures Spellable(KeySegment(es[i].0)) {
      if v.Arr? {
        var s := NatToString(i);
        assert forall c :: c in s ==> IsDigit(c);
      }
    }
  }

  /** Distinct entries of a value spell distinct key segments. */
  lemma EntrySegmentsDistinct(v: Value)
    requires v.Obj? ==> UniqueKeys(v.fields)
    ensures forall i, j :: 0 <= i < j < |OwnEntries(v)| ==> KeySegment(OwnEntries(v)[i].0) != KeySegment(OwnEntries(v)[j].0)
  {
    var es := OwnEntries(v);
    forall i, j | 0 <= i < j < |es| ensures KeySegment(es[i].0) != KeySegment(es[j].0) {
      if v.Arr? && NatToString(i) == NatToString(j) {
        NatToStringInjective(i, j);
      }
    }
  }

  /** Whatever an own key leads to inherits well-formedness. */
  lemma ChildWellFormed(v: Value, key: string)
    requires WellFormed(v)
    ensures WellFormed(Child(v, key))
  {
    if v.Obj? && HasKey(v.fields, key) {
      LookupFound(v.fields, key);
    }
  }

  /** Whatever an own key leads to inherits spellable keys. */
  lemma ChildSpellable(v: Value, key: string)
    requires SpellableKeys(v)
    ensures SpellableKeys(Child(v, key))
  {
    if v.Obj? && HasKey(v.fields, key) {
      LookupFound(v.fields, key);
    }
  }

  /** Reading back an entry's key gives the entry's value: `data[key]` inside a reduce over data. */
  lemma {:induction false} ChildOfEntry(v: Value, i: nat)
    requires i < |OwnEntries(v)|
    requires v.Obj? ==> UniqueKeys(v.fields)
    ensures Child(v, KeySegment(OwnEntries(v)[i].0)) == OwnEntries(v)[i].1
  {
    if v.Arr? {
      ParseNatToString(i);
    } else {
      LookupUnique(v.fields, i);
    }
  }

  /** `key` names an own property of `v`: an in-range canonical index of an array, or a key of an object. */
  predicate OwnKey(v: Value, key: string) {
    || (v.Arr? && ParseIndex(key).Some? && ParseIndex(key).value < |v.items|)
    || (v.Obj? && HasKey(v.fields, key))
  }

  /**
   * The entry an own key reads: one whose key spells `key` and whose value is
   * what `data[key]` finds (for an object, the first entry with that key).
   */
  function EntryOf(v: Value, key: string): (m: nat)
    requires OwnKey(v, key)
    ensures m < |OwnEntries(v)| && KeySegment(OwnEntries(v)[m].0) == key && OwnEntries(v)[m].1 == Child(v, key)
  {
    if v.Arr? then ParseIndex(key).value
    else
      LookupAtKeyIndex(v.fields, key);
      KeyIndex(v.fields, key)
  }

  lemma {:induction false} LookupUnique<T>(fs: seq<(string, T)>, i: nat)
    requires i < |fs| && UniqueKeys(fs)
    ensures Lookup(fs, fs[i].0) == Some(fs[i].1)
  {
    if i > 0 {
      assert UniqueKeys(fs[1..]) by {
        forall a, b | 0 <= a < b < |fs[1..]| ensures fs[1..][a].0 != fs[1..][b].0 {
          assert fs[1..][a] == fs[a + 1] && fs[1..][b] == fs[b + 1];
        }
      }
      LookupUnique(fs[1..], i - 1);
      assert fs[1..][i - 1] == fs[i];
    }
  }
}
