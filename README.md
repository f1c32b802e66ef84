# datamix in Dafny

A model of `datamix`, a small JavaScript library for path addressing in nested
arrays and objects. It reads values with `get`, writes them copy-on-write with
`set`, expands `*` wildcards with `getAll`, `setAll` and `setWith`, and
flattens trees into dotted `{path: value}` objects with `plain`, `paths` and
`entries`. On top of these it offers the generic iteration helpers `reduce`,
`map`, `filter`, `keys` and `values`, the predicate matcher `match`, and the
aggregators `groupBy`, `only` and `getFirst`. All of the library is in
`src/datamix.js`.

How JavaScript data is represented:

- A JSON-like value is `Data.Value`. It is one of:
  - `Undefined` or `Null`, the two nil values;
  - a boolean, an integer or a string;
  - `Arr(seq<Value>)`;
  - `Obj(seq<(string, Value)>)`, an object's own properties in insertion order.
- `Data.WellFormed` says that no object holds the same key twice.
- A property lookup `data[needle]` is `Data.Child`. It reaches only:
  - an in-range array element, through a canonical decimal index (`"0"`, `"12"`, never `"01"`);
  - an object's own key.
- The argument a caller passes as a path is `Paths.PathArg`. It is one of:
  - a string;
  - an integer;
  - a boolean;
  - `null`;
  - `undefined`;
  - an array of segments.

  `Paths.Normalize` turns it into the segment list that the recursive functions walk.
- A callback is a Dafny function value:
  - `set`'s new value is `Access.NewValue`, which is `Literal(v)` or `Fn(f)`;
  - `match`'s predicate tree is `Matching.Spec`.

How the two kinds of code are modelled:

- Pure code is written as functions. This covers `normalizePath`, `get`, `match`, `size`, `defaultsTo` and `getFirst`.
- Code that fills an accumulator in a loop is written as a method with loop invariants. Each such method is proved equal to a specification function. This covers:
  - `reduce`, `map` and `filter`;
  - `getAll`'s recursion and `plain`'s recursion;
  - `setAll`, `setWith` and `entries`;
  - `groupBy` and `only`.
- Properties the library promises are lemmas about those specification functions. Examples:
  - what `get` finds after a `set`;
  - that every `getAll` entry is what `get` reads at its path;
  - that `plain` lists exactly the leaves of a tree.

`set` works on a fresh shallow copy of its input, so the input is never changed. Values are immutable here, so `Access.Set` is a plain function of the old value.

The tests `tests/get.test.js:7-8` and `tests/datamix.test.js:8-9` expect `get(data, null)` and `get(data, undefined)` to return `data`. The code differs: it maps `null` to the segment `"null"` and `undefined` to the segment `"undefined"` (src/datamix.js:44-50). The model follows the code, so `Normalize(NullPath) == ["null"]` and `Normalize(UndefinedPath) == ["undefined"]`.

## Model

| member | source | states |
|---|---|---|
| Decimal.ParseIndex | src/datamix.js:122-125 | a property key addresses an array element exactly when it is a canonical decimal numeral, and that element's index spells back to the key |
| Decimal.ParseNatToString | src/datamix.js:57-60 | the decimal spelling `String(n)` of any index reads back as that index |
| Decimal.CanonicalRoundTrip | src/datamix.js:122-125 | a canonical decimal index key is the spelling of the index it denotes |
| Decimal.NatToStringInjective | src/datamix.js:57-60 | distinct indices have distinct decimal spellings |
| Decimal.IntToString | src/datamix.js:57-60 | `String(n)` of an integer is non-empty and has no dot, so it is a single path segment; for n ≥ 0 it is the canonical numeral |
| Data.ArraysAreObjects | src/datamix.js:5-15 | `isArray` implies `isObject`, since an array is an `Object` too, and nothing `isObject` accepts is nil |
| Data.NilHasNoEntries | src/datamix.js:29-31 | `null` and `undefined`, like every value `isObject` rejects, have no own entries |
| Data.Copy | src/datamix.js:97-102 | `copy` is a shallow copy; values are immutable here, so it is the value itself |
| Data.Size | src/datamix.js:346-351 | `size` is defined exactly for arrays and objects and counts their own entries |
| Data.IsIterable | src/datamix.js:128-130 | true exactly for arrays and objects, never for nil |
| Data.DefaultsTo | src/datamix.js:474-476 | yields exactly the value itself when it is not nil, and exactly the default when it is nil |
| Data.Child | src/datamix.js:125 | `data[needle]` is the indexed element of an array for a canonical index below its length and undefined for any other key; on an object it is the value under an own key and undefined for a missing key; on nil and scalars it is undefined |
| Data.ChildOfEntry | src/datamix.js:143-145 | looking up the key of any own entry returns that entry's value |
| Data.EntryOf | src/datamix.js:143-145 | every own key of an array or object is the key of one own entry, and that entry holds `data[key]` |
| Data.EntrySegmentsDistinct | src/datamix.js:143-145 | the own keys an iteration visits are pairwise distinct |
| Fields.AssignKey | src/datamix.js:164 | after `object[key] = v` the key reads `v` and every other key reads as before; an existing key keeps its place, a new one is appended |
| Fields.AssignKeyKeepsUnique | src/datamix.js:164 | assigning a key never duplicates a key |
| Fields.AssignKeyTwice | src/datamix.js:164 | assigning one key twice is the same as assigning it the second value |
| Fields.AssignKeyCommute | src/datamix.js:164 | assignments to two different keys already present commute |
| Fields.AssignAllLookup | src/datamix.js:434 | after `Object.assign(target, source)` a key reads its last value in the source, or its old value when the source lacks it |
| Fields.AssignAllConcat | src/datamix.js:434 | merging a concatenation merges its two parts in turn |
| Fields.AssignAllKeepsUnique | src/datamix.js:434 | merging keeps the keys of the target unique |
| Fields.AssignAllFresh | src/datamix.js:434 | merging keys the target does not yet hold appends them in order |
| Fields.AssignAllRegroup | src/datamix.js:429-435 | merging an object built by merges equals merging its sources one after the other |
| Fields.MergeBuiltObject | src/datamix.js:429-435 | merging a `{}` built from a source is the same as merging the source itself |
| Paths.Split | src/datamix.js:63-65 | `split(".")` gives at least one dot-free piece, and joining the pieces with dots gives the string back |
| Paths.SplitJoin | src/datamix.js:63-65 | splitting the dotted join of dot-free segments gives the segments back |
| Paths.JoinInjective | src/datamix.js:416 | distinct dot-free segment lists have distinct dotted joins |
| Paths.Normalize | src/datamix.js:37-68 | `""` gives no segments; `null`, `undefined` and booleans give their one-word names; numbers give their decimal spelling; other strings are split on dots; a segment list is kept |
| Paths.NormalizeWord | src/datamix.js:44-60 | `null`, `undefined`, booleans and numbers normalise as their one-word spelling does |
| Paths.NormalizeJoin | src/datamix.js:37-68 | normalising the dotted join of dot-free segments gives them back, so normalising is idempotent on paths that can be spelled |
| Paths.IsWildcard | src/datamix.js:74-76 | a segment is a wildcard exactly when it is `"*"`; its uses are stated by `Paths.IndexOfWildcard` and `Paths.ContainsWildcard` |
| Paths.IndexOfWildcard | src/datamix.js:209 | `indexOf('*')` is the first wildcard position, or -1 exactly when there is none |
| Paths.ContainsWildcard | src/datamix.js:82-84 | true exactly when some segment is `"*"` |
| Iteration.Reduce | src/datamix.js:136-148 | the result is the left fold of the callback over the own entries, in order; nil and scalars give the initial value |
| Iteration.KeysFold | src/datamix.js:478-482 | concatenating each key in a reduce lists the keys in order |
| Iteration.Keys | src/datamix.js:478-482 | the own keys in iteration order, as many as `size` reports |
| Iteration.ValuesFold | src/datamix.js:484-488 | concatenating each value in a reduce lists the values in order |
| Iteration.Values | src/datamix.js:484-488 | the own values in iteration order |
| Iteration.KeysValuesZip | src/datamix.js:478-488 | `keys` and `values` line up into the own entries; for an array `values` is the array |
| Iteration.Map | src/datamix.js:156-170 | the loop over an object's keys builds the mapped object that the specification function gives |
| Iteration.Mapped | src/datamix.js:156-170 | the specification of `map`: an array maps item by item, an object assigns each own key its mapped value, other data is returned; `Iteration.MapEntries` states its meaning |
| Iteration.MapEntries | src/datamix.js:156-170 | `map` keeps the kind and the keys and replaces each value by the callback's result; nil and scalars come back unchanged |
| Iteration.KeepEntriesMembers | src/datamix.js:185-190 | an entry is kept exactly when it is an entry of the input and the callback accepts it |
| Iteration.KeepEntriesConcat | src/datamix.js:185-190 | filtering a concatenation filters each part |
| Iteration.Filter | src/datamix.js:178-194 | the loop over an object's keys builds the filtered object the specification function gives |
| Iteration.Filtered | src/datamix.js:178-194 | the specification of `filter`: an array keeps its accepted items, an object its accepted keys, other data is returned; `Iteration.FilterEntries` states its meaning |
| Iteration.FilterEntries | src/datamix.js:178-194 | a filtered object holds exactly the accepted entries in order; nil and scalars come back unchanged |
| Access.Get | src/datamix.js:108-126 | `get` yields what the walk along the normalised path reaches unless that is nil, in which case it yields `notFoundValue`; nil data gives the default, an empty path gives the data |
| Access.WalkAppend | src/datamix.js:121-125 | walking a path in two pieces is walking the whole |
| Access.GetAfterPrefix | src/datamix.js:121-125 | reading the rest of a path from what its prefix found equals reading the whole path |
| Access.Put | src/datamix.js:287 | `data[needle] = child` sets that key of an object or an index up to the array's length and leaves every other key alone; a scalar is left as it is |
| Access.Set | src/datamix.js:262-291 | an empty path yields the new value or the callback applied to the data; nil data turns into an object, never an array; only the first key changes, arrays grow by at most one, writes into scalars are dropped |
| Access.SetWalk | src/datamix.js:262-291 | on a writable path the value reached after `set` is the new leaf: the literal, or the callback applied to the old leaf |
| Access.SetThenGet | src/datamix.js:262-291 | `get(set(D, P, V), P)` is `V`, with the default standing in when `V` is nil |
| Access.SetFnThenGet | src/datamix.js:269-275 | with a callback, `get` afterwards finds the callback applied to the old leaf |
| Access.PresentIsWritable | src/datamix.js:282-287 | a path that already leads to a value can be written |
| Access.SetDivergent | src/datamix.js:287 | any path that branches off the written path reads the same before and after `set` |
| Access.SetKeepsSiblings | src/datamix.js:282-287 | every sibling key at every level along the written path keeps its content |
| Access.WritableAfterSet | src/datamix.js:282-287 | writing one path leaves every diverging writable path writable |
| Access.DistinctSameLengthDiverge | src/datamix.js:262-291 | two distinct paths of equal length branch apart |
| Access.SetEachAmong | src/datamix.js:452-454 | folding `set` over the first writes of a list of pairwise diverging writable paths leaves each written path holding its new leaf and every later one untouched and still writable |
| Access.SetEachWrites | src/datamix.js:452-454 | folding `set` over pairwise diverging writable paths leaves every one holding its new leaf |
| Access.SetEachKeeps | src/datamix.js:452-454 | folding `set` leaves every path that diverges from all the written ones untouched |
| Wildcards.Matches | src/datamix.js:404-444 | every match has as many segments as the pattern, agrees with it at every non-`*` segment, is reached by walking the data and holds a non-nil value; `Wildcards.MatchesComplete` gives the converse |
| Wildcards.MatchesComplete | src/datamix.js:408-436 | every path that fits the pattern and walks to a non-nil value is a match with that value |
| Wildcards.MatchesUnderHas | src/datamix.js:424-435 | a match found below any one own entry of a wildcard level is among the level's matches |
| Wildcards.MergeIntoLookup | src/datamix.js:429-435 | after merging one branch's result, a key reads its last value in the branch's object, or its old value when the branch lacks it; a branch that found nothing leaves the accumulator unchanged |
| Wildcards.Collect | src/datamix.js:408-436 | the recursive object built by `getAll` is undefined or an object; `Wildcards.CollectIsMatches` states its contents |
| Wildcards.Gathered | src/datamix.js:404-444 | with `withPaths` the result is undefined or an object; without it an array with one value per entry of that object |
| Wildcards.GetAllRec | src/datamix.js:408-436 | the recursive loop builds the `{path: value}` object the specification function gives |
| Wildcards.GetAll | src/datamix.js:404-444 | `getAll` returns that object with `withPaths` and its values in order without |
| Wildcards.CollectIsMatches | src/datamix.js:408-436 | the object built is the merge of the matches labelled by their dotted paths, in depth-first order; on nil data it is undefined and there are no matches |
| Wildcards.Lead | src/datamix.js:419-426 | the segments before the first `*`, the whole pattern when there is none: a prefix of the pattern, with no `*` in it, followed by `*` when shorter |
| Wildcards.CollectUndefined | src/datamix.js:408-436 | `getAllRec` returns undefined exactly when walking the segments before the first `*` reaches nil; from a wildcard level on it builds an object, possibly empty |
| Wildcards.MatchesSpellable | src/datamix.js:416 | when keys and the pattern hold no dots, every matched path can be spelled |
| Wildcards.MatchesDistinct | src/datamix.js:404-444 | no two matches share a path |
| Wildcards.LabelsDistinct | src/datamix.js:416 | no two matches share a dotted label |
| Wildcards.MatchLabelReadsBack | src/datamix.js:108-126 | `get` on the dotted label of a matched path returns the matched value |
| Wildcards.GatheredPaths | src/datamix.js:404-444 | when keys and the pattern hold no dots, the object built is exactly the labelled matches, each once |
| Wildcards.GatheredComplete | src/datamix.js:404-444 | when keys and the pattern hold no dots, every path that fits the pattern and walks to a non-nil value appears in `getAll(data, path, true)` under its dotted label with that value |
| Wildcards.LabelIn | src/datamix.js:416 | each match appears, labelled by its dotted path, among the labelled matches |
| Wildcards.LabelValues | src/datamix.js:440-443 | the values of the labelled matches are the matched values in order |
| Wildcards.LabelsUnique | src/datamix.js:416 | distinct spellable paths give distinct dotted labels, so merging them adds each once in order |
| Wildcards.GatheredExact | src/datamix.js:404-444 | with `withPaths` the result holds exactly the labelled matches in depth-first order, without it exactly their values in that order |
| Wildcards.GatheredEntriesAreGets | src/datamix.js:404-444 | every entry `p ↦ v` of `getAll(data, path, true)` has non-nil `v` with `get(data, p) == v` |
| Wildcards.GatheredNil | src/datamix.js:410-412 | nil data gives `undefined` with paths and `[]` without |
| Wildcards.SetAll | src/datamix.js:449-455 | the loop folds `set` over the keys of `getAll(data, path, true)`, starting from the data |
| Wildcards.AllUpdated | src/datamix.js:449-455 | the specification of `setAll`, folding `set` over the keys `getAll` finds; `Wildcards.SetAllWritesEveryMatch`, `Wildcards.SetAllKeepsOthers` and `Wildcards.SetAllNoMatch` state its meaning |
| Wildcards.MatchWrites | src/datamix.js:449-455 | `setAll` writes one path per match, each normalising to the match's path, writable and reached by walking; the matched paths branch apart |
| Wildcards.SetAllWritesEveryMatch | src/datamix.js:449-455 | afterwards every matched path holds the new value, or the callback applied to the old one |
| Wildcards.SetAllKeepsOthers | src/datamix.js:449-455 | every path that branches off all matches reads as before |
| Wildcards.SetAllNoMatch | src/datamix.js:449-455 | with no match the data comes back unchanged |
| Wildcards.PairTable | src/datamix.js:462-467 | the loop turns a `[path, value]` list into the object that keeps each path's last value |
| Wildcards.ApplyTable | src/datamix.js:469-471 | the loop folds `set` over the table's entries in order |
| Wildcards.SetWith | src/datamix.js:460-472 | the loop folds `set` over the path table, a pair list first turned into an object |
| Wildcards.SetWithLastWins | src/datamix.js:462-467 | in a `[path, value]` list the last pair for a path decides its value |
| Wildcards.SetWithWritesEveryPath | src/datamix.js:469-471 | for pairwise diverging writable paths, every path holds its new value afterwards |
| Wildcards.SetWithKeepsOthers | src/datamix.js:469-471 | every path that branches off all written paths reads as before |
| Flatten.LeavesHeads | src/datamix.js:494-518 | every leaf path has at least one segment, and its first segment is an own key of the data; `Flatten.LeavesComplete` gives the converse |
| Flatten.LeavesComplete | src/datamix.js:494-518 | every route of own keys that descends at each inner step and ends at a value not descended into is a leaf with that value |
| Flatten.RouteRest | src/datamix.js:499-516 | a route of two or more keys descends into its first child and continues as a route from there |
| Flatten.LeavesUnderHas | src/datamix.js:496-518 | a leaf found below any one own entry is among the leaves of the whole reduce |
| Flatten.LeavesSettled | src/datamix.js:499-516 | no leaf value is descended into: it is a scalar, nil, an empty container, or an array when arrays are not traversed |
| Flatten.PlainStep | src/datamix.js:496-518 | one reduce step stores the value under its joined path or merges the sub-branch's object; applied to the object built so far it yields the object after one more entry |
| Flatten.PlainRec | src/datamix.js:492-519 | the recursive loop builds the flat object the specification function gives |
| Flatten.Flat | src/datamix.js:492-519 | the specification of `plainRec`, the reduce over all own entries; `Flatten.FlatIsLeaves` states its contents |
| Flatten.Plain | src/datamix.js:490-523 | `plain` returns that flat object |
| Flatten.FlatIsLeaves | src/datamix.js:494-518 | the flat object is the merge of the leaves labelled by their dotted paths, in depth-first order |
| Flatten.LeavesFound | src/datamix.js:494-518 | walking the data along each leaf path reaches the leaf's value |
| Flatten.LeavesDistinct | src/datamix.js:494-518 | no two leaves share a path |
| Flatten.PlainExact | src/datamix.js:490-523 | when keys hold no dots, `plain` lists exactly the labelled leaves, each key once |
| Flatten.PlainComplete | src/datamix.js:490-523 | when keys hold no dots, every leaf route appears in `plain` under its dotted label with the value it reaches |
| Flatten.PlainEntriesAreGets | src/datamix.js:490-523 | every entry `k ↦ v` of `plain` has `get(data, k)` reading `v` |
| Flatten.LeafPaths | src/datamix.js:525-527 | `paths` has one key per entry of `plain` |
| Flatten.LeafPathsExact | src/datamix.js:525-527 | `paths` lists the dotted leaf paths in order, each once |
| Flatten.PushEntries | src/datamix.js:531-535 | pushing every `[key, value]` pair reproduces the own entries in order |
| Flatten.Entries | src/datamix.js:529-539 | the loop yields the own entries when not deep and `plain`'s entries when deep |
| Matching.ResolveDispatch | src/datamix.js:230-234 | a plain path reads what `get` finds there; a wildcard path reads the array of `getAll` values |
| Matching.All | src/datamix.js:237 | `and` is true exactly when every element is |
| Matching.AllConcat | src/datamix.js:237 | `and` of a concatenation is the conjunction of the parts |
| Matching.MatchPairs | src/datamix.js:239-243 | a list of `[path, spec]` pairs matches exactly when every spec matches what its path resolves to; the empty list matches anything |
| Matching.MatchFields | src/datamix.js:245-249 | an object spec matches exactly when every spec matches what its key path resolves to |
| Matching.Match | src/datamix.js:228-256 | the specification of `match`: pairs and objects of clauses combine by `and`, a literal compares with `==`, a callback is applied; `Matching.MatchPairs` and `Matching.MatchFields` state its meaning |
| Matching.FieldsAsPairs | src/datamix.js:239-249 | an object spec means the same as the list of its entries |
| Matching.MatchPairsConcat | src/datamix.js:239-243 | clause lists combine by conjunction, in either order |
| Matching.MatchPlainClause | src/datamix.js:228-256 | a single literal clause on a plain path holds exactly when `get` finds that literal there |
| Matching.MatchAfterSet | src/datamix.js:228-256 | after a non-nil literal is set at a writable plain path, the clause expecting it there matches |
| Aggregate.SetOneKey | src/datamix.js:282-287 | `set` on a one-segment path into an object assigns that key to the new leaf |
| Aggregate.CommonSize | src/datamix.js:209-210 | the common prefix length is 0 exactly when the pattern has no wildcard, and otherwise ends at the first wildcard |
| Aggregate.Take | src/datamix.js:213 | `slice(0, n)` is a prefix of length n, or exactly the whole list when n reaches its length |
| Aggregate.GroupBy | src/datamix.js:199-223 | the loop folds the bucket update over the `getAll` entries |
| Aggregate.Grouped | src/datamix.js:199-223 | the specification of `groupBy`, the fold of the bucket update over the `getAll` entries; `Aggregate.GroupsAreBuckets` and `Aggregate.GroupedByMatches` state its meaning |
| Aggregate.Push | src/datamix.js:207-219 | the bucket update makes a missing bucket `[record]` and appends the record to an existing array bucket |
| Aggregate.GroupStepAssigns | src/datamix.js:206-219 | one step assigns the key's bucket, pushed with the record |
| Aggregate.PushIntoSlot | src/datamix.js:207-217 | pushing into a bucket holding some records, or into a missing one, yields those records plus the new one |
| Aggregate.GroupsAreBuckets | src/datamix.js:202-220 | the groups object has unique keys and each key holds exactly the records tagged with it, in order; untagged keys are absent |
| Aggregate.RecordWithoutWildcard | src/datamix.js:209-214 | with no wildcard the record is the whole data |
| Aggregate.RecordOfMatch | src/datamix.js:209-214 | the record for a matched path is the value at its prefix up to the first wildcard, never nil |
| Aggregate.Tagged | src/datamix.js:206-214 | each `getAll` entry is paired with its key function value and its common-prefix record |
| Aggregate.TaggedAreMatchTags | src/datamix.js:199-214 | the tagged records are, match by match in `getAll` order, the key function value and the non-nil prefix record of each match |
| Aggregate.GroupedByMatches | src/datamix.js:199-223 | each bucket holds, in `getAll` order, the common-prefix record of every match whose key function value names it |
| Aggregate.NameTable | src/datamix.js:369-373 | the loop turns a list of names into the `{name: name}` table |
| Aggregate.NamesTable | src/datamix.js:369-373 | for distinct names the table lists each name under itself, in order |
| Aggregate.Only | src/datamix.js:367-385 | the loop folds `set(next, key, get(data, path))` over the table, skipping nil values when `withMissing` is off |
| Aggregate.Picked | src/datamix.js:367-385 | the specification of `only`, assembling what `get` reads for each table entry; `Aggregate.OnlyFlat` and `Aggregate.OnlyNested` state its meaning |
| Aggregate.AssembleFlat | src/datamix.js:376-384 | with distinct plain keys each key holds its value, or is absent when nil and skipped, and no other key appears |
| Aggregate.OnlyFlat | src/datamix.js:376-384 | the result of `only` with plain keys holds `get(data, path)` under each key, skipping nil ones when `withMissing` is off, and no other key |
| Aggregate.Reads | src/datamix.js:377 | each table entry is paired with what `get` reads at its path |
| Aggregate.ReadAndAssemble | src/datamix.js:376-384 | the loop folds `set` over the values read, skipping nil ones when `withMissing` is off |
| Aggregate.ReadsAssembled | src/datamix.js:376-384 | with non-empty key paths that branch apart, walking the result along each key's path finds what `get` read for it |
| Aggregate.OnlyNested | src/datamix.js:376-384 | with dotted keys whose paths branch apart, walking the result along each key's path finds `get(data, path)` |
| Aggregate.DefinedFacts | src/datamix.js:395 | dropping undefined values keeps only values of the list, none undefined; the result is empty exactly when all are undefined, and otherwise starts with the first defined one |
| Aggregate.DefinedConcat | src/datamix.js:395 | filtering a concatenation filters each part and concatenates the results, so the defined values keep their order |
| Aggregate.DefinedOne | src/datamix.js:395 | a single value is dropped exactly when it is undefined |
| Aggregate.ReadEach | src/datamix.js:392 | the list of `get` results, one per path, each undefined or non-nil |
| Aggregate.FirstItem | src/datamix.js:398 | `get(values, 0, default)` is the first value unless it is nil or the list is empty |
| Aggregate.FirstDefined | src/datamix.js:395-398 | after dropping undefined values, `get(values, 0, default)` is the first defined value, or the default when there is none |
| Aggregate.GetFirst | src/datamix.js:390-399 | the specification of `getFirst`, reading item 0 of the defined `get` results with the default; `Aggregate.GetFirstIsFirstFound` and `Aggregate.GetFirstNoneFound` state its meaning |
| Aggregate.GetFirstIsFirstFound | src/datamix.js:390-399 | `getFirst` returns the value of the first path `get` finds |
| Aggregate.GetFirstNoneFound | src/datamix.js:390-399 | `getFirst` returns the default when `get` finds nothing at any path |
| Aggregate.GetFirstOne | src/datamix.js:390-399 | `getFirst` with a single path is `get` with that path and default |

## Left out

- `each`, `eachSync`, `eachAsync`, `tap`, `deferData` and `parseJson` are not modelled. They are side-effect, asynchronous or `JSON.parse` wrappers. `tap` appears only as plain function application inside `groupBy`.
- `isFunction` is not modelled as a value test. Callbacks are Dafny function values, kept apart from data by the `NewValue` and `Spec` datatypes.
- Numbers are integers only. Floating point, `NaN` and number keys with a fraction or an exponent are not modelled. Array indices are unbounded rather than capped at 2^32 - 2.
- Strings are scalars. `data[needle]` can reach a string's characters or `length`, and a for-in loop can visit a string's characters. Neither is modelled. Inherited properties such as `length` are not modelled either: `Child` reaches own keys only.
- `Access.Put` does not model a write past an array's end, which creates holes in JavaScript. A named key written on an array is not modelled either; JavaScript adds it as an extra property. The model drops both writes.
- Objects enumerate their keys in insertion order. JavaScript lists integer-like keys first, in ascending order. This affects `reduce`, `getAll`, `plain`, `paths` and `setWith`.
- The callbacks of `reduce`, `map` and `filter` receive the value and the key only. Their third argument (the container) and `reduce`'s fourth are not passed.
- `Data.Copy` is the identity. Values are immutable here, so the aliasing that `copy` guards against does not arise.
- Aggregate.GroupBy: the key function must return a non-empty, dot-free string (`BucketName`). As a result:
  - the default key function `v => v` is not modelled;
  - non-string keys are not modelled;
  - keys that `set` would split into nested paths are not modelled.
- Aggregate.Push: on a bucket that is not an array it leaves the bucket unchanged, whereas JavaScript would throw. In the model, `BucketName` keys always lead to an array bucket, so this branch is never taken. The library differs for bucket names that are inherited properties of `Object.prototype`:
  - for `"toString"`, `"constructor"`, `"valueOf"` and the like, `groups[name]` is an inherited function, which `copy` and `defaultsTo` pass through unchanged (src/datamix.js:13-15, 97-102, 474-476), so `entries.push` throws a `TypeError` (src/datamix.js:217);
  - for `"__proto__"`, the bucket is a copy of `Object.prototype`, an empty object without `push`, and the call throws the same way;
  - the model's `Child` sees own keys only, so for these names its `groupBy` starts a fresh bucket and succeeds where JavaScript throws.
- Matching.Match: a `Test` callback returns a boolean, standing for the `Boolean(...)` truthiness at src/datamix.js:252. A `Spec` literal is a scalar compared with `==`. A literal array or object is never equal under `===` to any value `get` can return, unless it is the very same object.
- Aggregate.GetFirst: paths are a Dafny list. An object of paths is not modelled.
- Aggregate.Only: a `Names` list holds strings. Non-string array elements used as keys are not modelled.
- Paths.Normalize: a segment list is kept as it is. Its segments are strings, so a number inside a path array is written as its decimal string.
- Several lemmas carry preconditions the source states nowhere. Some exclude only inputs where the stated property fails in JavaScript too; others are stronger than that:
  - `WellFormed`: no duplicate keys. Without it a later duplicate shadows an earlier one, as in JavaScript.
  - `Diverge`: written paths branch apart, so that one write does not overwrite another. JavaScript fails the stated property here too.
  - `SpellableKeys` and `SpellablePath`: every key is non-empty and has no dot. The ban on dots is needed: a key holding a dot gives a dotted label that does not read back. The non-empty part is stronger than needed: a key `""` inside a path such as `"a..b"` does read back in JavaScript.
  - `Writable`: every intermediate is a container or nil, and every array index is canonical and at most the array's length. This is stronger than JavaScript: `set([], "1", 5)` leaves a hole at index 0 and then reads 5 back at `"1"`, and a named key on an array becomes a property there. The model's `Access.Put` drops both writes, so the lemmas exclude them.
- The tests `tests/get.test.js:7-8` and `tests/datamix.test.js:8-9` expect `get(data, null)` and `get(data, undefined)` to return `data`. They contradict the code, which maps `null` to the segment `"null"` and `undefined` to the segment `"undefined"` (src/datamix.js:44-50). The model follows the code.
- The tests `tests/datamix.test.js:334-459` and `tests/datamix.test.js:537-559` call unexported `_get`-style names. They exercise nothing beyond the exported functions.
- Iteration.Filter and Iteration.Filtered: the `keep` callback returns a boolean. It stands for the truthiness of the callback's result at src/datamix.js:180 and src/datamix.js:186; other truthy and falsy values are not modelled.
- Wildcards.SetWith: each path in a list of pairs is a string. When JavaScript builds the pairs object (src/datamix.js:464), `paths[path] = value` turns an array path such as `["a", "b"]` into the key `"a,b"`. That conversion is not modelled.
- The unreachable `return data` after `groupBy`'s reduce (src/datamix.js:222) has no counterpart.
