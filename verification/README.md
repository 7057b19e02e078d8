# jsondelta in Dafny

A model of the core of jsondelta, a JSON diff/patch engine that works on the in-memory
value tree a JSON parser produces. The tree holds null, booleans, numbers, strings,
`List<object>` arrays and `Dictionary<string, object>` objects. The model covers five
parts of the engine:

- **Structural equality** (`JsonComparer`, `KeyValueComparer`). Null is never equal to
  anything, not even to null. Runtime types must match. Containers are equal by
  reference, or element by element in index order, or entry by entry in enumeration
  order.
- **Alignment.** `Comparer.LongestCommonSubsequence` fills a dynamic-programming table
  and then walks back through it into a pre-sized output array. As written, the walk back
  writes one slot too low and throws on any two lists that share an equal pair (see
  Findings). The model has both the method as written and the corrected one.
- **Comparison.** `CompareElement`, `DeltaArray.Compare` and `DeltaObject.Compare` build
  a delta: a tree of Identity, DeltaInsert, DeltaRemove, DeltaReplace, DeltaArray and
  DeltaObject descriptors. A DeltaArray or DeltaObject holds its changes in replay order.
  The comparison functions, their methods and the lemmas about them use the corrected
  alignment. The `AsWritten` comparison methods use the alignment as written. They state
  exactly when the comparison throws, and that otherwise it yields the same delta.
- **Apply.** `Delta<T>.Apply` folds over a delta's changes. It uses the containers'
  `Select`, `Insert` and `Remove`, which update the target in place.
- **Serialization.** `GetSerialized` writes a delta as `{Key, DeltaType, Content}`
  records. `SerializedDelta.Deserialize` reads them back, dispatching on the tag.
  `TryDeserializeJson` checks that a parsed envelope has the three record fields.

## Files

- `json.dfy` (module `Json`): the value tree. Dictionaries are sequences of entries in
  enumeration order. A path names a node inside a tree, so an in-place update can be
  seen from the root. An update at one path leaves every node beside that path unchanged.
- `comparer.dfy` (module `Comparer`): equality, and its characterisation lemmas.
- `lcs.dfy` (module `Lcs`): the table recurrence and the walk back, as functions. The
  method fills an `array2` and writes an `array`. It is written over any element type
  and the equality it is given; arrays are compared with `JsonEquals`.
- `deltas.dfy` (module `Deltas`):
  - the delta datatype;
  - the `Delta<T>` class, whose `Add` methods append to its `changes`;
  - `Apply` exactly as written, with the container operations and the lemmas about
    what the fold does.
- `diff.dfy` (module `Diff`): each comparison as a function that says which delta it
  yields, and as a method that builds that delta change by change. Each method is
  proved to return what its function says. The `AsWritten` methods run on the alignment
  as written. Each one is proved to throw exactly when the predicate `ElementFaults`
  (or `KeptFaults`) holds, and otherwise to return what the function says.
- `diff_props.dfy` (module `DiffProperties`):
  - change counts and the order of the emitted changes;
  - when a comparison finds no difference;
  - key uniqueness;
  - comparing a value with itself;
  - how the comparison results fare under `Apply`.
- `patch.dfy` (module `Patch`): the apply that the code evidently intends. Under it, the
  delta of two lists turns the first list into the second.
- `serialization.dfy` and `serialization_props.dfy` (modules `Serialization` and
  `SerializationProperties`): the record form, the round trip, and the unknown-tag error.

Apply is modelled on values.

- The target is a root value. The accumulator that `Aggregate` threads from change to
  change is either a reference to a node of that tree (`Node(path)`) or a delta object
  (`Returned(delta)`). The latter is what the containers' `Insert` and `Remove` return.
- An exception ends the fold. The result then carries the tree as far as it had been
  changed.

`SelfStable` describes the values that compare as Identity with themselves:

- not null;
- a list with no null element;
- a dictionary whose entry values are again self-stable.

List elements are not entered further, because lists are compared element by element
with `Comparer.Equals`, which is reflexive on every non-null value.

## Model

| member | source | states |
|---|---|---|
| Json.Keys | DeltaObject.cs:17-18 | the keys of a dictionary, one per entry, in enumeration order |
| Json.IndexOf | DeltaObject.cs:42 | the position of the entry for a key, or -1 exactly when the dictionary has no such key; no earlier entry has that key |
| Json.Lookup | DeltaObject.cs:32 | the dictionary indexer: no value exactly when the key is absent, otherwise a value stored under that key |
| Json.RemoveKey | DeltaObject.cs:56 | `Dictionary.Remove`: the key is gone, every other key is still there, and a missing key leaves the dictionary unchanged |
| Json.AddKeepsUniqueKeys | DeltaObject.cs:47 | `Dictionary.Add` of a missing key leaves every key unique |
| Json.RemoveKeepsUniqueKeys | DeltaObject.cs:56 | `Dictionary.Remove` leaves every remaining key unique |
| Json.RemoveKeyEntries | DeltaObject.cs:56 | `Dictionary.Remove` keeps exactly the entries under other keys, values included, in their enumeration order |
| Json.InOrderOfTail | DeltaObject.cs:20-22 | dropping the head of a sequence keeps every in-order subsequence of the tail an in-order subsequence of the whole |
| Json.InOrderOfCons | DeltaObject.cs:20-22 | the head followed by an in-order subsequence of the tail is an in-order subsequence of the whole |
| Json.Put | DeltaArray.cs:42-43 | an in-place update seen from the root: afterwards the node at the path is the new value |
| Json.PutFrame | DeltaArray.cs:42-43 | an in-place update at one path leaves every node that is neither above nor below that path as it was |
| Json.IndexOfUpdate | DeltaObject.cs:42 | replacing the value of an entry under its own key moves no key of the dictionary |
| Comparer.NullNeverEqual | Comparer.cs:56 | Equals is false when either side is null, null against null included |
| Comparer.DifferentTypesNeverEqual | Comparer.cs:57 | values of different runtime types are never equal |
| Comparer.ListsEqualIff | Comparer.cs:56-65 | two lists are equal iff they are the same reference, or have the same count and are pairwise equal in index order |
| Comparer.PropertiesEqualIff | Comparer.cs:67-78 | two dictionaries are equal iff they are the same reference, or have the same count and their entries, taken pairwise in enumeration order, have ordinally equal keys and equal values |
| Comparer.ListWithNullOnlyEqualsItself | Comparer.cs:56-65 | a list that holds a null equals only itself, by reference |
| Comparer.EqualsSymmetric | Comparer.cs:56-78 | the comparer is symmetric |
| Lcs.LcsLength | Comparer.cs:17-29 | a table cell never exceeds the length of either prefix |
| Lcs.FillTable | Comparer.cs:14-29 | the filled table has (m+1)×(n+1) cells, and each holds the recurrence value: 0 on row and column 0, the diagonal plus one on an equal pair, otherwise the larger neighbour |
| Lcs.LcsSteps | Comparer.cs:24-27 | moving one row or one column on never lowers a cell and raises it by at most one |
| Lcs.LcsIsLongest | Comparer.cs:17-29 | no alignment of the two prefixes (strictly increasing, in bounds, pairwise equal) is longer than the table cell |
| Lcs.BacktrackLength | Comparer.cs:31-46 | the walk back emits exactly c[m, n] pairs, so it fills every output slot |
| Lcs.BacktrackChains | Comparer.cs:33-46 | the emitted pairs are in bounds, pairwise equal, and increase in both components from each pair to the next |
| Lcs.BacktrackIsAlignment | Comparer.cs:33-46 | the walk back yields an alignment of length c[m, n], which is therefore a longest one |
| Lcs.StepMatch | Comparer.cs:35-41 | on an equal pair the walk steps diagonally, emits that pair and the cell drops by one |
| Lcs.StepLeft | Comparer.cs:42-43 | when the left cell is strictly larger the walk steps back j and the cell keeps its value |
| Lcs.StepUp | Comparer.cs:44-45 | otherwise, ties included, the walk steps back i and the cell keeps its value |
| Lcs.WalkStepAsWritten | Comparer.cs:35-45 | one step of the walk back as written: it keeps k + 1 == c[i, j] and throws exactly when the decremented k is negative |
| Lcs.LongestCommonSubsequenceAsWritten | Comparer.cs:9-49 | as written, the method returns (with an empty output) exactly when the lists have no equal pair, and throws otherwise |
| Lcs.WalkStep | Comparer.cs:35-45 | one step of the corrected walk back: a match writes its pair at slot k and steps diagonally; any other step writes nothing; c[i, j] and the pairs still to emit are preserved |
| Lcs.LongestCommonSubsequence | Comparer.cs:9-49 | the corrected method returns c[m, n] pairs, exactly the walk back's pairs in order, which form a longest alignment |
| Deltas.Delta.constructor | Delta.cs:16 | a new delta has no changes |
| Deltas.Delta.Add | Delta.cs:37-41 | appends exactly one change at the end, keeps the earlier ones and returns the same instance |
| Deltas.Delta.AddAll | Delta.cs:43-48 | appends the other delta's changes in their order; when the other delta is this one, the enumeration fails after one change has been appended |
| Deltas.ArrayInsert | DeltaArray.cs:40-47 | `List.Insert` at the key on a list target, which shifts the later elements; it succeeds iff the target is a list and 0 <= key <= count, returns the delta itself, and on failure leaves the tree alone; on success the new tree is the old one with only that list replaced in place (so, by `PutFrame`, nothing beside it changes) |
| Deltas.ArrayRemove | DeltaArray.cs:49-56 | `List.RemoveAt` on a list target; it succeeds iff the target is a list and the key is in range, returns the delta itself, and throws InvalidOperation on a non-list; on success only that list is replaced in place |
| Deltas.ObjectInsert | DeltaObject.cs:44-51 | `Dictionary.Add`: appends the entry iff the target is a dictionary without that key; a present key throws DuplicateKey and a non-dictionary throws InvalidOperation; it returns the delta itself; on success only that dictionary is replaced in place |
| Deltas.ObjectRemove | DeltaObject.cs:53-60 | removes the key from a dictionary target, is a silent no-op for a missing key, and returns the delta itself; a non-dictionary throws; on success only that dictionary is replaced in place |
| Deltas.ObjectEditsKeepUniqueKeys | DeltaObject.cs:44-60 | on a dictionary target whose keys are unique, a completed Insert leaves them unique, and Remove always completes and leaves them unique |
| Deltas.ArraySelect | DeltaArray.cs:38 | yields the element at the key iff the accumulator is a list and the key is in range |
| Deltas.ObjectSelect | DeltaObject.cs:42 | yields the value under the key iff the accumulator is a dictionary holding the key; a missing key throws KeyNotFound |
| Deltas.LeafApplyThrows | Delta.cs:82-142 | Apply on Identity, DeltaInsert, DeltaRemove or DeltaReplace throws InvalidOperation and changes nothing |
| Deltas.IdentityPassesThrough | Delta.cs:20-22 | Identity changes pass the accumulator through and leave the target alone |
| Deltas.InsertRemoveReturnSelf | Delta.cs:23-24 | an Insert or Remove change that succeeds hands the delta itself to the next change |
| Deltas.NothingAppliesToADelta | Delta.cs:20-29 | once the accumulator is a delta, the rest of the fold changes nothing and succeeds iff every remaining change is Identity |
| Deltas.ReplaceRemovesThenThrows | Delta.cs:25 | a Replace change always throws, and when its removal succeeded, the removal stays done |
| Deltas.EditThenEditThrows | Delta.cs:20-29 | an Insert or Remove followed, at any distance, by a change that is not Identity makes Apply throw |
| Deltas.TwoEditsThrow | Delta.cs:20-25 | a delta whose first change inserts or removes and whose second is not Identity never applies |
| Diff.UnmatchedAscendingFacts | DeltaArray.cs:21-22 | the indices of `last` the alignment leaves out, all in range, strictly ascending |
| Diff.UnmatchedDescendingFacts | DeltaArray.cs:16-18 | the indices of `first` the alignment leaves out, all in range, strictly descending |
| Diff.RemoveChanges | DeltaArray.cs:19 | exactly one DeltaRemove per index (or per key, as at DeltaObject.cs:24-25), in the given order |
| Diff.InsertChanges | DeltaArray.cs:23 | exactly one DeltaInsert of `last[x]` per index x, in the given order |
| Diff.Pick | DeltaObject.cs:20-22 | LINQ `Except`/`Intersect`: every key picked is a key of the first list that is outside (inside) the second, and every such key is picked |
| Diff.PickDistinct | DeltaObject.cs:20-22 | `Except` and `Intersect` yield each key at most once |
| Diff.PickOrdered | DeltaObject.cs:20-22 | `Except` and `Intersect` keep the order of their first sequence: any two picked keys occur in it in the order they were picked |
| Diff.KeyInsertChanges | DeltaObject.cs:27-28 | exactly one DeltaInsert of `last[k]` per key k, in the given order |
| Diff.AppendAll | DeltaArray.cs:27-30 | the `foreach` appends the given changes, in order, after the existing ones |
| Diff.CompareArrays | DeltaArray.cs:13-36 | the method yields the specified array delta (its properties are the DiffProperties lemmas) |
| Diff.CompareKept | DeltaObject.cs:32 | compares the two values a kept key holds |
| Diff.AddKeptEdits | DeltaObject.cs:30-35 | the kept-key loop appends, in key order, each comparison that is not Identity |
| Diff.CompareObjects | DeltaObject.cs:13-40 | the method yields the specified object delta |
| Diff.CompareElement | Delta.cs:50-66 | the method yields the specified element delta |
| Diff.CompareArraysAsWritten | DeltaArray.cs:13-36 | with the alignment as written, the list comparison returns iff the lists share no equal pair, and then yields the specified array delta |
| Diff.CompareKeptAsWritten | DeltaObject.cs:32 | as written, comparing the values of a kept key returns iff that comparison reaches no faulting list pair, and then yields the specified comparison |
| Diff.AddKeptEditsAsWritten | DeltaObject.cs:30-35 | as written, the kept-key loop completes iff no kept key's comparison faults, and then appends the same edits as the corrected loop |
| Diff.CompareObjectsAsWritten | DeltaObject.cs:13-40 | as written, the dictionary comparison returns iff no kept key's comparison faults, and then yields the specified object delta |
| Diff.CompareElementAsWritten | Delta.cs:50-66 | as written, comparing two values returns iff no list comparison it reaches has an equal pair, and then yields the specified element delta |
| DiffProperties.UnmatchedCount | DeltaArray.cs:16-22 | the unmatched indices below n number n minus the matched ones, in either order |
| DiffProperties.FirstsCount | DeltaArray.cs:15-22 | a strictly increasing alignment matches as many distinct indices of each list as it has pairs |
| DiffProperties.ArrayChangeCounts | DeltaArray.cs:15-24 | the comparison emits |first| − L removals and |last| − L insertions, where L is the LCS length |
| DiffProperties.ArrayChangesShape | DeltaArray.cs:16-30 | removals of unmatched indices of `first` come first, in strictly descending order; then insertions of `last[y]` for the unmatched y, in strictly ascending order; no nested delta, Replace or Identity is emitted |
| DiffProperties.FullAlignmentIsDiagonal | Comparer.cs:31-46 | an alignment as long as both lists pairs each position with itself |
| DiffProperties.ArrayIdentityMeansEqual | DeltaArray.cs:33-35 | when the LCS covers both lists, they are pairwise equal |
| DiffProperties.EqualListsAlignFully | DeltaArray.cs:33-35 | pairwise equal lists have an LCS as long as both |
| DiffProperties.ArrayDeltaIdentityIff | DeltaArray.cs:33-35 | the array comparison returns Identity iff the lists have the same length and are pairwise equal |
| DiffProperties.EqualsReflexiveExceptNull | Comparer.cs:56-58 | Equals(v, v) holds exactly for non-null v |
| DiffProperties.ArraySelfDiff | DeltaArray.cs:13-36 | comparing a list with itself finds no difference iff it holds no null |
| DiffProperties.EditsMember | DeltaObject.cs:30-35 | a change is appended by the kept-key loop iff it pairs a kept key with its comparison and that comparison is not Identity |
| DiffProperties.EditsKeys | DeltaObject.cs:30-35 | the kept-key loop appends changes only for kept keys, each key at most once |
| DiffProperties.EditsNotIdentity | DeltaObject.cs:33-34 | the kept-key loop appends no Identity |
| DiffProperties.RemovalMember | DeltaObject.cs:20-25 | the removals are exactly DeltaRemove for the keys only `first` has |
| DiffProperties.InsertionMember | DeltaObject.cs:21-28 | the insertions are exactly DeltaInsert(last[k]) for the keys only `last` has |
| DiffProperties.InsertionOnlyAdded | DeltaObject.cs:21-28 | every insertion names a key only `last` has and carries `last[k]` |
| DiffProperties.AddedInserted | DeltaObject.cs:21-28 | every key only `last` has is inserted with `last[k]` |
| DiffProperties.EditMember | DeltaObject.cs:22-35 | the edits are exactly the non-Identity comparisons of the keys both have |
| DiffProperties.ObjectChangesIff | DeltaObject.cs:20-35 | a change (k, d) is emitted iff k is only in `first` and d removes it, or k is only in `last` and d inserts `last[k]`, or k is in both and d is their non-Identity comparison |
| DiffProperties.RemovalKeys | DeltaObject.cs:20-25 | the removals name distinct keys that only `first` has |
| DiffProperties.InsertionKeys | DeltaObject.cs:21-28 | the insertions name distinct keys that only `last` has |
| DiffProperties.EditKeys | DeltaObject.cs:22-35 | the edits name distinct keys that both have |
| DiffProperties.ObjectChangeKeysUnique | DeltaObject.cs:20-35 | no key occurs in two changes of an object comparison |
| DiffProperties.InOrderOfPrefix | DeltaObject.cs:30-35 | an in-order subsequence of a prefix is one of the whole sequence |
| DiffProperties.InOrderOfSnoc | DeltaObject.cs:30-35 | an in-order subsequence of all but the last element, followed by the last element, is one of the whole sequence |
| DiffProperties.InOrderOfTrans | DeltaObject.cs:22-35 | an in-order subsequence of an in-order subsequence is one of the original |
| DiffProperties.ChangeKeysSnoc | DeltaObject.cs:33-34 | appending a change to the collected changes appends its key to their keys |
| DiffProperties.EditsOrdered | DeltaObject.cs:30-35 | the kept-key loop appends its edits in the order of the kept keys |
| DiffProperties.ThreeRunsOrdered | DeltaObject.cs:24-35 | three runs appended one after another keep their places, kinds and orders |
| DiffProperties.RemovalOrder | DeltaObject.cs:20-25 | the removals follow the enumeration order of `first` |
| DiffProperties.InsertionOrder | DeltaObject.cs:21-28 | the insertions follow the enumeration order of `last` |
| DiffProperties.EditOrder | DeltaObject.cs:22-35 | the kept-key edits follow the enumeration order of `first` |
| DiffProperties.ObjectChangesOrder | DeltaObject.cs:20-35 | the object comparison emits all removals first, in `first`'s key order, then all insertions, in `last`'s key order, then the edits, in `first`'s key order |
| DiffProperties.ObjectDeltaIdentityIff | DeltaObject.cs:37-39 | the object comparison returns Identity iff the dictionaries have the same keys and every kept key compares as Identity |
| DiffProperties.ElementSelfDiff | Delta.cs:50-66 | comparing a value with itself yields Identity iff the value is self-stable |
| DiffProperties.ObjectSelfDiff | DeltaObject.cs:13-40 | comparing a dictionary with itself yields Identity iff every entry value is self-stable |
| DiffProperties.FirstObjectChange | DeltaObject.cs:24-35 | an object comparison that removes or adds a key starts with that removal or insertion and emits no Identity |
| DiffProperties.ArrayDeltaWithSeveralChangesThrows | DeltaArray.cs:40-56 | as written, an array comparison with two or more changes never applies, on any target; the source's comparison yields exactly this delta whenever it returns (`Diff.CompareArraysAsWritten`) |
| DiffProperties.ObjectDeltaWithKeyEditAndMoreThrows | DeltaObject.cs:44-60 | as written, an object comparison that removes or adds a key and has a further change never applies; the source's comparison yields exactly this delta whenever it returns (`Diff.CompareObjectsAsWritten`) |
| DiffProperties.EqualPairFaults | Comparer.cs:37-40 | as written, comparing two lists that share an equal pair throws |
| Patch.ChangeOnList | DeltaArray.cs:40-56 | one removal or insertion applied as intended to a list is the matching `RemoveAt`/`Insert` on its items |
| Patch.ApplyIsReplay | Delta.cs:20-24 | applying removals and insertions as intended to a list replays them in order; it fails iff some index falls out of range |
| Patch.ReplayAppend | Delta.cs:20 | replaying two runs of changes is replaying the first, then the second |
| Patch.ReplayRemovals | DeltaArray.cs:16-19 | replaying the emitted removals removes at their indices in turn |
| Patch.ReplayInsertions | DeltaArray.cs:21-23 | replaying the emitted insertions inserts `last[x]` at each index x in turn |
| Patch.RemovalsLeaveKept | DeltaArray.cs:16-18 | removing, highest first, every unmatched index leaves exactly the matched elements, in order |
| Patch.KeptAreMatched | DeltaArray.cs:15-17 | the kept elements of `first` are the alignment's first components, in order |
| Patch.InsertionsInterleave | DeltaArray.cs:21-23 | inserting, lowest first, the unmatched elements of `last` puts each at its own index, and the kept elements fill the matched positions in order |
| Patch.LastsRank | Comparer.cs:33-46 | exactly t matched indices of `last` lie below the second index of the t-th pair |
| Patch.ArrayReplay | DeltaArray.cs:13-36 | replaying an array comparison's changes on `first` succeeds and interleaves the kept elements of `first` with the inserted elements of `last` |
| Patch.MatchedAt | Comparer.cs:33-46 | the t-th kept element of `first` is the one the t-th pair matched, and it equals its partner in `last` |
| Patch.InterleaveMatches | DeltaArray.cs:15-30 | position by position, the replayed list holds `last[j]` where j was inserted, and an element equal to `last[j]` where j was matched |
| Patch.DiffThenApplyArray | DeltaArray.cs:13-56 | applying, as intended, the delta of two different lists to the first list succeeds, keeps the list's identity and yields a list of the second's length; each position holds `last[j]` or an element equal to it |
| Patch.DiffThenApplyArrayEquals | DeltaArray.cs:13-56 | when the second list holds no null, that result equals the second list element by element |
| Patch.ListEditThrowsAsWritten | DeltaArray.cs:49-56 | as written, comparing [1] with [2] returns (no equal pair) the delta Remove at 0, then Insert 2 at 0, and that delta throws on every target |
| Serialization.GetSerialized | Delta.cs:32-35 | a record with a null Key and the delta's own type name as tag (Identity, DeltaRemove, DeltaInsert, DeltaReplace, DeltaArray, DeltaObject, one clause per kind); Insert and Replace carry the encoded value; a container carries one record per change |
| Serialization.ChildRecord | Delta.cs:68-73 | the record of a change has its Key set to that change's key |
| Serialization.SerializeChanges | Delta.cs:34 | one record per change, in order |
| Serialization.DecodePayload | SerializedDelta.cs:21-23 | string or null content is decoded; any other content fails the cast |
| Serialization.IntKey | SerializedDelta.cs:27 | `(int)Key` succeeds exactly on a boxed int and yields it |
| Serialization.StringKey | SerializedDelta.cs:32 | `(string)Key` succeeds exactly on a string and yields it |
| Serialization.DeserializeRecord | SerializedDelta.cs:12-36 | the method yields the specified deserialization |
| Serialization.DeserializeArrayChildren | SerializedDelta.cs:24-28 | the loop adds each child under its int key, in content order, or stops at the first failure |
| Serialization.DeserializeObjectChildren | SerializedDelta.cs:29-33 | the same, under string keys |
| Serialization.Box | SerializedDelta.cs:46-50 | a parsed value stored in an `object` field is null exactly when the value is null |
| Serialization.TryDeserializeJson | SerializedDelta.cs:38-57 | fails with a null record iff the parse is not a dictionary holding Key, DeltaType and Content; throws iff DeltaType is null; otherwise copies Key and Content unchanged and takes a string DeltaType as the tag and `ToString()` (`toText`) of any other non-null DeltaType |
| SerializationProperties.DeserializeIgnoresKey | SerializedDelta.cs:12-36 | Deserialize reads only the tag and the content of a record, never its key |
| SerializationProperties.RoundTrip | SerializedDelta.cs:12-36 | deserializing what GetSerialized wrote rebuilds the delta: kinds, keys and order of changes; carried values come back through the text codec |
| SerializationProperties.ArrayRoundTrip | SerializedDelta.cs:24-28 | the children of a serialized DeltaArray deserialize to its changes under their int keys |
| SerializationProperties.ObjectRoundTrip | SerializedDelta.cs:29-33 | the children of a serialized DeltaObject deserialize to its changes under their string keys |
| SerializationProperties.RecodedExact | SerializedDelta.cs:21-23 | with a codec that gives every value back, recoding changes nothing |
| SerializationProperties.ExactRoundTrip | SerializedDelta.cs:12-36 | with such a codec, a delta survives serialization exactly and applies to any target as the original does |
| SerializationProperties.UnknownTag | SerializedDelta.cs:34 | an unknown tag fails with a message naming it, and every "not supported" failure, at any depth, names an unknown tag |
| SerializationProperties.UnknownTagInChildren | SerializedDelta.cs:24-33 | an unknown tag inside a container's children fails in the same way |

## Left out

- The MiniJSON text codec (`Json.Serialize`, `Json.Deserialize`) is an external library and
  is not part of this model. The two directions are function parameters (`enc`, `dec`),
  and nothing is assumed about them except where a lemma says so.
- `TryDeserializeJson` takes the value the parse returned instead of the JSON text.
  `ToString()` on a non-string DeltaType is the parameter `toText`.
- Numbers are integers tagged with a runtime-type number. Floating point is not modelled.
- `GetHashCode` of both comparers has no role in equality and is not modelled.
- A dictionary is a sequence of entries, and `Add` appends. The type admits a repeated key, which no .NET `Dictionary` holds; `Deltas.ObjectEditsKeepUniqueKeys` shows that Insert and Remove never create one, and the other lemmas hold with or without it. The slot reuse of a
  .NET `Dictionary`, where an entry added after a removal can take the freed place in
  enumeration order, is not modelled.
- Shared references: a list or dictionary reached along two paths of the same tree is
  two values here. An update through one path is not seen through the other.
- The C# `Content` of a container record is a lazy `Select` sequence. Casting it back
  to `SerializedDelta[]` would throw. A record read from JSON would instead hold a
  `List<object>` Content and a `long` Key. The model keeps Content as a sequence of
  records and Key as an int or a string, as `Deserialize` expects.
- Serialization.StringKey: a null Key is rejected. In C# it is accepted as a null
  dictionary key, which fails only later, on `Apply`.
- The `_ => throw new NotImplementedException()` arm of `Apply` is not modelled. The
  delta datatype is closed, so the arm is unreachable.
- `IsValidTarget` is a predicate without properties of its own. `Apply` never calls it.
- Lcs.LcsLength: its contract states only the bounds. The recurrence, maximality and
  the walk back are stated by the `Lcs` lemmas.
- Lcs.LongestCommonSubsequence: the loop body lives in its own method, `WalkStep`.
  The comparer is a parameter, and arrays are aligned with `JsonEquals`.
- Diff.CompareArrays: it uses the corrected alignment. As written it throws whenever the
  two lists share an equal pair; `Diff.CompareArraysAsWritten` and
  `DiffProperties.EqualPairFaults` state that behaviour.
- Diff.CompareObjects: it uses the corrected alignment for the lists it reaches. As
  written it throws whenever a kept key's comparison does; see
  `Diff.CompareObjectsAsWritten`.
- Diff.CompareElement: it uses the corrected alignment. As written it throws whenever a
  list comparison it reaches throws; see `Diff.CompareElementAsWritten`.
- Exceptions are result values (`Threw(fault)`, `Failure(error)`). Their messages are not
  modelled, except the unsupported-tag message.
- Concurrency: the engine has none.

## Findings

| source | as written | input that shows it | evidently intended | confidence | as-written member | corrected member |
|---|---|---|---|---|---|---|
| Comparer.cs:37-40 | the walk back decrements `k` before writing `output[k]`, so the last match writes `output[-1]` | first = [1], last = [1]: c[1,1] = 1 and k starts at 0; the match sets k to -1 and writes `output[-1]`, which throws `IndexOutOfRangeException`; any pair of lists with an equal pair throws | write `output[k]` before decrementing `k`, so the output holds the walk back's pairs in order | high; not executed | Lcs.LongestCommonSubsequenceAsWritten | Lcs.LongestCommonSubsequence |
| DeltaArray.cs:40-56 | `Insert` and `Remove` (also DeltaObject.cs:44-60) end in `return this`, so `Apply`'s fold hands the delta itself to the next change; any later Insert, Remove, Replace or nested edit then throws, and Replace always throws | first = [1], last = [2]: the lists share no equal pair, so the comparison returns even as written; the delta is Remove at 0, then Insert 2 at 0; the Insert meets the delta, not the list, and throws InvalidOperation after the removal | return the target, so every change of a delta works on the same list or dictionary; then, with the alignment corrected as in the first row, the delta of two lists turns the first list into the second | high; not executed | Patch.ListEditThrowsAsWritten | Patch.DiffThenApplyArray |
