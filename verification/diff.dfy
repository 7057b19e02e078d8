/** The comparison algorithms: `Delta<T>.CompareElement`, `DeltaArray.Compare` and
    `DeltaObject.Compare`. Each is given as a function that says which delta the
    comparison yields, and as the method that builds it change by change; the
    method is proved to yield what the function says. */
module Diff {
  import opened Json
  import opened Comparer
  import opened Lcs
  import opened Deltas

  // ---------------------------------------------------------------------------
  // Array comparison

  /** The first components of an alignment (`matches.Select(x => x.first)`). */
  function Firsts(m: seq<(int, int)>): set<int>
  {
    if m == [] then {} else Firsts(m[..|m| - 1]) + {m[|m| - 1].0}
  }

  /** The second components of an alignment (`matches.Select(x => x.last)`). */
  function Lasts(m: seq<(int, int)>): set<int>
  {
    if m == [] then {} else Lasts(m[..|m| - 1]) + {m[|m| - 1].1}
  }

  /** The indices below `n` that are not in `used`, in ascending order. */
  function UnmatchedAscending(n: nat, used: set<int>): seq<int>
  {
    if n == 0 then [] else UnmatchedAscending(n - 1, used) + (if n - 1 in used then [] else [n - 1])
  }

  /** The indices below `n` that are not in `used`, in descending order. */
  function UnmatchedDescending(n: nat, used: set<int>): seq<int>
  {
    if n == 0 then [] else (if n - 1 in used then [] else [n - 1]) + UnmatchedDescending(n - 1, used)
  }

  /** `UnmatchedAscending` lists indices below `n` outside `used`, strictly increasing.
      (Kept out of the function's own contract: those quantifiers are costly wherever
      the function appears.) */
  lemma {:induction false} UnmatchedAscendingFacts(n: nat, used: set<int>)
    ensures forall t :: 0 <= t < |UnmatchedAscending(n, used)| ==>
      0 <= UnmatchedAscending(n, used)[t] < n && UnmatchedAscending(n, used)[t] !in used
    ensures forall s, t :: 0 <= s < t < |UnmatchedAscending(n, used)| ==>
      UnmatchedAscending(n, used)[s] < UnmatchedAscending(n, used)[t]
  {
    if n > 0 {
      UnmatchedAscendingFacts(n - 1, used);
    }
  }

  /** `UnmatchedDescending` lists indices below `n` outside `used`, strictly decreasing. */
  lemma {:induction false} UnmatchedDescendingFacts(n: nat, used: set<int>)
    ensures forall t :: 0 <= t < |UnmatchedDescending(n, used)| ==>
      0 <= UnmatchedDescending(n, used)[t] < n && UnmatchedDescending(n, used)[t] !in used
    ensures forall s, t :: 0 <= s < t < |UnmatchedDescending(n, used)| ==>
      UnmatchedDescending(n, used)[s] > UnmatchedDescending(n, used)[t]
  {
    if n > 0 {
      UnmatchedDescendingFacts(n - 1, used);
    }
  }

  /** One `DeltaRemove` per key (a list index or a dictionary key), in the given order. */
  function RemoveChanges<K>(keys: seq<K>): (r: seq<(K, JsonDelta)>)
    ensures |r| == |keys|
    ensures forall t :: 0 <= t < |r| ==> r[t] == (keys[t], DeltaRemove)
  {
    if keys == [] then [] else [(keys[0], DeltaRemove)] + RemoveChanges(keys[1..])
  }

  /** One `DeltaInsert(last[x])` per index x, in the given order. */
  function InsertChanges(keys: seq<int>, last: seq<Value>): (r: seq<(int, JsonDelta)>)
    requires forall t :: 0 <= t < |keys| ==> 0 <= keys[t] < |last|
    ensures |r| == |keys|
    ensures forall t :: 0 <= t < |r| ==> r[t] == (keys[t], DeltaInsert(last[keys[t]]))
  {
    if keys == [] then [] else [(keys[0], DeltaInsert(last[keys[0]]))] + InsertChanges(keys[1..], last)
  }

  /** The LCS alignment the comparison works from. */
  function Matches(first: seq<Value>, last: seq<Value>): seq<(int, int)>
  {
    Backtrack(JsonEquals, first, last, |first|, |last|)
  }

  /** The indices of `first` the alignment leaves out, highest first. */
  function RemovedIndices(first: seq<Value>, last: seq<Value>): seq<int>
  {
    UnmatchedDescending(|first|, Firsts(Matches(first, last)))
  }

  /** The indices of `last` the alignment leaves out, lowest first. */
  function AddedIndices(first: seq<Value>, last: seq<Value>): seq<int>
  {
    UnmatchedAscending(|last|, Lasts(Matches(first, last)))
  }

  /** The changes `DeltaArray.Compare` collects: all removals, then all insertions. */
  function ArrayChanges(first: seq<Value>, last: seq<Value>): seq<(int, JsonDelta)>
  {
    UnmatchedAscendingFacts(|last|, Lasts(Matches(first, last)));
    RemoveChanges(RemovedIndices(first, last)) + InsertChanges(AddedIndices(first, last), last)
  }

  /** What `DeltaArray.Compare` returns: the collected changes, or Identity when there are none. */
  function ArrayDelta(first: seq<Value>, last: seq<Value>): JsonDelta
  {
    var changes := ArrayChanges(first, last);
    if |changes| > 0 then DeltaArray(changes) else Identity
  }

  // ---------------------------------------------------------------------------
  // Object comparison

  /** LINQ `Except` (`inside == false`) and `Intersect` (`inside == true`) on key lists:
      the distinct keys of `xs`, in `xs` order, that are (not) in `ys` and not yet in `seen`. */
  function Pick(xs: seq<string>, ys: seq<string>, inside: bool, seen: set<string>): (r: seq<string>)
    ensures forall t :: 0 <= t < |r| ==> r[t] in xs && (r[t] in ys) == inside && r[t] !in seen
    ensures forall x :: x in xs && (x in ys) == inside && x !in seen ==> x in r
  {
    if xs == [] then []
    else if (xs[0] in ys) == inside && xs[0] !in seen then [xs[0]] + Pick(xs[1..], ys, inside, seen + {xs[0]})
    else Pick(xs[1..], ys, inside, seen)
  }

  /** No key occurs twice. */
  predicate NoRepeats(r: seq<string>)
  {
    forall s, t :: 0 <= s < t < |r| ==> r[s] != r[t]
  }

  /** `Pick` yields each key at most once. */
  lemma {:induction false} PickDistinct(xs: seq<string>, ys: seq<string>, inside: bool, seen: set<string>)
    ensures NoRepeats(Pick(xs, ys, inside, seen))
  {
    if xs != [] {
      if (xs[0] in ys) == inside && xs[0] !in seen {
        var rest := Pick(xs[1..], ys, inside, seen + {xs[0]});
        PickDistinct(xs[1..], ys, inside, seen + {xs[0]});
        var r := Pick(xs, ys, inside, seen);
        assert r == [xs[0]] + rest;
        forall s, t | 0 <= s < t < |r|
          ensures r[s] != r[t]
        {
          assert r[t] == rest[t - 1] && rest[t - 1] !in seen + {xs[0]};
          if s > 0 {
            assert r[s] == rest[s - 1];
          }
        }
      } else {
        PickDistinct(xs[1..], ys, inside, seen);
        assert Pick(xs, ys, inside, seen) == Pick(xs[1..], ys, inside, seen);
      }
    }
  }

  /** `Pick` keeps the order of `xs`, as LINQ `Except` and `Intersect` keep the order
      of their first sequence. */
  lemma {:induction false} PickOrdered(xs: seq<string>, ys: seq<string>, inside: bool, seen: set<string>)
    ensures InOrderOf(Pick(xs, ys, inside, seen), xs)
  {
    if xs != [] {
      if (xs[0] in ys) == inside && xs[0] !in seen {
        PickOrdered(xs[1..], ys, inside, seen + {xs[0]});
        InOrderOfCons(Pick(xs[1..], ys, inside, seen + {xs[0]}), xs);
      } else {
        PickOrdered(xs[1..], ys, inside, seen);
        InOrderOfTail(Pick(xs[1..], ys, inside, seen), xs);
      }
    }
  }

  function Except(xs: seq<string>, ys: seq<string>): seq<string>
  {
    Pick(xs, ys, false, {})
  }

  function Intersect(xs: seq<string>, ys: seq<string>): seq<string>
  {
    Pick(xs, ys, true, {})
  }

  /** One `DeltaInsert(last[k])` per key k. */
  function KeyInsertChanges(keys: seq<string>, last: seq<(string, Value)>): (r: seq<(string, JsonDelta)>)
    requires forall t :: 0 <= t < |keys| ==> keys[t] in Keys(last)
    ensures |r| == |keys|
    ensures forall t :: 0 <= t < |r| ==> r[t] == (keys[t], DeltaInsert(Lookup(last, keys[t]).value))
  {
    if keys == [] then [] else [(keys[0], DeltaInsert(Lookup(last, keys[0]).value))] + KeyInsertChanges(keys[1..], last)
  }

  /** `CompareElement` on the values both dictionaries hold under `key`. */
  function KeptDelta(first: Value, last: Value, key: string): JsonDelta
    requires first.Obj? && last.Obj? && key in Keys(first.props) && key in Keys(last.props)
    decreases first, 0, 0
  {
    var i := IndexOf(first.props, key);
    var j := IndexOf(last.props, key);
    ElementDelta(first.props[i].1, last.props[j].1)
  }

  /** `CompareElement(first[key], last[key])` for each kept key, in order. */
  function KeptDeltas(first: Value, last: Value, kept: seq<string>): (ds: seq<JsonDelta>)
    requires first.Obj? && last.Obj?
    requires forall k :: k in kept ==> k in Keys(first.props) && k in Keys(last.props)
    ensures |ds| == |kept|
    decreases first, 0, 1
  {
    seq(|kept|, t requires 0 <= t < |kept| => KeptDelta(first, last, kept[t]))
  }

  /** What the kept-key loop appends: each key whose comparison is not Identity,
      paired with that comparison. */
  function Edits(kept: seq<string>, deltas: seq<JsonDelta>): seq<(string, JsonDelta)>
    requires |kept| == |deltas|
  {
    if kept == [] then []
    else
      var n := |kept| - 1;
      Edits(kept[..n], deltas[..n]) + (if deltas[n] == Identity then [] else [(kept[n], deltas[n])])
  }

  /** Taking one more kept key appends its edit, unless its comparison is Identity. */
  lemma EditsStep(kept: seq<string>, deltas: seq<JsonDelta>, t: nat)
    requires |kept| == |deltas| && t < |kept|
    ensures Edits(kept[..t + 1], deltas[..t + 1])
            == Edits(kept[..t], deltas[..t]) + (if deltas[t] == Identity then [] else [(kept[t], deltas[t])])
  {
    assert kept[..t + 1][..t] == kept[..t] && deltas[..t + 1][..t] == deltas[..t];
  }

  /** The keys only `first` has, only `last` has, and both have. */
  function RemovedKeys(first: Value, last: Value): seq<string>
    requires first.Obj? && last.Obj?
  {
    Except(Keys(first.props), Keys(last.props))
  }

  function AddedKeys(first: Value, last: Value): seq<string>
    requires first.Obj? && last.Obj?
  {
    Except(Keys(last.props), Keys(first.props))
  }

  function KeptKeys(first: Value, last: Value): seq<string>
    requires first.Obj? && last.Obj?
  {
    Intersect(Keys(first.props), Keys(last.props))
  }

  /** The changes `DeltaObject.Compare` collects: removals, insertions, then kept-key edits. */
  function ObjectChanges(first: Value, last: Value): seq<(string, JsonDelta)>
    requires first.Obj? && last.Obj?
    decreases first, 1
  {
    RemoveChanges(RemovedKeys(first, last))
    + KeyInsertChanges(AddedKeys(first, last), last.props)
    + Edits(KeptKeys(first, last), KeptDeltas(first, last, KeptKeys(first, last)))
  }

  /** What `DeltaObject.Compare` returns. */
  function ObjectDelta(first: Value, last: Value): JsonDelta
    requires first.Obj? && last.Obj?
    decreases first, 2
  {
    var changes := ObjectChanges(first, last);
    if |changes| > 0 then DeltaObject(changes) else Identity
  }

  // ---------------------------------------------------------------------------
  // Element comparison

  /** What `CompareElement` returns for a pair of values. */
  function ElementDelta(first: Value, last: Value): JsonDelta
    decreases first, 3
  {
    if first == Null then DeltaInsert(last)
    else if last == Null then DeltaRemove
    else if !SameType(first, last) then DeltaReplace(last)
    else if first.Arr? && last.Arr? then ArrayDelta(first.items, last.items)
    else if first.Obj? && last.Obj? then ObjectDelta(first, last)
    else if RawEquals(first, last) then Identity
    else DeltaReplace(last)
  }

  // ---------------------------------------------------------------------------
  // The comparison methods

  /** A `foreach (var delta in changes) result.changes.Add(delta)` loop. */
  method AppendAll<K>(result: Delta<K>, changes: seq<(K, JsonDelta)>)
    modifies result
    ensures result.changes == old(result.changes) + changes
  {
    for t := 0 to |changes|
      invariant result.changes == old(result.changes) + changes[..t]
    {
      assert changes[..t + 1] == changes[..t] + [changes[t]];
      result.changes := result.changes + [changes[t]];
    }
  }

  /** `DeltaArray.Compare`: aligns the lists, selects the unmatched indices of `first`
      (descending) and of `last` (ascending), and appends one change per index. */
  method CompareArrays(first: seq<Value>, last: seq<Value>) returns (r: JsonDelta)
    ensures r == ArrayDelta(first, last)
  {
    var matches := LongestCommonSubsequence(JsonEquals, first, last);
    var m := matches[..];
    assert m == Matches(first, last);
    var firstRemoved := RemoveChanges(UnmatchedDescending(|first|, Firsts(m)));
    UnmatchedAscendingFacts(|last|, Lasts(m));
    var lastAdded := InsertChanges(UnmatchedAscending(|last|, Lasts(m)), last);

    var result := new Delta<int>();
    AppendAll(result, firstRemoved);
    assert result.changes == firstRemoved;
    AppendAll(result, lastAdded);
    assert result.changes == ArrayChanges(first, last);
    r := if |result.changes| > 0 then DeltaArray(result.changes) else Identity;
  }

  /** `DeltaArray.Compare` as written, on `Comparer.LongestCommonSubsequence` as written:
      it throws (`ok == false`) exactly when the lists have an equal pair, and otherwise
      yields the same delta as the corrected comparison. */
  method CompareArraysAsWritten(first: seq<Value>, last: seq<Value>) returns (r: JsonDelta, ok: bool)
    ensures ok <==> LcsLength(JsonEquals, first, last, |first|, |last|) == 0
    ensures ok ==> r == ArrayDelta(first, last)
  {
    var matches, fine := LongestCommonSubsequenceAsWritten(JsonEquals, first, last);
    if !fine {
      return Identity, false;
    }
    BacktrackLength(JsonEquals, first, last, |first|, |last|);
    assert matches[..] == [] == Matches(first, last);
    var m := matches[..];
    var firstRemoved := RemoveChanges(UnmatchedDescending(|first|, Firsts(m)));
    UnmatchedAscendingFacts(|last|, Lasts(m));
    var lastAdded := InsertChanges(UnmatchedAscending(|last|, Lasts(m)), last);

    var result := new Delta<int>();
    AppendAll(result, firstRemoved);
    assert result.changes == firstRemoved;
    AppendAll(result, lastAdded);
    assert result.changes == ArrayChanges(first, last);
    r := if |result.changes| > 0 then DeltaArray(result.changes) else Identity;
    ok := true;
  }

  /** The body of the kept-key loop of `DeltaObject.Compare`: `CompareElement(first[key], last[key])`. */
  method CompareKept(first: Value, last: Value, key: string) returns (delta: JsonDelta)
    requires first.Obj? && last.Obj? && key in Keys(first.props) && key in Keys(last.props)
    ensures delta == KeptDelta(first, last, key)
    decreases first, 0
  {
    var i := IndexOf(first.props, key);
    var j := IndexOf(last.props, key);
    delta := CompareElement(first.props[i].1, last.props[j].1);
  }

  /** The kept-key loop of `DeltaObject.Compare`: compares the two values of each key
      and appends every comparison that is not Identity. */
  method AddKeptEdits(result: Delta<string>, first: Value, last: Value, keysKept: seq<string>)
    requires first.Obj? && last.Obj?
    requires forall k :: k in keysKept ==> k in Keys(first.props) && k in Keys(last.props)
    modifies result
    ensures result.changes == old(result.changes) + Edits(keysKept, KeptDeltas(first, last, keysKept))
    decreases first, 1
  {
    ghost var start := result.changes;
    ghost var deltas := KeptDeltas(first, last, keysKept);
    for t := 0 to |keysKept|
      invariant result.changes == start + Edits(keysKept[..t], deltas[..t])
    {
      var key := keysKept[t];
      var delta := CompareKept(first, last, key);
      EditsStep(keysKept, deltas, t);
      if delta != Identity {
        result.changes := result.changes + [(key, delta)];
      }
    }
    assert keysKept[..|keysKept|] == keysKept && deltas[..|keysKept|] == deltas;
  }

  /** `DeltaObject.Compare`: partitions the keys with `Except`/`Intersect`, then appends
      the removals, the insertions and the kept-key edits. */
  method CompareObjects(first: Value, last: Value) returns (r: JsonDelta)
    requires first.Obj? && last.Obj?
    ensures r == ObjectDelta(first, last)
    decreases first, 2
  {
    var result := new Delta<string>();
    var removedKeys := RemovedKeys(first, last);
    var addedKeys := AddedKeys(first, last);
    var keysKept := KeptKeys(first, last);

    AppendAll(result, RemoveChanges(removedKeys));
    assert result.changes == RemoveChanges(removedKeys);
    AppendAll(result, KeyInsertChanges(addedKeys, last.props));
    AddKeptEdits(result, first, last, keysKept);
    assert result.changes == ObjectChanges(first, last);
    r := if |result.changes| > 0 then DeltaObject(result.changes) else Identity;
  }

  /** `Delta<T>.CompareElement`: a null `first` gives an insertion (even when `last` is
      null too), a null `last` a removal, differing runtime types a replacement; two lists
      or two dictionaries are compared by their own algorithm; any other pair gives
      Identity when `object.Equals` holds and a replacement otherwise. */
  method CompareElement(first: Value, last: Value) returns (r: JsonDelta)
    ensures r == ElementDelta(first, last)
    decreases first, 3
  {
    if first == Null {
      return DeltaInsert(last);
    }
    if last == Null {
      return DeltaRemove;
    }
    if !SameType(first, last) {
      return DeltaReplace(last);
    }
    if first.Arr? && last.Arr? {
      r := CompareArrays(first.items, last.items);
    } else if first.Obj? && last.Obj? {
      r := CompareObjects(first, last);
    } else if RawEquals(first, last) {
      r := Identity;
    } else {
      r := DeltaReplace(last);
    }
  }

  // ---------------------------------------------------------------------------
  // The comparison as written

  /** Whether the comparison as written throws: it reaches, in the values themselves or
      through the values of kept dictionary keys, two lists with an equal pair, on which
      `Comparer.LongestCommonSubsequence` as written throws. */
  predicate ElementFaults(first: Value, last: Value)
    decreases first, 3
  {
    first != Null && last != Null && SameType(first, last)
    && ((first.Arr? && last.Arr? && LcsLength(JsonEquals, first.items, last.items, |first.items|, |last.items|) > 0)
        || (first.Obj? && last.Obj? && KeptFaults(first, last, KeptKeys(first, last))))
  }

  /** Whether comparing the values of some key in `kept` throws. */
  predicate KeptFaults(first: Value, last: Value, kept: seq<string>)
    requires first.Obj? && last.Obj?
    requires forall t :: 0 <= t < |kept| ==> kept[t] in Keys(first.props) && kept[t] in Keys(last.props)
    decreases first, 1, |kept|
  {
    kept != [] && (KeptFaults(first, last, kept[..|kept| - 1]) || KeptFault(first, last, kept[|kept| - 1]))
  }

  /** Taking one more kept key adds the fault of its comparison. */
  lemma FaultsStep(first: Value, last: Value, kept: seq<string>, t: nat)
    requires first.Obj? && last.Obj? && t < |kept|
    requires forall u :: 0 <= u < |kept| ==> kept[u] in Keys(first.props) && kept[u] in Keys(last.props)
    ensures KeptFaults(first, last, kept[..t + 1]) <==> KeptFaults(first, last, kept[..t]) || KeptFault(first, last, kept[t])
  {
    assert kept[..t + 1][..t] == kept[..t];
  }

  predicate KeptFault(first: Value, last: Value, key: string)
    requires first.Obj? && last.Obj? && key in Keys(first.props) && key in Keys(last.props)
    decreases first, 0
  {
    ElementFaults(first.props[IndexOf(first.props, key)].1, last.props[IndexOf(last.props, key)].1)
  }

  /** A fault among the first `n` kept keys is a fault among them all. */
  lemma {:induction false} KeptFaultsExtend(first: Value, last: Value, kept: seq<string>, n: nat)
    requires first.Obj? && last.Obj? && n <= |kept|
    requires forall u :: 0 <= u < |kept| ==> kept[u] in Keys(first.props) && kept[u] in Keys(last.props)
    requires KeptFaults(first, last, kept[..n])
    ensures KeptFaults(first, last, kept)
    decreases |kept| - n
  {
    if n < |kept| {
      FaultsStep(first, last, kept, n);
      KeptFaultsExtend(first, last, kept, n + 1);
    } else {
      assert kept[..n] == kept;
    }
  }

  /** The body of the kept-key loop as written. */
  method CompareKeptAsWritten(first: Value, last: Value, key: string) returns (delta: JsonDelta, ok: bool)
    requires first.Obj? && last.Obj? && key in Keys(first.props) && key in Keys(last.props)
    ensures ok <==> !KeptFault(first, last, key)
    ensures ok ==> delta == KeptDelta(first, last, key)
    decreases first, 0
  {
    var i := IndexOf(first.props, key);
    var j := IndexOf(last.props, key);
    delta, ok := CompareElementAsWritten(first.props[i].1, last.props[j].1);
  }

  /** The kept-key loop as written: the first comparison that throws ends it. */
  method AddKeptEditsAsWritten(result: Delta<string>, first: Value, last: Value, keysKept: seq<string>) returns (ok: bool)
    requires first.Obj? && last.Obj?
    requires forall k :: k in keysKept ==> k in Keys(first.props) && k in Keys(last.props)
    modifies result
    ensures ok <==> !KeptFaults(first, last, keysKept)
    ensures ok ==> result.changes == old(result.changes) + Edits(keysKept, KeptDeltas(first, last, keysKept))
    decreases first, 1
  {
    ghost var start := result.changes;
    ghost var deltas := KeptDeltas(first, last, keysKept);
    for t := 0 to |keysKept|
      invariant result.changes == start + Edits(keysKept[..t], deltas[..t])
      invariant !KeptFaults(first, last, keysKept[..t])
    {
      var key := keysKept[t];
      var delta, fine := CompareKeptAsWritten(first, last, key);
      FaultsStep(first, last, keysKept, t);
      if !fine {
        assert KeptFaults(first, last, keysKept[..t + 1]);
        KeptFaultsExtend(first, last, keysKept, t + 1);
        return false;
      }
      EditsStep(keysKept, deltas, t);
      if delta != Identity {
        result.changes := result.changes + [(key, delta)];
      }
    }
    assert keysKept[..|keysKept|] == keysKept && deltas[..|keysKept|] == deltas;
    ok := true;
  }

  /** `DeltaObject.Compare` as written: it throws exactly when comparing a kept key's
      values throws, and otherwise yields the same delta as the corrected comparison. */
  method CompareObjectsAsWritten(first: Value, last: Value) returns (r: JsonDelta, ok: bool)
    requires first.Obj? && last.Obj?
    ensures ok <==> !KeptFaults(first, last, KeptKeys(first, last))
    ensures ok ==> r == ObjectDelta(first, last)
    decreases first, 2
  {
    var result := new Delta<string>();
    var removedKeys := RemovedKeys(first, last);
    var addedKeys := AddedKeys(first, last);
    var keysKept := KeptKeys(first, last);

    AppendAll(result, RemoveChanges(removedKeys));
    assert result.changes == RemoveChanges(removedKeys);
    AppendAll(result, KeyInsertChanges(addedKeys, last.props));
    ok := AddKeptEditsAsWritten(result, first, last, keysKept);
    if !ok {
      return Identity, false;
    }
    assert result.changes == ObjectChanges(first, last);
    r := if |result.changes| > 0 then DeltaObject(result.changes) else Identity;
  }

  /** `Delta<T>.CompareElement` as written: it throws exactly when `ElementFaults` holds,
      and otherwise yields the same delta as the corrected comparison. */
  method CompareElementAsWritten(first: Value, last: Value) returns (r: JsonDelta, ok: bool)
    ensures ok <==> !ElementFaults(first, last)
    ensures ok ==> r == ElementDelta(first, last)
    decreases first, 3
  {
    if first == Null {
      return DeltaInsert(last), true;
    }
    if last == Null {
      return DeltaRemove, true;
    }
    if !SameType(first, last) {
      return DeltaReplace(last), true;
    }
    ok := true;
    if first.Arr? && last.Arr? {
      r, ok := CompareArraysAsWritten(first.items, last.items);
    } else if first.Obj? && last.Obj? {
      r, ok := CompareObjectsAsWritten(first, last);
    } else if RawEquals(first, last) {
      r := Identity;
    } else {
      r := DeltaReplace(last);
    }
  }
}
