/** What the comparison algorithms promise: how many changes an array comparison
    emits and in which order, when a comparison finds no difference, which changes an
    object comparison emits, and how the resulting deltas fare under `Apply`. */
module DiffProperties {
  import opened Json
  import opened Comparer
  import opened Lcs
  import opened Deltas
  import opened Diff

  // ---------------------------------------------------------------------------
  // Counting unmatched indices

  /** The members of `s` below `n`. */
  function Below(s: set<int>, n: nat): set<int>
  {
    set x | x in s && 0 <= x < n
  }

  lemma {:induction false} UnmatchedCount(n: nat, used: set<int>)
    ensures |UnmatchedAscending(n, used)| + |Below(used, n)| == n
    ensures |UnmatchedDescending(n, used)| == |UnmatchedAscending(n, used)|
  {
    if n > 0 {
      UnmatchedCount(n - 1, used);
      if n - 1 in used {
        assert Below(used, n) == Below(used, n - 1) + {n - 1};
      } else {
        assert Below(used, n) == Below(used, n - 1);
      }
    }
  }

  /** The components of a strictly increasing alignment are all distinct and all
      below the bounds. */
  lemma {:induction false} FirstsCount(m: seq<(int, int)>, n1: nat, n2: nat)
    requires forall t :: 0 <= t < |m| ==> 0 <= m[t].0 < n1 && 0 <= m[t].1 < n2
    requires forall s, t :: 0 <= s < t < |m| ==> m[s].0 < m[t].0 && m[s].1 < m[t].1
    ensures |Firsts(m)| == |m| && |Lasts(m)| == |m|
    ensures Below(Firsts(m), n1) == Firsts(m) && Below(Lasts(m), n2) == Lasts(m)
    ensures forall x :: x in Firsts(m) ==> m == [] || x <= m[|m| - 1].0
    ensures forall y :: y in Lasts(m) ==> m == [] || y <= m[|m| - 1].1
  {
    if |m| > 0 {
      var k := |m| - 1;
      FirstsCount(m[..k], n1, n2);
    }
  }

  /** `DeltaArray.Compare` removes exactly the elements of `first` outside a longest
      common subsequence and inserts exactly the elements of `last` outside it. */
  lemma ArrayChangeCounts(first: seq<Value>, last: seq<Value>)
    ensures |RemovedIndices(first, last)| == |first| - LcsLength(JsonEquals, first, last, |first|, |last|)
    ensures |AddedIndices(first, last)| == |last| - LcsLength(JsonEquals, first, last, |first|, |last|)
    ensures |ArrayChanges(first, last)| == |first| + |last| - 2 * LcsLength(JsonEquals, first, last, |first|, |last|)
  {
    var m := Matches(first, last);
    BacktrackIsAlignment(JsonEquals, first, last, |first|, |last|);
    FirstsCount(m, |first|, |last|);
    UnmatchedCount(|first|, Firsts(m));
    UnmatchedCount(|last|, Lasts(m));
  }

  /** The changes of an array comparison: first the removals, at strictly descending
      indices of `first` that the alignment leaves out, then the insertions of
      `last[y]`, at strictly ascending indices y that the alignment leaves out. Nothing
      else: no nested delta, no replacement, no Identity. */
  lemma ArrayChangesShape(first: seq<Value>, last: seq<Value>)
    ensures var c := ArrayChanges(first, last);
            var r := |RemovedIndices(first, last)|;
            && (forall t :: 0 <= t < r ==>
                  c[t].1 == DeltaRemove && 0 <= c[t].0 < |first| && c[t].0 !in Firsts(Matches(first, last)))
            && (forall t :: r <= t < |c| ==>
                  0 <= c[t].0 < |last| && c[t].1 == DeltaInsert(last[c[t].0]) && c[t].0 !in Lasts(Matches(first, last)))
            && (forall s, t :: 0 <= s < t < r ==> c[s].0 > c[t].0)
            && (forall s, t :: r <= s < t < |c| ==> c[s].0 < c[t].0)
  {
    var m := Matches(first, last);
    UnmatchedDescendingFacts(|first|, Firsts(m));
    UnmatchedAscendingFacts(|last|, Lasts(m));
    ChangesShape(RemovedIndices(first, last), AddedIndices(first, last), |first|, last, Firsts(m), Lasts(m));
  }

  /** Removals at descending indices below `n` outside `kept`, then insertions from
      `last` at ascending indices outside `used`, have the shape `ArrayChangesShape`
      states. */
  lemma ChangesShape(rm: seq<int>, ad: seq<int>, n: nat, last: seq<Value>, kept: set<int>, used: set<int>)
    requires forall t :: 0 <= t < |rm| ==> 0 <= rm[t] < n && rm[t] !in kept
    requires forall s, t :: 0 <= s < t < |rm| ==> rm[s] > rm[t]
    requires forall t :: 0 <= t < |ad| ==> 0 <= ad[t] < |last| && ad[t] !in used
    requires forall s, t :: 0 <= s < t < |ad| ==> ad[s] < ad[t]
    ensures var c := RemoveChanges(rm) + InsertChanges(ad, last);
            && (forall t :: 0 <= t < |rm| ==> c[t].1 == DeltaRemove && 0 <= c[t].0 < n && c[t].0 !in kept)
            && (forall t :: |rm| <= t < |c| ==> 0 <= c[t].0 < |last| && c[t].1 == DeltaInsert(last[c[t].0]) && c[t].0 !in used)
            && (forall s, t :: 0 <= s < t < |rm| ==> c[s].0 > c[t].0)
            && (forall s, t :: |rm| <= s < t < |c| ==> c[s].0 < c[t].0)
  {
    var c := RemoveChanges(rm) + InsertChanges(ad, last);
    assert forall t :: 0 <= t < |rm| ==> c[t] == (rm[t], DeltaRemove);
    assert forall t :: |rm| <= t < |c| ==> c[t] == (ad[t - |rm|], DeltaInsert(last[ad[t - |rm|]]));
  }

  // ---------------------------------------------------------------------------
  // When an array comparison finds no difference

  lemma {:induction false} AlignmentLowerBound(m: seq<(int, int)>, t: nat)
    requires t < |m|
    requires forall u :: 0 <= u < |m| ==> 0 <= m[u].0 && 0 <= m[u].1
    requires forall s, u :: 0 <= s < u < |m| ==> m[s].0 < m[u].0 && m[s].1 < m[u].1
    ensures m[t].0 >= t && m[t].1 >= t
  {
    if t > 0 {
      AlignmentLowerBound(m, t - 1);
    }
  }

  lemma {:induction false} AlignmentUpperBound(m: seq<(int, int)>, n: nat, t: nat)
    requires t < |m| <= n
    requires forall u :: 0 <= u < |m| ==> m[u].0 < n && m[u].1 < n
    requires forall s, u :: 0 <= s < u < |m| ==> m[s].0 < m[u].0 && m[s].1 < m[u].1
    ensures m[t].0 <= n - |m| + t && m[t].1 <= n - |m| + t
    decreases |m| - t
  {
    if t < |m| - 1 {
      AlignmentUpperBound(m, n, t + 1);
    }
  }

  /** An alignment as long as both lists pairs each position with itself. */
  lemma FullAlignmentIsDiagonal(first: seq<Value>, last: seq<Value>, m: seq<(int, int)>)
    requires |m| == |first| == |last|
    requires IsAlignment(JsonEquals, first, last, m, |first|, |last|)
    ensures forall t :: 0 <= t < |m| ==> m[t] == (t, t)
  {
    forall t | 0 <= t < |m|
      ensures m[t] == (t, t)
    {
      AlignmentLowerBound(m, t);
      AlignmentUpperBound(m, |first|, t);
    }
  }

  /** Identity from `DeltaArray.Compare` means the lists are pairwise equal. */
  lemma ArrayIdentityMeansEqual(first: seq<Value>, last: seq<Value>)
    requires |first| == |last| == LcsLength(JsonEquals, first, last, |first|, |last|)
    ensures forall i :: 0 <= i < |first| ==> JsonEquals(first[i], last[i])
  {
    var m := Matches(first, last);
    BacktrackIsAlignment(JsonEquals, first, last, |first|, |last|);
    FullAlignmentIsDiagonal(first, last, m);
    forall i | 0 <= i < |first|
      ensures JsonEquals(first[i], last[i])
    {
      assert m[i] == (i, i);
    }
  }

  /** Pairwise equal lists have a common subsequence as long as both. */
  lemma EqualListsAlignFully(first: seq<Value>, last: seq<Value>)
    requires |first| == |last|
    requires forall i :: 0 <= i < |first| ==> JsonEquals(first[i], last[i])
    ensures LcsLength(JsonEquals, first, last, |first|, |last|) == |first|
  {
    var diagonal := seq(|first|, t => (t, t));
    assert IsAlignment(JsonEquals, first, last, diagonal, |first|, |last|);
    LcsIsLongest(JsonEquals, first, last, diagonal, |first|, |last|);
  }

  /** `DeltaArray.Compare` returns Identity exactly when the lists have the same length
      and are pairwise `Comparer.Equals`. */
  lemma ArrayDeltaIdentityIff(first: seq<Value>, last: seq<Value>)
    ensures ArrayDelta(first, last) == Identity
            <==> |first| == |last| && forall i :: 0 <= i < |first| ==> JsonEquals(first[i], last[i])
  {
    ArrayChangeCounts(first, last);
    if |ArrayChanges(first, last)| == 0 {
      ArrayIdentityMeansEqual(first, last);
    }
    if |first| == |last| && forall i :: 0 <= i < |first| ==> JsonEquals(first[i], last[i]) {
      EqualListsAlignFully(first, last);
    }
  }

  /** `Comparer.Equals(v, v)` holds for every value but null. */
  lemma EqualsReflexiveExceptNull(v: Value)
    ensures JsonEquals(v, v) <==> v != Null
  {
    if v != Null {
      assert SameType(v, v) && RawEquals(v, v);
    }
  }

  /** Comparing a list with itself finds no difference exactly when it holds no null. */
  lemma ArraySelfDiff(items: seq<Value>)
    ensures ArrayDelta(items, items) == Identity <==> Null !in items
  {
    ArrayDeltaIdentityIff(items, items);
    forall i | 0 <= i < |items|
      ensures JsonEquals(items[i], items[i]) <==> items[i] != Null
    {
      EqualsReflexiveExceptNull(items[i]);
    }
  }

  // ---------------------------------------------------------------------------
  // What an object comparison emits

  lemma {:induction false} EditsMember(kept: seq<string>, deltas: seq<JsonDelta>, k: string, d: JsonDelta)
    requires |kept| == |deltas|
    ensures (k, d) in Edits(kept, deltas)
            <==> d != Identity && exists t :: 0 <= t < |kept| && kept[t] == k && deltas[t] == d
    decreases |kept|
  {
    if kept != [] {
      var n := |kept| - 1;
      EditsMember(kept[..n], deltas[..n], k, d);
      if d != Identity && (exists t :: 0 <= t < |kept| && kept[t] == k && deltas[t] == d) {
        var t :| 0 <= t < |kept| && kept[t] == k && deltas[t] == d;
        if t < n {
          assert kept[..n][t] == k && deltas[..n][t] == d;
        }
      }
    }
  }

  lemma {:induction false} EditsKeys(kept: seq<string>, deltas: seq<JsonDelta>)
    requires |kept| == |deltas|
    requires NoRepeats(kept)
    ensures forall t :: 0 <= t < |Edits(kept, deltas)| ==> Edits(kept, deltas)[t].0 in kept
    ensures DistinctKeys(Edits(kept, deltas))
    decreases |kept|
  {
    if kept != [] {
      var n := |kept| - 1;
      EditsKeys(kept[..n], deltas[..n]);
      var e := Edits(kept[..n], deltas[..n]);
      assert forall t :: 0 <= t < |e| ==> e[t].0 in kept[..n];
      assert kept[n] !in kept[..n];
    }
  }

  /** A change `(k, d)` is in what `DeltaObject.Compare` collects exactly when `k` is a key
      only `first` has and `d` removes it, or a key only `last` has and `d` inserts
      `last[k]`, or a key both have and `d` is the (non-Identity) comparison of their values. */
  lemma ObjectChangesIff(first: Value, last: Value, k: string, d: JsonDelta)
    requires first.Obj? && last.Obj?
    ensures (k, d) in ObjectChanges(first, last)
            <==> || (k in Keys(first.props) && k !in Keys(last.props) && d == DeltaRemove)
                 || (k !in Keys(first.props) && k in Keys(last.props) && d == DeltaInsert(Lookup(last.props, k).value))
                 || (k in Keys(first.props) && k in Keys(last.props) && d == KeptDelta(first, last, k) && d != Identity)
  {
    var kept := KeptKeys(first, last);
    RemovalMember(first, last, k, d);
    InsertionMember(first, last, k, d);
    EditMember(first, last, k, d);
    InConcat(RemoveChanges(RemovedKeys(first, last)), KeyInsertChanges(AddedKeys(first, last), last.props),
             Edits(kept, KeptDeltas(first, last, kept)), (k, d));
  }

  lemma InConcat<X>(a: seq<X>, b: seq<X>, c: seq<X>, x: X)
    ensures x in a + b + c <==> x in a || x in b || x in c
  {
  }

  /** The removals are `(k, DeltaRemove)` for the keys only `first` has. */
  lemma RemovalMember(first: Value, last: Value, k: string, d: JsonDelta)
    requires first.Obj? && last.Obj?
    ensures (k, d) in RemoveChanges(RemovedKeys(first, last))
            <==> k in Keys(first.props) && k !in Keys(last.props) && d == DeltaRemove
  {
    var keys := RemovedKeys(first, last);
    var c := RemoveChanges(keys);
    if (k, d) in c {
      var t :| 0 <= t < |c| && c[t] == (k, d);
      assert keys[t] == k && keys[t] in keys;
    }
    if k in Keys(first.props) && k !in Keys(last.props) && d == DeltaRemove {
      var t :| 0 <= t < |keys| && keys[t] == k;
      assert c[t] == (k, d);
    }
  }

  /** The insertions are `(k, DeltaInsert(last[k]))` for the keys only `last` has. */
  lemma InsertionMember(first: Value, last: Value, k: string, d: JsonDelta)
    requires first.Obj? && last.Obj?
    ensures (k, d) in KeyInsertChanges(AddedKeys(first, last), last.props)
            <==> k !in Keys(first.props) && k in Keys(last.props) && d == DeltaInsert(Lookup(last.props, k).value)
  {
    if (k, d) in KeyInsertChanges(AddedKeys(first, last), last.props) {
      InsertionOnlyAdded(first, last, k, d);
    }
    if k !in Keys(first.props) && k in Keys(last.props) && d == DeltaInsert(Lookup(last.props, k).value) {
      AddedInserted(first, last, k);
    }
  }

  /** An insertion names a key only `last` has and carries its value. */
  lemma InsertionOnlyAdded(first: Value, last: Value, k: string, d: JsonDelta)
    requires first.Obj? && last.Obj?
    requires (k, d) in KeyInsertChanges(AddedKeys(first, last), last.props)
    ensures k !in Keys(first.props) && k in Keys(last.props) && d == DeltaInsert(Lookup(last.props, k).value)
  {
    var keys := AddedKeys(first, last);
    var c := KeyInsertChanges(keys, last.props);
    var t :| 0 <= t < |c| && c[t] == (k, d);
    assert keys[t] == k && keys[t] in keys;
  }

  /** Every key only `last` has is inserted with its value. */
  lemma AddedInserted(first: Value, last: Value, k: string)
    requires first.Obj? && last.Obj?
    requires k !in Keys(first.props) && k in Keys(last.props)
    ensures (k, DeltaInsert(Lookup(last.props, k).value)) in KeyInsertChanges(AddedKeys(first, last), last.props)
  {
    var keys := AddedKeys(first, last);
    var c := KeyInsertChanges(keys, last.props);
    var t :| 0 <= t < |keys| && keys[t] == k;
    assert c[t] == (k, DeltaInsert(Lookup(last.props, k).value));
  }


  /** The kept-key edits are `(k, d)` for the keys both have whose comparison `d` is
      not Identity. */
  lemma EditMember(first: Value, last: Value, k: string, d: JsonDelta)
    requires first.Obj? && last.Obj?
    ensures var kept := KeptKeys(first, last);
            (k, d) in Edits(kept, KeptDeltas(first, last, kept))
            <==> k in Keys(first.props) && k in Keys(last.props) && d == KeptDelta(first, last, k) && d != Identity
  {
    var kept := KeptKeys(first, last);
    var deltas := KeptDeltas(first, last, kept);
    EditsMember(kept, deltas, k, d);
    if k in Keys(first.props) && k in Keys(last.props) && d == KeptDelta(first, last, k) && d != Identity {
      var t :| 0 <= t < |kept| && kept[t] == k;
      assert deltas[t] == d;
    }
  }

  /** The comparison of two dictionaries finds no difference exactly when they have the
      same keys and the values of every key compare as Identity. */
  lemma ObjectDeltaIdentityIff(first: Value, last: Value)
    requires first.Obj? && last.Obj?
    ensures ObjectDelta(first, last) == Identity
            <==> && (forall k :: k in Keys(first.props) <==> k in Keys(last.props))
                 && (forall k :: k in Keys(first.props) ==> KeptDelta(first, last, k) == Identity)
  {
    var c := ObjectChanges(first, last);
    if c == [] {
      forall k | k in Keys(first.props) || k in Keys(last.props)
        ensures k in Keys(first.props) && k in Keys(last.props) && KeptDelta(first, last, k) == Identity
      {
        ObjectChangesIff(first, last, k, DeltaRemove);
        ObjectChangesIff(first, last, k, DeltaInsert(Lookup(last.props, k).value));
        ObjectChangesIff(first, last, k, KeptDelta(first, last, k));
      }
    } else {
      var (k, d) := c[0];
      assert (k, d) in c;
      ObjectChangesIff(first, last, k, d);
    }
  }

  predicate DistinctKeys(c: seq<(string, JsonDelta)>)
  {
    forall s, t :: 0 <= s < t < |c| ==> c[s].0 != c[t].0
  }

  lemma ConcatDistinctKeys(a: seq<(string, JsonDelta)>, b: seq<(string, JsonDelta)>)
    requires DistinctKeys(a) && DistinctKeys(b)
    requires forall s, t :: 0 <= s < |a| && 0 <= t < |b| ==> a[s].0 != b[t].0
    ensures DistinctKeys(a + b)
  {
    forall s, t | 0 <= s < t < |a + b|
      ensures (a + b)[s].0 != (a + b)[t].0
    {
      if t < |a| {
      } else if s < |a| {
        assert (a + b)[t] == b[t - |a|];
      } else {
        assert (a + b)[s] == b[s - |a|] && (a + b)[t] == b[t - |a|];
      }
    }
  }

  /** The removals name distinct keys that only `first` has. */
  lemma RemovalKeys(first: Value, last: Value)
    requires first.Obj? && last.Obj?
    ensures var c := RemoveChanges(RemovedKeys(first, last));
            && DistinctKeys(c)
            && forall t :: 0 <= t < |c| ==> c[t].0 in Keys(first.props) && c[t].0 !in Keys(last.props)
  {
    PickDistinct(Keys(first.props), Keys(last.props), false, {});
  }

  /** The insertions name distinct keys that only `last` has. */
  lemma InsertionKeys(first: Value, last: Value)
    requires first.Obj? && last.Obj?
    ensures var c := KeyInsertChanges(AddedKeys(first, last), last.props);
            && DistinctKeys(c)
            && forall t :: 0 <= t < |c| ==> c[t].0 !in Keys(first.props) && c[t].0 in Keys(last.props)
  {
    PickDistinct(Keys(last.props), Keys(first.props), false, {});
  }

  /** The kept-key edits name distinct keys that both have. */
  lemma EditKeys(first: Value, last: Value)
    requires first.Obj? && last.Obj?
    ensures var kept := KeptKeys(first, last);
            var c := Edits(kept, KeptDeltas(first, last, kept));
            && DistinctKeys(c)
            && forall t :: 0 <= t < |c| ==> c[t].0 in Keys(first.props) && c[t].0 in Keys(last.props)
  {
    var kept := KeptKeys(first, last);
    PickDistinct(Keys(first.props), Keys(last.props), true, {});
    EditsKeys(kept, KeptDeltas(first, last, kept));
  }

  /** No key occurs in two changes of an object comparison. */
  lemma ObjectChangeKeysUnique(first: Value, last: Value)
    requires first.Obj? && last.Obj?
    ensures DistinctKeys(ObjectChanges(first, last))
  {
    var kept := KeptKeys(first, last);
    RemovalKeys(first, last);
    InsertionKeys(first, last);
    EditKeys(first, last);
    DistinctThree(RemoveChanges(RemovedKeys(first, last)), KeyInsertChanges(AddedKeys(first, last), last.props),
                  Edits(kept, KeptDeltas(first, last, kept)), Keys(first.props), Keys(last.props));
  }

  /** Three runs of changes with distinct keys, whose keys are in `xs` only, in `ys` only
      and in both, have distinct keys together. */
  lemma DistinctThree(a: seq<(string, JsonDelta)>, b: seq<(string, JsonDelta)>, c: seq<(string, JsonDelta)>, xs: seq<string>, ys: seq<string>)
    requires DistinctKeys(a) && DistinctKeys(b) && DistinctKeys(c)
    requires forall t :: 0 <= t < |a| ==> a[t].0 in xs && a[t].0 !in ys
    requires forall t :: 0 <= t < |b| ==> b[t].0 !in xs && b[t].0 in ys
    requires forall t :: 0 <= t < |c| ==> c[t].0 in xs && c[t].0 in ys
    ensures DistinctKeys(a + b + c)
  {
    ConcatDistinctKeys(a, b);
    var front := a + b;
    forall s | 0 <= s < |front|
      ensures (front[s].0 in xs) != (front[s].0 in ys)
    {
      if s >= |a| {
        assert front[s] == b[s - |a|];
      }
    }
    ConcatDistinctKeys(front, c);
  }

  // ---------------------------------------------------------------------------
  // The order of an object comparison's changes

  /** The keys the changes name, in order. */
  function ChangeKeys(c: seq<(string, JsonDelta)>): (ks: seq<string>)
    ensures |ks| == |c|
  {
    if c == [] then [] else [c[0].0] + ChangeKeys(c[1..])
  }

  /** The t-th key named is the key of the t-th change. */
  lemma {:induction false} ChangeKeysAt(c: seq<(string, JsonDelta)>)
    ensures forall t :: 0 <= t < |c| ==> ChangeKeys(c)[t] == c[t].0
  {
    if c != [] {
      ChangeKeysAt(c[1..]);
    }
  }

  /** An in-order subsequence of a prefix of `xs` is one of `xs`. */
  lemma InOrderOfPrefix(r: seq<string>, xs: seq<string>, n: nat)
    requires n <= |xs| && InOrderOf(r, xs[..n])
    ensures InOrderOf(r, xs)
  {
    forall s, t | 0 <= s < t < |r|
      ensures Precedes(r[s], r[t], xs)
    {
      var a, b :| 0 <= a < b < |xs[..n]| && xs[..n][a] == r[s] && xs[..n][b] == r[t];
      assert xs[a] == r[s] && xs[b] == r[t];
    }
  }

  /** An in-order subsequence of all of `xs` but its last element, followed by that
      element, is one of `xs`. */
  lemma InOrderOfSnoc(r: seq<string>, xs: seq<string>)
    requires xs != [] && InOrderOf(r, xs[..|xs| - 1])
    requires forall t :: 0 <= t < |r| ==> r[t] in xs[..|xs| - 1]
    ensures InOrderOf(r + [xs[|xs| - 1]], xs)
  {
    var n := |xs| - 1;
    var r' := r + [xs[n]];
    forall s, t | 0 <= s < t < |r'|
      ensures Precedes(r'[s], r'[t], xs)
    {
      assert r'[s] == r[s] && r[s] in xs[..n];
      if t == |r| {
        var a :| 0 <= a < n && xs[..n][a] == r[s];
        assert xs[a] == r'[s] && xs[n] == r'[t];
      } else {
        assert r'[t] == r[t];
        InOrderOfPrefix(r, xs, n);
      }
    }
  }

  /** In-order subsequences compose. */
  lemma InOrderOfTrans(r: seq<string>, ys: seq<string>, xs: seq<string>)
    requires InOrderOf(r, ys) && InOrderOf(ys, xs)
    ensures InOrderOf(r, xs)
  {
    forall s, t | 0 <= s < t < |r|
      ensures Precedes(r[s], r[t], xs)
    {
      var a, b :| 0 <= a < b < |ys| && ys[a] == r[s] && ys[b] == r[t];
      assert Precedes(ys[a], ys[b], xs);
    }
  }

  /** Appending a change appends its key. */
  lemma {:induction false} ChangeKeysSnoc(e: seq<(string, JsonDelta)>, x: (string, JsonDelta))
    ensures ChangeKeys(e + [x]) == ChangeKeys(e) + [x.0]
  {
    if e != [] {
      assert (e + [x])[1..] == e[1..] + [x];
      ChangeKeysSnoc(e[1..], x);
    }
  }

  /** An element of a prefix of `xs` is an element of `xs`. */
  lemma InPrefix(r: seq<string>, xs: seq<string>, n: nat)
    requires n <= |xs|
    requires forall t :: 0 <= t < |r| ==> r[t] in xs[..n]
    ensures forall t :: 0 <= t < |r| ==> r[t] in xs
  {
    forall t | 0 <= t < |r|
      ensures r[t] in xs
    {
      var a :| 0 <= a < n && xs[..n][a] == r[t];
      assert xs[a] == r[t];
    }
  }

  /** The edits name kept keys, in the order of `kept`. */
  lemma {:induction false} EditsOrdered(kept: seq<string>, deltas: seq<JsonDelta>)
    requires |kept| == |deltas|
    ensures forall t :: 0 <= t < |ChangeKeys(Edits(kept, deltas))| ==> ChangeKeys(Edits(kept, deltas))[t] in kept
    ensures InOrderOf(ChangeKeys(Edits(kept, deltas)), kept)
    decreases |kept|
  {
    if kept != [] {
      var n := |kept| - 1;
      EditsOrdered(kept[..n], deltas[..n]);
      var e := Edits(kept[..n], deltas[..n]);
      InPrefix(ChangeKeys(e), kept, n);
      if deltas[n] == Identity {
        assert Edits(kept, deltas) == e;
        InOrderOfPrefix(ChangeKeys(e), kept, n);
      } else {
        assert Edits(kept, deltas) == e + [(kept[n], deltas[n])];
        ChangeKeysSnoc(e, (kept[n], deltas[n]));
        InOrderOfSnoc(ChangeKeys(e), kept);
      }
    }
  }

  /** Three runs of changes, removals in the order of `xs`, insertions in the order of `ys`
      and others in the order of `xs`, keep their places and orders one after another. */
  lemma ThreeRunsOrdered(a: seq<(string, JsonDelta)>, b: seq<(string, JsonDelta)>, c: seq<(string, JsonDelta)>,
                         xs: seq<string>, ys: seq<string>)
    requires forall t :: 0 <= t < |a| ==> a[t].1 == DeltaRemove
    requires forall t :: 0 <= t < |b| ==> b[t].1.DeltaInsert?
    requires InOrderOf(ChangeKeys(a), xs) && InOrderOf(ChangeKeys(b), ys) && InOrderOf(ChangeKeys(c), xs)
    ensures var d := a + b + c;
            && |a| + |b| <= |d|
            && (forall t :: 0 <= t < |a| ==> d[t].1 == DeltaRemove)
            && (forall t :: |a| <= t < |a| + |b| ==> d[t].1.DeltaInsert?)
            && InOrderOf(ChangeKeys(d[..|a|]), xs)
            && InOrderOf(ChangeKeys(d[|a|..|a| + |b|]), ys)
            && InOrderOf(ChangeKeys(d[|a| + |b|..]), xs)
  {
    var d := a + b + c;
    assert d[..|a|] == a && d[|a|..|a| + |b|] == b && d[|a| + |b|..] == c;
    assert forall t :: |a| <= t < |a| + |b| ==> d[t] == b[t - |a|];
  }

  /** The removals follow the order of `first`'s keys. */
  lemma RemovalOrder(first: Value, last: Value)
    requires first.Obj? && last.Obj?
    ensures InOrderOf(ChangeKeys(RemoveChanges(RemovedKeys(first, last))), Keys(first.props))
  {
    ChangeKeysAt(RemoveChanges(RemovedKeys(first, last)));
    assert ChangeKeys(RemoveChanges(RemovedKeys(first, last))) == RemovedKeys(first, last);
    PickOrdered(Keys(first.props), Keys(last.props), false, {});
  }

  /** The insertions follow the order of `last`'s keys. */
  lemma InsertionOrder(first: Value, last: Value)
    requires first.Obj? && last.Obj?
    ensures InOrderOf(ChangeKeys(KeyInsertChanges(AddedKeys(first, last), last.props)), Keys(last.props))
  {
    ChangeKeysAt(KeyInsertChanges(AddedKeys(first, last), last.props));
    assert ChangeKeys(KeyInsertChanges(AddedKeys(first, last), last.props)) == AddedKeys(first, last);
    PickOrdered(Keys(last.props), Keys(first.props), false, {});
  }

  /** The kept-key edits follow the order of `first`'s keys. */
  lemma EditOrder(first: Value, last: Value)
    requires first.Obj? && last.Obj?
    ensures var kept := KeptKeys(first, last);
            InOrderOf(ChangeKeys(Edits(kept, KeptDeltas(first, last, kept))), Keys(first.props))
  {
    var kept := KeptKeys(first, last);
    PickOrdered(Keys(first.props), Keys(last.props), true, {});
    EditsOrdered(kept, KeptDeltas(first, last, kept));
    InOrderOfTrans(ChangeKeys(Edits(kept, KeptDeltas(first, last, kept))), kept, Keys(first.props));
  }

  /** `DeltaObject.Compare` lists its changes in three runs: the removals, in the order of
      `first`'s keys; the insertions, in the order of `last`'s keys; then the kept-key
      edits, in the order of `first`'s keys. */
  lemma ObjectChangesOrder(first: Value, last: Value)
    requires first.Obj? && last.Obj?
    ensures var c := ObjectChanges(first, last);
            var nr := |RemovedKeys(first, last)|;
            var na := |AddedKeys(first, last)|;
            && nr + na <= |c|
            && (forall t :: 0 <= t < nr ==> c[t].1 == DeltaRemove)
            && (forall t :: nr <= t < nr + na ==> c[t].1.DeltaInsert?)
            && InOrderOf(ChangeKeys(c[..nr]), Keys(first.props))
            && InOrderOf(ChangeKeys(c[nr..nr + na]), Keys(last.props))
            && InOrderOf(ChangeKeys(c[nr + na..]), Keys(first.props))
  {
    var kept := KeptKeys(first, last);
    RemovalOrder(first, last);
    InsertionOrder(first, last);
    EditOrder(first, last);
    ThreeRunsOrdered(RemoveChanges(RemovedKeys(first, last)), KeyInsertChanges(AddedKeys(first, last), last.props),
                     Edits(kept, KeptDeltas(first, last, kept)), Keys(first.props), Keys(last.props));
  }

  // ---------------------------------------------------------------------------
  // Comparing a value with itself

  /** The values on which comparing with oneself finds no difference: not null, a list
      without a null element, or a dictionary whose every (first) entry is again such a
      value. Lists are not entered further, because their elements are compared with
      `Comparer.Equals`. */
  predicate SelfStable(v: Value)
  {
    match v
    case Null => false
    case Arr(_, items) => Null !in items
    case Obj(_, props) => forall i :: 0 <= i < |props| && IndexOf(props, props[i].0) == i ==> SelfStable(props[i].1)
    case _ => true
  }

  /** Comparing a value with itself yields Identity exactly on the self-stable values:
      a null anywhere a comparison reaches (the value itself, a list element, a
      dictionary entry) makes the comparison report a change. */
  lemma {:induction false} ElementSelfDiff(v: Value)
    ensures ElementDelta(v, v) == Identity <==> SelfStable(v)
    decreases v, 1
  {
    match v
    case Null =>
    case Arr(_, items) => ArraySelfDiff(items);
    case Obj(_, props) => ObjectSelfDiff(v);
    case _ =>
  }

  lemma {:induction false} ObjectSelfDiff(v: Value)
    requires v.Obj?
    ensures ObjectDelta(v, v) == Identity <==> SelfStable(v)
    decreases v, 0
  {
    var props := v.props;
    ObjectDeltaIdentityIff(v, v);
    forall k | k in Keys(props)
      ensures KeptDelta(v, v, k) == Identity <==> SelfStable(props[IndexOf(props, k)].1)
    {
      ElementSelfDiff(props[IndexOf(props, k)].1);
    }
    if !SelfStable(v) {
      var i :| 0 <= i < |props| && IndexOf(props, props[i].0) == i && !SelfStable(props[i].1);
      assert props[i].0 in Keys(props) by { assert Keys(props)[i] == props[i].0; }
    }
  }

  // ---------------------------------------------------------------------------
  // Comparison results under Apply

  /** An array comparison with two or more changes never applies: its first change is an
      insertion or removal, which hands the delta itself on as the next target. */
  lemma ArrayDeltaWithSeveralChangesThrows(first: seq<Value>, last: seq<Value>, root: Value, target: Acc)
    requires |ArrayChanges(first, last)| >= 2
    ensures Apply(ArrayDelta(first, last), root, target).outcome.Threw?
  {
    var c := ArrayChanges(first, last);
    ArrayChangesShape(first, last);
    TwoEditsThrow(DeltaArray(c), root, target);
  }

  /** The same holds for an object comparison that removes or adds a key and has any
      further change: the removal or insertion comes first. */
  lemma ObjectDeltaWithKeyEditAndMoreThrows(first: Value, last: Value, root: Value, target: Acc)
    requires first.Obj? && last.Obj?
    requires |RemovedKeys(first, last)| + |AddedKeys(first, last)| >= 1
    requires |ObjectChanges(first, last)| >= 2
    ensures Apply(ObjectDelta(first, last), root, target).outcome.Threw?
  {
    var c := ObjectChanges(first, last);
    FirstObjectChange(first, last);
    TwoEditsThrow(DeltaObject(c), root, target);
  }

  /** An object comparison that removes or adds a key starts with that removal or
      insertion. */
  lemma FirstObjectChange(first: Value, last: Value)
    requires first.Obj? && last.Obj?
    requires |RemovedKeys(first, last)| + |AddedKeys(first, last)| >= 1
    ensures |ObjectChanges(first, last)| >= 1
    ensures ObjectChanges(first, last)[0].1.DeltaRemove? || ObjectChanges(first, last)[0].1.DeltaInsert?
    ensures forall t :: 0 <= t < |ObjectChanges(first, last)| ==> ObjectChanges(first, last)[t].1 != Identity
  {
    var removed := RemoveChanges(RemovedKeys(first, last));
    var added := KeyInsertChanges(AddedKeys(first, last), last.props);
    var kept := KeptKeys(first, last);
    var edits := Edits(kept, KeptDeltas(first, last, kept));
    var c := removed + added + edits;
    assert ObjectChanges(first, last) == c;
    EditsNotIdentity(kept, KeptDeltas(first, last, kept));
    LeadingEdit(removed, added, edits);
  }

  /** Removals, then insertions, then changes that are not Identity, at least one of the
      first two: the first change removes or inserts, and none is Identity. */
  lemma LeadingEdit<K>(removed: seq<(K, JsonDelta)>, added: seq<(K, JsonDelta)>, edits: seq<(K, JsonDelta)>)
    requires forall t :: 0 <= t < |removed| ==> removed[t].1 == DeltaRemove
    requires forall t :: 0 <= t < |added| ==> added[t].1.DeltaInsert?
    requires forall t :: 0 <= t < |edits| ==> edits[t].1 != Identity
    requires |removed| + |added| >= 1
    ensures var c := removed + added + edits;
            && (c[0].1.DeltaRemove? || c[0].1.DeltaInsert?)
            && forall t :: 0 <= t < |c| ==> c[t].1 != Identity
  {
    var c := removed + added + edits;
    forall t | 0 <= t < |c|
      ensures c[t].1 != Identity
    {
      if t < |removed| {
        assert c[t] == removed[t];
      } else if t < |removed| + |added| {
        assert c[t] == added[t - |removed|];
      } else {
        assert c[t] == edits[t - |removed| - |added|];
      }
    }
    if |removed| == 0 {
      assert c[0] == added[0];
    }
  }

  /** The kept-key loop appends no Identity. */
  lemma {:induction false} EditsNotIdentity(kept: seq<string>, deltas: seq<JsonDelta>)
    requires |kept| == |deltas|
    ensures forall t :: 0 <= t < |Edits(kept, deltas)| ==> Edits(kept, deltas)[t].1 != Identity
    decreases |kept|
  {
    if kept != [] {
      var n := |kept| - 1;
      EditsNotIdentity(kept[..n], deltas[..n]);
    }
  }

  // ---------------------------------------------------------------------------
  // The comparison as written

  /** As written, comparing two lists that have an equal pair throws: the alignment
      then has at least one pair, and the walk back as written fails on its last one. */
  lemma EqualPairFaults(first: Value, last: Value, i: nat, j: nat)
    requires first.Arr? && last.Arr? && i < |first.items| && j < |last.items|
    requires JsonEquals(first.items[i], last.items[j])
    ensures ElementFaults(first, last)
  {
    var m := [(i, j)];
    assert IsAlignment(JsonEquals, first.items, last.items, m, |first.items|, |last.items|);
    LcsIsLongest(JsonEquals, first.items, last.items, m, |first.items|, |last.items|);
  }
}
