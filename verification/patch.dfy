/** The apply the code evidently intends, and what it makes of an array diff.

    As written, `DeltaArray.Insert`/`Remove` and `DeltaObject.Insert`/`Remove` end in
    `return this`, so the fold in `Delta<T>.Apply` hands the delta itself, not the target,
    to the next change (see `Deltas.EditThenEditThrows`). Here every change works on the
    same target: an insert or a removal hands back the target it changed, and a nested
    edit leaves the parent as the next change's target. */
module Patch {
  import opened Json
  import opened Comparer
  import opened Lcs
  import opened Deltas
  import opened Diff
  import opened DiffProperties

  /** `Apply` with the fold threading the target: a container applies its changes, in
      order, to the node at `path`; a leaf descriptor throws. */
  function ApplyIntended(d: JsonDelta, root: Value, path: Path): Applied
    decreases d, 1
  {
    if IsContainer(d) then ApplyIntendedFrom(d, 0, root, path) else Applied(root, Threw(InvalidOperation))
  }

  /** Changes `i` onwards, each on the node at `path`; the first exception ends the fold. */
  function ApplyIntendedFrom(d: JsonDelta, i: nat, root: Value, path: Path): Applied
    requires i <= ChangeCount(d)
    decreases d, 0, ChangeCount(d) - i + 1
  {
    if i == ChangeCount(d) then Applied(root, Done(Node(path)))
    else
      var r := ApplyIntendedChange(d, i, root, path);
      if r.outcome.Threw? then r else ApplyIntendedFrom(d, i + 1, r.root, path)
  }

  /** A step that succeeded leaves the node at `path` as the target. */
  function KeepTarget(r: Applied, path: Path): Applied
  {
    if r.outcome.Done? then Applied(r.root, Done(Node(path))) else r
  }

  /** One change on the node at `path`. */
  function ApplyIntendedChange(d: JsonDelta, i: nat, root: Value, path: Path): Applied
    requires i < ChangeCount(d)
    decreases d, 0, 0
  {
    var key := ChangeKey(d, i);
    var op := ChangeOp(d, i);
    match op
    case Identity => Applied(root, Done(Node(path)))
    case DeltaInsert(obj) => KeepTarget(Insert(d, root, Node(path), key, obj), path)
    case DeltaRemove => KeepTarget(Remove(d, root, Node(path), key), path)
    case DeltaReplace(obj) =>
      var removed := Remove(d, root, Node(path), key);
      if removed.outcome.Threw? then removed else KeepTarget(Insert(d, removed.root, Node(path), key, obj), path)
    case DeltaArray(_) => ApplyIntendedNested(d, i, root, path)
    case DeltaObject(_) => ApplyIntendedNested(d, i, root, path)
  }

  /** A nested edit: select the child at the key and apply the nested delta there. */
  function ApplyIntendedNested(d: JsonDelta, i: nat, root: Value, path: Path): Applied
    requires i < ChangeCount(d)
    decreases d, 0, 0, 0
  {
    match Select(root, Node(path), ChangeKey(d, i))
    case Failed(f) => Applied(root, Threw(f))
    case Child(p) =>
      var r := match d
        case DeltaArray(ch) => ApplyIntended(ch[i].1, root, p)
        case DeltaObject(ch) => ApplyIntended(ch[i].1, root, p);
      KeepTarget(r, path)
  }

  // ---------------------------------------------------------------------------
  // Removals and insertions on a list

  /** The list a run of removals and insertions leaves, each at its index in the list as
      it is by then; `None` when an index falls outside the list or a change is of
      another kind. */
  function Replay(items: seq<Value>, ch: seq<(int, JsonDelta)>): Option<seq<Value>>
    decreases |ch|
  {
    if ch == [] then Some(items)
    else
      var k := ch[0].0;
      match ch[0].1
      case DeltaRemove =>
        if 0 <= k < |items| then Replay(items[..k] + items[k + 1..], ch[1..]) else None
      case DeltaInsert(obj) =>
        if 0 <= k <= |items| then Replay(items[..k] + [obj] + items[k..], ch[1..]) else None
      case _ => None
  }

  /** Whether every change is a removal or an insertion. */
  predicate RemovesAndInserts(ch: seq<(int, JsonDelta)>)
  {
    forall t :: 0 <= t < |ch| ==> ch[t].1.DeltaRemove? || ch[t].1.DeltaInsert?
  }

  /** One removal or insertion on a list root, applied as intended, is its replay. */
  lemma ChangeOnList(ch: seq<(int, JsonDelta)>, i: nat, id: nat, items: seq<Value>)
    requires i < |ch| && (ch[i].1.DeltaRemove? || ch[i].1.DeltaInsert?)
    ensures var r := ApplyIntendedChange(DeltaArray(ch), i, Arr(id, items), []);
            var next := Replay(items, [ch[i]]);
            && (r.outcome.Done? <==> next.Some?)
            && (r.outcome.Done? ==> r.outcome == Done(Node([])) && r.root == Arr(id, next.value))
  {
    assert ListOf(Arr(id, items), Node([])) == Some(Arr(id, items));
    assert [ch[i]][1..] == [];
  }

  /** On a list root, the intended apply of removals and insertions is their replay. */
  lemma {:induction false} ApplyIsReplay(ch: seq<(int, JsonDelta)>, i: nat, id: nat, items: seq<Value>)
    requires i <= |ch| && RemovesAndInserts(ch)
    ensures var r := ApplyIntendedFrom(DeltaArray(ch), i, Arr(id, items), []);
            && (r.outcome.Done? <==> Replay(items, ch[i..]).Some?)
            && (r.outcome.Done? ==> r.outcome == Done(Node([])) && r.root == Arr(id, Replay(items, ch[i..]).value))
    decreases |ch| - i
  {
    if i < |ch| {
      var r := ApplyIntendedChange(DeltaArray(ch), i, Arr(id, items), []);
      ChangeOnList(ch, i, id, items);
      ReplayFirst(items, ch[i..]);
      assert ch[i..][0] == ch[i] && ch[i..][1..] == ch[i + 1..];
      if r.outcome.Done? {
        ApplyIsReplay(ch, i + 1, id, Replay(items, [ch[i]]).value);
      }
    }
  }

  /** Replaying a nonempty run is replaying its first change, then the rest. */
  lemma ReplayFirst(items: seq<Value>, ch: seq<(int, JsonDelta)>)
    requires ch != []
    ensures Replay(items, ch) == if Replay(items, [ch[0]]).Some? then Replay(Replay(items, [ch[0]]).value, ch[1..]) else None
  {
    assert [ch[0]][1..] == [];
  }

  /** Replaying two runs of changes is replaying the first, then the second. */
  lemma {:induction false} ReplayAppend(items: seq<Value>, a: seq<(int, JsonDelta)>, b: seq<(int, JsonDelta)>)
    ensures Replay(items, a + b) == if Replay(items, a).Some? then Replay(Replay(items, a).value, b) else None
    decreases |a|
  {
    if a == [] {
      assert a + b == b;
    } else {
      assert (a + b)[0] == a[0] && (a + b)[1..] == a[1..] + b;
      var k := a[0].0;
      match a[0].1
      case DeltaRemove =>
        if 0 <= k < |items| {
          ReplayAppend(items[..k] + items[k + 1..], a[1..], b);
        }
      case DeltaInsert(obj) =>
        if 0 <= k <= |items| {
          ReplayAppend(items[..k] + [obj] + items[k..], a[1..], b);
        }
      case _ =>
    }
  }

  // ---------------------------------------------------------------------------
  // Removals and insertions by index, for any element type

  /** Removing the element at each index in turn; `None` once an index is out of range. */
  function RemoveEach<T>(s: seq<T>, keys: seq<int>): Option<seq<T>>
    decreases |keys|
  {
    if keys == [] then Some(s)
    else if 0 <= keys[0] < |s| then RemoveEach(s[..keys[0]] + s[keys[0] + 1..], keys[1..])
    else None
  }

  /** Inserting `from[x]` at each index `x` in turn; `None` once an index is out of range. */
  function InsertEach<T>(s: seq<T>, keys: seq<int>, from: seq<T>): Option<seq<T>>
    decreases |keys|
  {
    if keys == [] then Some(s)
    else if 0 <= keys[0] < |from| && keys[0] <= |s| then InsertEach(s[..keys[0]] + [from[keys[0]]] + s[keys[0]..], keys[1..], from)
    else None
  }

  /** Replaying removals is removing at their indices. */
  lemma {:induction false} ReplayRemovals(s: seq<Value>, keys: seq<int>)
    ensures Replay(s, RemoveChanges(keys)) == RemoveEach(s, keys)
    decreases |keys|
  {
    if keys != [] {
      var ch := RemoveChanges(keys);
      assert ch[0] == (keys[0], DeltaRemove) && ch[1..] == RemoveChanges(keys[1..]);
      if 0 <= keys[0] < |s| {
        ReplayRemovals(s[..keys[0]] + s[keys[0] + 1..], keys[1..]);
      }
    }
  }

  /** Replaying insertions of `last[x]` is inserting at their indices. */
  lemma {:induction false} ReplayInsertions(s: seq<Value>, keys: seq<int>, last: seq<Value>)
    requires forall t :: 0 <= t < |keys| ==> 0 <= keys[t] < |last|
    ensures Replay(s, InsertChanges(keys, last)) == InsertEach(s, keys, last)
    decreases |keys|
  {
    if keys != [] {
      var ch := InsertChanges(keys, last);
      assert ch[0] == (keys[0], DeltaInsert(last[keys[0]])) && ch[1..] == InsertChanges(keys[1..], last);
      if keys[0] <= |s| {
        ReplayInsertions(s[..keys[0]] + [last[keys[0]]] + s[keys[0]..], keys[1..], last);
      }
    }
  }

  /** Two runs of insertions are the first run, then the second. */
  lemma {:induction false} InsertEachAppend<T>(s: seq<T>, a: seq<int>, b: seq<int>, from: seq<T>)
    ensures InsertEach(s, a + b, from)
            == if InsertEach(s, a, from).Some? then InsertEach(InsertEach(s, a, from).value, b, from) else None
    decreases |a|
  {
    if a == [] {
      assert a + b == b;
    } else {
      assert (a + b)[0] == a[0] && (a + b)[1..] == a[1..] + b;
      if 0 <= a[0] < |from| && a[0] <= |s| {
        InsertEachAppend(s[..a[0]] + [from[a[0]]] + s[a[0]..], a[1..], b, from);
      }
    }
  }

  // ---------------------------------------------------------------------------
  // Sequence shapes, each proved on its own so that the proofs using them need no
  // reasoning about sequence equality

  /** Splitting off the last element of a prefix. */
  lemma PrefixSplit<T>(s: seq<T>, n: nat, tail: seq<T>)
    requires 0 < n <= |s|
    ensures s[..n] + tail == s[..n - 1] + ([s[n - 1]] + tail)
  {
  }

  /** Removing the element at `n - 1` from `s[..n] + tail`. */
  lemma RemoveLastOfPrefix<T>(s: seq<T>, n: nat, tail: seq<T>)
    requires 0 < n <= |s|
    ensures (s[..n] + tail)[..n - 1] + (s[..n] + tail)[n - 1 + 1..] == s[..n - 1] + tail
  {
    var u := s[..n] + tail;
    assert u[..n - 1] == s[..n - 1] && u[n..] == tail;
  }

  lemma AppendOne<T>(a: seq<T>, x: T, tail: seq<T>)
    ensures (a + [x]) + tail == a + ([x] + tail)
  {
  }

  /** Taking the next element of a pool. */
  lemma TakeNext<T>(a: seq<T>, pool: seq<T>, c: nat)
    requires c < |pool|
    ensures a + pool[c..] == (a + [pool[c]]) + pool[c + 1..]
  {
    assert pool[c..] == [pool[c]] + pool[c + 1..];
  }

  /** Inserting `x` right after `a`, in front of `rest`. */
  lemma InsertAfter<T>(a: seq<T>, rest: seq<T>, x: T)
    ensures (a + rest)[..|a|] + [x] + (a + rest)[|a|..] == (a + [x]) + rest
  {
    assert (a + rest)[..|a|] == a && (a + rest)[|a|..] == rest;
  }

  /** One step of `RemoveEach`. */
  lemma RemoveEachFirst<T>(s: seq<T>, k: int, rest: seq<int>)
    requires 0 <= k < |s|
    ensures RemoveEach(s, [k] + rest) == RemoveEach(s[..k] + s[k + 1..], rest)
  {
    assert ([k] + rest)[1..] == rest;
  }

  lemma AppendEmpty<T>(a: seq<T>)
    ensures a + [] == a && [] + a == a
  {
  }

  // ---------------------------------------------------------------------------
  // Removals highest index first

  /** The elements of `orig` below `n` whose indices are in `kept`, in order. */
  function KeptBelow<T>(orig: seq<T>, kept: set<int>, n: nat): (r: seq<T>)
    requires n <= |orig|
    ensures |r| <= n
  {
    if n == 0 then [] else KeptBelow(orig, kept, n - 1) + (if n - 1 in kept then [orig[n - 1]] else [])
  }

  /** The shapes behind one step of `RemovalsLeaveKept` when index `n - 1` is kept. */
  lemma KeptStep<T>(orig: seq<T>, kept: set<int>, n: nat, tail: seq<T>)
    requires 0 < n <= |orig| && n - 1 in kept
    ensures UnmatchedDescending(n, kept) == UnmatchedDescending(n - 1, kept)
    ensures orig[..n] + tail == orig[..n - 1] + ([orig[n - 1]] + tail)
    ensures KeptBelow(orig, kept, n) + tail == KeptBelow(orig, kept, n - 1) + ([orig[n - 1]] + tail)
  {
    AppendEmpty(UnmatchedDescending(n - 1, kept));
    PrefixSplit(orig, n, tail);
    AppendOne(KeptBelow(orig, kept, n - 1), orig[n - 1], tail);
  }

  /** The shapes behind one step of `RemovalsLeaveKept` when index `n - 1` is removed. */
  lemma RemovedStep<T>(orig: seq<T>, kept: set<int>, n: nat, tail: seq<T>)
    requires 0 < n <= |orig| && n - 1 !in kept
    ensures RemoveEach(orig[..n] + tail, UnmatchedDescending(n, kept))
         == RemoveEach(orig[..n - 1] + tail, UnmatchedDescending(n - 1, kept))
    ensures KeptBelow(orig, kept, n) + tail == KeptBelow(orig, kept, n - 1) + tail
  {
    var rest := UnmatchedDescending(n - 1, kept);
    RemoveEachFirst(orig[..n] + tail, n - 1, rest);
    RemoveLastOfPrefix(orig, n, tail);
    AppendEmpty(KeptBelow(orig, kept, n - 1));
  }

  /** Removing, highest first, every index below `n` outside `kept` leaves exactly the
      kept elements, in order; what follows index `n` is untouched. */
  lemma {:induction false} RemovalsLeaveKept<T>(orig: seq<T>, kept: set<int>, n: nat, tail: seq<T>)
    requires n <= |orig|
    ensures RemoveEach(orig[..n] + tail, UnmatchedDescending(n, kept)) == Some(KeptBelow(orig, kept, n) + tail)
  {
    if n == 0 {
      AppendEmpty(tail);
      assert orig[..n] + tail == tail;
    } else if n - 1 in kept {
      KeptStep(orig, kept, n, tail);
      RemovalsLeaveKept(orig, kept, n - 1, [orig[n - 1]] + tail);
    } else {
      RemovedStep(orig, kept, n, tail);
      RemovalsLeaveKept(orig, kept, n - 1, tail);
    }
  }

  lemma {:induction false} KeptBelowAgree<T>(orig: seq<T>, s1: set<int>, s2: set<int>, k: nat)
    requires k <= |orig|
    requires forall x :: 0 <= x < k ==> (x in s1 <==> x in s2)
    ensures KeptBelow(orig, s1, k) == KeptBelow(orig, s2, k)
  {
    if k > 0 {
      KeptBelowAgree(orig, s1, s2, k - 1);
    }
  }

  lemma {:induction false} KeptBelowSkip<T>(orig: seq<T>, kept: set<int>, a: nat, b: nat)
    requires a <= b <= |orig|
    requires forall x :: a <= x < b ==> x !in kept
    ensures KeptBelow(orig, kept, b) == KeptBelow(orig, kept, a)
    decreases b
  {
    if a < b {
      KeptBelowSkip(orig, kept, a, b - 1);
    }
  }

  /** Every first component of a bounded alignment is below the bound. */
  lemma {:induction false} FirstsBelow(m: seq<(int, int)>, b: int)
    requires forall t :: 0 <= t < |m| ==> m[t].0 < b
    ensures forall x :: x in Firsts(m) ==> x < b
  {
    if m != [] {
      FirstsBelow(m[..|m| - 1], b);
    }
  }

  /** The elements an alignment keeps of `orig`, in order, are `orig[m[0].0]`,
      `orig[m[1].0]`, ... */
  lemma {:induction false} KeptAreMatched<T>(orig: seq<T>, m: seq<(int, int)>, n: nat)
    requires n <= |orig|
    requires forall t :: 0 <= t < |m| ==> 0 <= m[t].0 < n
    requires forall s, t :: 0 <= s < t < |m| ==> m[s].0 < m[t].0
    ensures |KeptBelow(orig, Firsts(m), n)| == |m|
    ensures forall t :: 0 <= t < |m| ==> KeptBelow(orig, Firsts(m), n)[t] == orig[m[t].0]
  {
    if m == [] {
      KeptBelowSkip(orig, {}, 0, n);
    } else {
      var rest := m[..|m| - 1];
      var i := m[|m| - 1].0;
      FirstsBelow(rest, i);
      assert Firsts(m) == Firsts(rest) + {i};
      KeptBelowSkip(orig, Firsts(m), i + 1, n);
      KeptBelowAgree(orig, Firsts(m), Firsts(rest), i);
      KeptAreMatched(orig, rest, i);
      assert KeptBelow(orig, Firsts(m), n) == KeptBelow(orig, Firsts(rest), i) + [orig[i]];
    }
  }

  // ---------------------------------------------------------------------------
  // Insertions lowest index first

  lemma BelowStep(used: set<int>, k: nat)
    ensures Below(used, k + 1) == Below(used, k) + (if k in used then {k} else {})
    ensures |Below(used, k + 1)| == |Below(used, k)| + (if k in used then 1 else 0)
  {
    assert Below(used, k + 1) == Below(used, k) + (if k in used then {k} else {});
  }

  /** Positions below `k`: position `j` holds `last[j]` when `j` is not in `used`, and
      otherwise the next unconsumed element of `pool`. */
  function Interleave<T>(last: seq<T>, used: set<int>, pool: seq<T>, k: nat): (r: seq<T>)
    requires k <= |last| && |Below(used, k)| <= |pool|
    ensures |r| == k
  {
    if k == 0 then []
    else
      BelowStep(used, k - 1);
      Interleave(last, used, pool, k - 1) + [if k - 1 in used then pool[|Below(used, k - 1)|] else last[k - 1]]
  }

  lemma {:induction false} InterleaveAt<T>(last: seq<T>, used: set<int>, pool: seq<T>, k: nat, j: nat)
    requires k <= |last| && |Below(used, k)| <= |pool| && j < k
    ensures |Below(used, j)| + (if j in used then 1 else 0) <= |Below(used, k)|
    ensures Interleave(last, used, pool, k)[j] == if j in used then pool[|Below(used, j)|] else last[j]
  {
    BelowStep(used, k - 1);
    if j < k - 1 {
      InterleaveAt(last, used, pool, k - 1, j);
    }
  }

  /** The shapes behind one step of `InsertionsInterleave` when index `k - 1` is in `used`. */
  lemma UsedStep<T>(last: seq<T>, used: set<int>, pool: seq<T>, k: nat)
    requires 0 < k <= |last| && |Below(used, k)| <= |pool| && k - 1 in used
    ensures UnmatchedAscending(k, used) == UnmatchedAscending(k - 1, used)
    ensures |Below(used, k)| == |Below(used, k - 1)| + 1
    ensures Interleave(last, used, pool, k - 1) + pool[|Below(used, k - 1)|..]
         == Interleave(last, used, pool, k) + pool[|Below(used, k)|..]
  {
    AppendEmpty(UnmatchedAscending(k - 1, used));
    BelowStep(used, k - 1);
    var c := |Below(used, k - 1)|;
    TakeNext(Interleave(last, used, pool, k - 1), pool, c);
  }

  /** The shapes behind one step of `InsertionsInterleave` when `last[k - 1]` is inserted. */
  lemma AddedStep<T>(last: seq<T>, used: set<int>, pool: seq<T>, k: nat)
    requires 0 < k <= |last| && |Below(used, k)| <= |pool| && k - 1 !in used
    ensures UnmatchedAscending(k, used) == UnmatchedAscending(k - 1, used) + [k - 1]
    ensures |Below(used, k)| == |Below(used, k - 1)|
    ensures InsertEach(Interleave(last, used, pool, k - 1) + pool[|Below(used, k - 1)|..], [k - 1], last)
         == Some(Interleave(last, used, pool, k) + pool[|Below(used, k)|..])
  {
    BelowStep(used, k - 1);
    var u := Interleave(last, used, pool, k - 1);
    var rest := pool[|Below(used, k - 1)|..];
    InsertAfter(u, rest, last[k - 1]);
    assert InsertEach(u + rest, [k - 1], last)
        == InsertEach((u + rest)[..|u|] + [last[k - 1]] + (u + rest)[|u|..], [], last);
  }

  /** Inserting, lowest first, `last[x]` at every index `x` below `k` outside `used`
      into `pool` interleaves: the inserted values land at their own indices and the
      pool's elements fill the positions in `used`, in order. */
  lemma {:induction false} InsertionsInterleave<T>(last: seq<T>, used: set<int>, pool: seq<T>, k: nat)
    requires k <= |last| && |Below(used, k)| <= |pool|
    ensures InsertEach(pool, UnmatchedAscending(k, used), last)
            == Some(Interleave(last, used, pool, k) + pool[|Below(used, k)|..])
  {
    if k == 0 {
      assert Below(used, 0) == {};
      assert pool[0..] == pool;
      AppendEmpty(pool);
    } else {
      BelowStep(used, k - 1);
      InsertionsInterleave(last, used, pool, k - 1);
      if k - 1 in used {
        UsedStep(last, used, pool, k);
      } else {
        AddedStep(last, used, pool, k);
        InsertEachAppend(pool, UnmatchedAscending(k - 1, used), [k - 1], last);
      }
    }
  }

  // ---------------------------------------------------------------------------
  // Diff, then apply

  /** The second components of an alignment are exactly its `Lasts`. */
  lemma {:induction false} LastsMembers(m: seq<(int, int)>)
    ensures forall t :: 0 <= t < |m| ==> m[t].1 in Lasts(m)
    ensures forall y :: y in Lasts(m) ==> exists t :: 0 <= t < |m| && m[t].1 == y
  {
    if m != [] {
      var rest := m[..|m| - 1];
      LastsMembers(rest);
      assert forall t :: 0 <= t < |rest| ==> rest[t] == m[t];
    }
  }

  /** In a strictly increasing alignment, a smaller second component comes earlier. */
  lemma EarlierMatch(m: seq<(int, int)>, u: nat, t: nat)
    requires forall s, v :: 0 <= s < v < |m| ==> m[s].1 < m[v].1
    requires u < |m| && t < |m| && m[u].1 < m[t].1
    ensures u < t
  {
  }

  lemma BelowMatchIsEarlier(m: seq<(int, int)>, t: nat, y: int)
    requires forall u :: 0 <= u < |m| ==> 0 <= m[u].1
    requires forall s, u :: 0 <= s < u < |m| ==> m[s].1 < m[u].1
    requires t < |m| && y in Below(Lasts(m), m[t].1)
    ensures y in Lasts(m[..t])
  {
    LastsMembers(m);
    var u :| 0 <= u < |m| && m[u].1 == y;
    EarlierMatch(m, u, t);
    LastsMembers(m[..t]);
    assert m[..t][u].1 == y;
  }

  lemma EarlierMatchIsBelow(m: seq<(int, int)>, t: nat, y: int)
    requires forall u :: 0 <= u < |m| ==> 0 <= m[u].1
    requires forall s, u :: 0 <= s < u < |m| ==> m[s].1 < m[u].1
    requires t < |m| && y in Lasts(m[..t])
    ensures y in Below(Lasts(m), m[t].1)
  {
    LastsMembers(m[..t]);
    var u :| 0 <= u < t && m[..t][u].1 == y;
    assert m[u].1 == y;
    LastsMembers(m);
  }

  /** The matched indices of the second list below `m[t].1` are those of `m[..t]`. */
  lemma LastsBelowMatch(m: seq<(int, int)>, t: nat)
    requires forall u :: 0 <= u < |m| ==> 0 <= m[u].1
    requires forall s, u :: 0 <= s < u < |m| ==> m[s].1 < m[u].1
    requires t < |m|
    ensures Below(Lasts(m), m[t].1) == Lasts(m[..t])
  {
    forall y | y in Below(Lasts(m), m[t].1)
      ensures y in Lasts(m[..t])
    {
      BelowMatchIsEarlier(m, t, y);
    }
    forall y | y in Lasts(m[..t])
      ensures y in Below(Lasts(m), m[t].1)
    {
      EarlierMatchIsBelow(m, t, y);
    }
  }

  /** In an alignment, exactly `t` matched indices of the second list lie below `m[t].1`. */
  lemma LastsRank(m: seq<(int, int)>, n1: nat, n2: nat, t: nat)
    requires forall u :: 0 <= u < |m| ==> 0 <= m[u].0 < n1 && 0 <= m[u].1 < n2
    requires forall s, u :: 0 <= s < u < |m| ==> m[s].0 < m[u].0 && m[s].1 < m[u].1
    requires t < |m|
    ensures |Below(Lasts(m), m[t].1)| == t
  {
    LastsBelowMatch(m, t);
    var front := m[..t];
    assert forall u :: 0 <= u < |front| ==> front[u] == m[u];
    FirstsCount(front, n1, n2);
  }

  /** Replaying an array comparison's changes on `first` interleaves what the alignment
      keeps of `first` with the inserted elements of `last`. */
  lemma ArrayReplay(first: seq<Value>, last: seq<Value>)
    ensures var m := Matches(first, last);
            var pool := KeptBelow(first, Firsts(m), |first|);
            && |pool| == |m| && |Below(Lasts(m), |last|)| == |m|
            && Replay(first, ArrayChanges(first, last)) == Some(Interleave(last, Lasts(m), pool, |last|))
  {
    var m := Matches(first, last);
    BacktrackIsAlignment(JsonEquals, first, last, |first|, |last|);
    FirstsCount(m, |first|, |last|);
    var rm := RemovedIndices(first, last);
    var ad := AddedIndices(first, last);
    UnmatchedAscendingFacts(|last|, Lasts(m));
    ReplayAppend(first, RemoveChanges(rm), InsertChanges(ad, last));
    ReplayRemovals(first, rm);
    RemovalsLeaveKept(first, Firsts(m), |first|, []);
    assert first[..|first|] + [] == first;
    var pool := KeptBelow(first, Firsts(m), |first|);
    AppendEmpty(pool);
    KeptAreMatched(first, m, |first|);
    ReplayInsertions(pool, ad, last);
    InsertionsInterleave(last, Lasts(m), pool, |last|);
    var items := Interleave(last, Lasts(m), pool, |last|);
    assert pool[|m|..] == [];
    AppendEmpty(items);
  }

  /** Position by position, the interleaving holds `last[j]` where `j` was inserted and
      an element equal to `last[j]` where the alignment matched `j`. */
  lemma InterleaveMatches(first: seq<Value>, last: seq<Value>, j: nat)
    requires j < |last|
    requires var m := Matches(first, last);
             |KeptBelow(first, Firsts(m), |first|)| == |m| && |Below(Lasts(m), |last|)| == |m|
    ensures var m := Matches(first, last);
            var items := Interleave(last, Lasts(m), KeptBelow(first, Firsts(m), |first|), |last|);
            && (j !in Lasts(m) ==> items[j] == last[j])
            && (j in Lasts(m) ==> JsonEquals(items[j], last[j]))
  {
    var m := Matches(first, last);
    InterleaveAt(last, Lasts(m), KeptBelow(first, Firsts(m), |first|), |last|, j);
    if j in Lasts(m) {
      LastsMembers(m);
      var t :| 0 <= t < |m| && m[t].1 == j;
      MatchedAt(first, last, t);
    }
  }

  /** The `t`-th pair of the alignment: `t` matched indices of `last` lie below its
      second index, the `t`-th kept element of `first` is the one it matched, and the
      two are equal. */
  lemma MatchedAt(first: seq<Value>, last: seq<Value>, t: nat)
    requires t < |Matches(first, last)|
    ensures var m := Matches(first, last);
            && 0 <= m[t].0 < |first| && 0 <= m[t].1 < |last|
            && |Below(Lasts(m), m[t].1)| == t
            && |KeptBelow(first, Firsts(m), |first|)| == |m|
            && KeptBelow(first, Firsts(m), |first|)[t] == first[m[t].0]
            && JsonEquals(first[m[t].0], last[m[t].1])
  {
    var m := Matches(first, last);
    BacktrackIsAlignment(JsonEquals, first, last, |first|, |last|);
    LastsRank(m, |first|, |last|, t);
    KeptAreMatched(first, m, |first|);
  }

  /** Diff, then apply: applying (as intended) the delta of two different lists to the
      first yields a list of the second's length that holds, at every index, the second
      list's element where it was inserted and an equal element where it was kept. */
  lemma DiffThenApplyArray(first: seq<Value>, last: seq<Value>, id: nat)
    requires ArrayDelta(first, last) != Identity
    ensures var r := ApplyIntended(ArrayDelta(first, last), Arr(id, first), []);
            var m := Matches(first, last);
            && r.outcome == Done(Node([]))
            && r.root.Arr? && r.root.id == id && |r.root.items| == |last|
            && (forall j :: 0 <= j < |last| && j !in Lasts(m) ==> r.root.items[j] == last[j])
            && (forall j :: 0 <= j < |last| && j in Lasts(m) ==> JsonEquals(r.root.items[j], last[j]))
  {
    var ch := ArrayChanges(first, last);
    ArrayChangesShape(first, last);
    assert RemovesAndInserts(ch);
    assert ch[0..] == ch;
    ApplyIsReplay(ch, 0, id, first);
    ArrayReplay(first, last);
    forall j | 0 <= j < |last|
      ensures var m := Matches(first, last);
              var items := Interleave(last, Lasts(m), KeptBelow(first, Firsts(m), |first|), |last|);
              && (j !in Lasts(m) ==> items[j] == last[j])
              && (j in Lasts(m) ==> JsonEquals(items[j], last[j]))
    {
      InterleaveMatches(first, last, j);
    }
  }

  /** When the second list holds no null, the intended apply turns the first list into
      one that `Comparer.Equals` the second, element by element. */
  lemma DiffThenApplyArrayEquals(first: seq<Value>, last: seq<Value>, id: nat)
    requires ArrayDelta(first, last) != Identity
    requires forall j :: 0 <= j < |last| ==> last[j] != Null
    ensures var r := ApplyIntended(ArrayDelta(first, last), Arr(id, first), []);
            && r.outcome.Done? && r.root.Arr? && |r.root.items| == |last|
            && forall j :: 0 <= j < |last| ==> JsonEquals(r.root.items[j], last[j])
  {
    DiffThenApplyArray(first, last, id);
    forall j | 0 <= j < |last|
      ensures JsonEquals(last[j], last[j])
    {
      EqualsReflexiveExceptNull(last[j]);
    }
  }

  /** A list edit with no element in common: [1] becomes [2]. */
  function EditedFirst(): seq<Value> { [Num(0, 1)] }
  function EditedLast(): seq<Value> { [Num(0, 2)] }

  /** As written, the comparison of the two lists succeeds (they have no equal pair,
      so the alignment as written does not throw) and yields "remove at 0, then insert 2
      at 0"; applying that delta throws, whatever the target, once the removal has
      handed the delta itself on to the insertion. */
  lemma ListEditThrowsAsWritten(id1: nat, id2: nat, root: Value, target: Acc)
    ensures !ElementFaults(Arr(id1, EditedFirst()), Arr(id2, EditedLast()))
    ensures ElementDelta(Arr(id1, EditedFirst()), Arr(id2, EditedLast())) == DeltaArray([(0, DeltaRemove), (0, DeltaInsert(Num(0, 2)))])
    ensures Apply(ElementDelta(Arr(id1, EditedFirst()), Arr(id2, EditedLast())), root, target).outcome.Threw?
  {
    var first, last := EditedFirst(), EditedLast();
    assert !JsonEquals(first[0], last[0]);
    assert LcsLength(JsonEquals, first, last, 1, 1) == 0;
    assert Matches(first, last) == [];
    assert RemovedIndices(first, last) == [0];
    assert AddedIndices(first, last) == [0];
    TwoEditsThrow(ArrayDelta(first, last), root, target);
  }
}
