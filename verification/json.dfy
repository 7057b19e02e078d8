/** The in-memory JSON value tree that the diff/patch engine works on.

    The engine receives values as untyped .NET objects: `null`, booleans, boxed
    numbers, strings, `List<object>` (arrays) and `Dictionary<string, object>`
    (objects). Arrays and objects are reference objects; `id` stands for that
    reference identity, which is what `object.Equals` compares for them.
    Objects keep their entries in enumeration order; a new entry is appended. */
module Json {

  datatype Option<T> = None | Some(value: T)

  datatype Value =
    | Null
    | Bool(b: bool)
    /** A boxed number; `kind` is its .NET runtime type (long, double, ...). */
    | Num(kind: nat, n: int)
    | Str(s: string)
    | Arr(id: nat, items: seq<Value>)
    | Obj(id: nat, props: seq<(string, Value)>)

  /** `x.GetType() == y.GetType()` for two non-null values. */
  predicate SameType(x: Value, y: Value)
  {
    match (x, y)
    case (Bool(_), Bool(_)) => true
    case (Num(k, _), Num(l, _)) => k == l
    case (Str(_), Str(_)) => true
    case (Arr(_, _), Arr(_, _)) => true
    case (Obj(_, _), Obj(_, _)) => true
    case _ => false
  }

  /** `x.Equals(y)` as the CLR defines it: value equality for the primitives,
      reference equality for lists and dictionaries. */
  predicate RawEquals(x: Value, y: Value)
  {
    match (x, y)
    case (Bool(a), Bool(b)) => a == b
    case (Num(k, a), Num(l, b)) => k == l && a == b
    case (Str(a), Str(b)) => a == b
    case (Arr(i, _), Arr(j, _)) => i == j
    case (Obj(i, _), Obj(j, _)) => i == j
    case _ => false
  }

  // ---------------------------------------------------------------------------
  // Dictionaries as ordered sequences of entries

  /** The keys of a dictionary in enumeration order. */
  function Keys(props: seq<(string, Value)>): (ks: seq<string>)
    ensures |ks| == |props|
    ensures forall i :: 0 <= i < |props| ==> ks[i] == props[i].0
  {
    if props == [] then [] else [props[0].0] + Keys(props[1..])
  }

  /** Every key occurs once, as in a `Dictionary`. */
  predicate UniqueKeys(props: seq<(string, Value)>)
  {
    forall i, j :: 0 <= i < j < |props| ==> props[i].0 != props[j].0
  }

  /** The position of `key`, or -1 when the dictionary has no such key. */
  function IndexOf(props: seq<(string, Value)>, key: string): (r: int)
    ensures -1 <= r < |props|
    ensures r == -1 <==> key !in Keys(props)
    ensures r >= 0 ==> props[r].0 == key && forall i :: 0 <= i < r ==> props[i].0 != key
  {
    if props == [] then -1
    else if props[0].0 == key then 0
    else
      var r := IndexOf(props[1..], key);
      if r == -1 then -1 else r + 1
  }

  /** `TryGetValue`: the value stored under `key`. */
  function Lookup(props: seq<(string, Value)>, key: string): (r: Option<Value>)
    ensures r.None? <==> key !in Keys(props)
    ensures r.Some? ==> (key, r.value) in props
  {
    var i := IndexOf(props, key);
    if i == -1 then None else Some(props[i].1)
  }

  /** `x` occurs in `xs` before some occurrence of `y`. */
  predicate Precedes<T(==)>(x: T, y: T, xs: seq<T>)
  {
    exists a, b :: 0 <= a < b < |xs| && xs[a] == x && xs[b] == y
  }

  /** The elements of `r` occur in `xs` in the same order: any two of them, taken in
      order, are found in `xs` at increasing positions. */
  predicate InOrderOf<T(==)>(r: seq<T>, xs: seq<T>)
  {
    forall s, t :: 0 <= s < t < |r| ==> Precedes(r[s], r[t], xs)
  }

  /** An in-order subsequence of the tail of `xs` is one of `xs`. */
  lemma InOrderOfTail<T>(r: seq<T>, xs: seq<T>)
    requires xs != [] && InOrderOf(r, xs[1..])
    ensures InOrderOf(r, xs)
  {
    forall s, t | 0 <= s < t < |r|
      ensures Precedes(r[s], r[t], xs)
    {
      var a, b :| 0 <= a < b < |xs[1..]| && xs[1..][a] == r[s] && xs[1..][b] == r[t];
      assert xs[a + 1] == r[s] && xs[b + 1] == r[t];
    }
  }

  /** The head of `xs` followed by an in-order subsequence of its tail is one of `xs`. */
  lemma InOrderOfCons<T>(rest: seq<T>, xs: seq<T>)
    requires xs != [] && InOrderOf(rest, xs[1..])
    requires forall t :: 0 <= t < |rest| ==> rest[t] in xs[1..]
    ensures InOrderOf([xs[0]] + rest, xs)
  {
    var r := [xs[0]] + rest;
    forall s, t | 0 <= s < t < |r|
      ensures Precedes(r[s], r[t], xs)
    {
      assert r[t] == rest[t - 1] && rest[t - 1] in xs[1..];
      if s == 0 {
        var b :| 0 <= b < |xs[1..]| && xs[1..][b] == rest[t - 1];
        assert xs[0] == r[s] && xs[b + 1] == r[t];
      } else {
        assert Precedes(rest[s - 1], rest[t - 1], xs[1..]);
        var a, b :| 0 <= a < b < |xs[1..]| && xs[1..][a] == rest[s - 1] && xs[1..][b] == rest[t - 1];
        assert xs[a + 1] == r[s] && xs[b + 1] == r[t];
      }
    }
  }

  /** `Dictionary.Remove`: drops the entry for `key`, if any; the others keep their order. */
  function RemoveKey(props: seq<(string, Value)>, key: string): (r: seq<(string, Value)>)
    ensures key !in Keys(r)
    ensures forall k :: k != key ==> (k in Keys(r) <==> k in Keys(props))
    ensures key !in Keys(props) ==> r == props
  {
    if props == [] then []
    else if props[0].0 == key then RemoveKey(props[1..], key)
    else [props[0]] + RemoveKey(props[1..], key)
  }

  /** `Dictionary.Remove` keeps exactly the entries under other keys, in their order. */
  lemma {:induction false} RemoveKeyEntries(props: seq<(string, Value)>, key: string)
    ensures forall e :: e in RemoveKey(props, key) <==> e in props && e.0 != key
    ensures InOrderOf(RemoveKey(props, key), props)
  {
    if props != [] {
      var rest := RemoveKey(props[1..], key);
      RemoveKeyEntries(props[1..], key);
      if props[0].0 == key {
        InOrderOfTail(rest, props);
      } else {
        assert forall t :: 0 <= t < |rest| ==> rest[t] in props[1..];
        InOrderOfCons(rest, props);
      }
    }
  }

  /** `Dictionary.Add` of a missing key keeps every key unique. */
  lemma AddKeepsUniqueKeys(props: seq<(string, Value)>, key: string, v: Value)
    requires UniqueKeys(props) && key !in Keys(props)
    ensures UniqueKeys(props + [(key, v)])
  {
    var r := props + [(key, v)];
    forall i, j | 0 <= i < j < |r|
      ensures r[i].0 != r[j].0
    {
      if j == |props| {
        assert Keys(props)[i] == r[i].0;
      }
    }
  }

  /** The entries after the first of a unique-key dictionary have unique keys, none of
      them the first entry's. */
  lemma UniqueKeysTail(props: seq<(string, Value)>)
    requires props != [] && UniqueKeys(props)
    ensures UniqueKeys(props[1..])
    ensures props[0].0 !in Keys(props[1..])
  {
    var tail := props[1..];
    forall i, j | 0 <= i < j < |tail|
      ensures tail[i].0 != tail[j].0
    {
      assert tail[i] == props[i + 1] && tail[j] == props[j + 1];
    }
    forall i | 0 <= i < |tail|
      ensures Keys(tail)[i] != props[0].0
    {
      assert tail[i] == props[i + 1];
    }
  }

  /** An entry put before a unique-key dictionary without its key keeps keys unique. */
  lemma UniqueKeysCons(e: (string, Value), rest: seq<(string, Value)>)
    requires UniqueKeys(rest) && e.0 !in Keys(rest)
    ensures UniqueKeys([e] + rest)
  {
    var r := [e] + rest;
    forall i, j | 0 <= i < j < |r|
      ensures r[i].0 != r[j].0
    {
      if i == 0 {
        assert r[j] == rest[j - 1] && Keys(rest)[j - 1] == rest[j - 1].0;
      } else {
        assert r[i] == rest[i - 1] && r[j] == rest[j - 1];
      }
    }
  }

  /** `Dictionary.Remove` keeps every remaining key unique. */
  lemma {:induction false} RemoveKeepsUniqueKeys(props: seq<(string, Value)>, key: string)
    requires UniqueKeys(props)
    ensures UniqueKeys(RemoveKey(props, key))
  {
    if props != [] {
      UniqueKeysTail(props);
      RemoveKeepsUniqueKeys(props[1..], key);
      if props[0].0 != key {
        UniqueKeysCons(props[0], RemoveKey(props[1..], key));
      }
    }
  }

  // ---------------------------------------------------------------------------
  // Paths: a reference to a node inside a value tree

  /** One step down a tree: a list index or a dictionary key. */
  datatype Step = Index(i: int) | Field(name: string)

  type Path = seq<Step>

  /** The node that `path` leads to, if every step exists. */
  function At(root: Value, path: Path): Option<Value>
    decreases |path|
  {
    if path == [] then Some(root)
    else match (root, path[0])
      case (Arr(_, items), Index(i)) =>
        if 0 <= i < |items| then At(items[i], path[1..]) else None
      case (Obj(_, props), Field(k)) =>
        var i := IndexOf(props, k);
        if i == -1 then None else At(props[i].1, path[1..])
      case _ => None
  }

  /** The tree after the node at `path` has been replaced by `v` (an in-place update
      observed from the root). A path that leads nowhere leaves the tree unchanged. */
  function Put(root: Value, path: Path, v: Value): (r: Value)
    ensures At(root, path).Some? ==> At(r, path) == Some(v)
    decreases |path|
  {
    if path == [] then v
    else match (root, path[0])
      case (Arr(id, items), Index(i)) =>
        if 0 <= i < |items| then Arr(id, items[i := Put(items[i], path[1..], v)]) else root
      case (Obj(id, props), Field(k)) =>
        var i := IndexOf(props, k);
        if i == -1 then root
        else
          var r := Obj(id, props[i := (k, Put(props[i].1, path[1..], v))]);
          assert IndexOf(r.props, k) == i by { IndexOfUpdate(props, i, Put(props[i].1, path[1..], v), k); }
          r
      case _ => root
  }

  /** Replacing the value of an entry, under its own key, moves no key. */
  lemma {:induction false} IndexOfUpdate(props: seq<(string, Value)>, i: int, w: Value, key: string)
    requires 0 <= i < |props|
    ensures IndexOf(props[i := (props[i].0, w)], key) == IndexOf(props, key)
  {
    var q := props[i := (props[i].0, w)];
    assert q[0].0 == props[0].0;
    if props[0].0 != key {
      if i > 0 {
        assert q[1..] == props[1..][i - 1 := (props[i].0, w)];
        IndexOfUpdate(props[1..], i - 1, w, key);
      } else {
        assert q[1..] == props[1..];
      }
      assert IndexOf(q[1..], key) == IndexOf(props[1..], key);
    }
  }

  /** Replacing the node at `p` leaves every node that is neither above nor below it as
      it was: the update is in place and touches nothing beside its path. */
  lemma {:induction false} PutFrame(root: Value, p: Path, v: Value, q: Path)
    requires !(p <= q) && !(q <= p)
    ensures At(Put(root, p, v), q) == At(root, q)
    decreases |p|, 1
  {
    assert p != [] && q != [];
    if root.Arr? && p[0].Index? {
      PutFrameList(root, p, v, q);
    } else if root.Obj? && p[0].Field? {
      PutFrameDict(root, p, v, q);
    }
  }

  /** Paths that share their first step and are not prefixes of each other part later. */
  lemma PrefixTails(p: Path, q: Path)
    requires p != [] && q != [] && p[0] == q[0] && !(p <= q) && !(q <= p)
    ensures !(p[1..] <= q[1..]) && !(q[1..] <= p[1..])
  {
    assert p == [p[0]] + p[1..] && q == [q[0]] + q[1..];
  }

  /** `PutFrame` where the path first indexes a list. */
  lemma {:induction false} PutFrameList(root: Value, p: Path, v: Value, q: Path)
    requires root.Arr? && p != [] && q != [] && p[0].Index?
    requires !(p <= q) && !(q <= p)
    ensures At(Put(root, p, v), q) == At(root, q)
    decreases |p|, 0
  {
    var i := p[0].i;
    if 0 <= i < |root.items| && q[0] == p[0] {
      PrefixTails(p, q);
      PutFrame(root.items[i], p[1..], v, q[1..]);
    }
  }

  /** `PutFrame` where the path first names a dictionary key. */
  lemma {:induction false} PutFrameDict(root: Value, p: Path, v: Value, q: Path)
    requires root.Obj? && p != [] && q != [] && p[0].Field?
    requires !(p <= q) && !(q <= p)
    ensures At(Put(root, p, v), q) == At(root, q)
    decreases |p|, 0
  {
    var i := IndexOf(root.props, p[0].name);
    if i != -1 {
      var w := Put(root.props[i].1, p[1..], v);
      assert Put(root, p, v) == Obj(root.id, root.props[i := (root.props[i].0, w)]);
      if q[0] == p[0] {
        PrefixTails(p, q);
        PutFrame(root.props[i].1, p[1..], v, q[1..]);
        SameField(root, i, w, q);
      } else if q[0].Field? {
        FieldFrame(root, i, w, q);
      }
    }
  }

  /** After replacing the value of entry `i`, a path through its key continues from the new value. */
  lemma {:induction false} SameField(root: Value, i: int, w: Value, q: Path)
    requires root.Obj? && 0 <= i < |root.props| && IndexOf(root.props, root.props[i].0) == i
    requires q != [] && q[0] == Field(root.props[i].0)
    ensures At(Obj(root.id, root.props[i := (root.props[i].0, w)]), q) == At(w, q[1..])
    ensures At(root, q) == At(root.props[i].1, q[1..])
  {
    IndexOfUpdate(root.props, i, w, root.props[i].0);
  }

  /** Replacing the value of entry `i` leaves a path through another key as it was. */
  lemma {:induction false} FieldFrame(root: Value, i: int, w: Value, q: Path)
    requires root.Obj? && 0 <= i < |root.props| && IndexOf(root.props, root.props[i].0) == i
    requires q != [] && q[0].Field? && q[0].name != root.props[i].0
    ensures At(Obj(root.id, root.props[i := (root.props[i].0, w)]), q) == At(root, q)
  {
    IndexOfUpdate(root.props, i, w, q[0].name);
  }
}
