/** The delta tree (`IJsonDelta` and its implementations), the `changes` list that
    `Delta<T>.Add` grows, and `Delta<T>.Apply` together with the container operations
    `Select`, `Insert` and `Remove` of `DeltaArray` and `DeltaObject`.

    Apply works on the target in place and threads a return value from change to
    change. The model keeps the target as a root value and the threaded value as an
    accumulator: a reference to a node of the target (its path from the root), or a
    delta object, which is what `DeltaArray.Insert`/`Remove` and
    `DeltaObject.Insert`/`Remove` return. */
module Deltas {
  import opened Json

  /** The closed set of edit descriptors. `DeltaArray` keys are list indices,
      `DeltaObject` keys are dictionary keys; `changes` are in replay order. */
  datatype JsonDelta =
    | Identity
    | DeltaInsert(obj: Value)
    | DeltaRemove
    | DeltaReplace(obj: Value)
    | DeltaArray(arrayChanges: seq<(int, JsonDelta)>)
    | DeltaObject(objectChanges: seq<(string, JsonDelta)>)

  predicate IsContainer(d: JsonDelta)
  {
    d.DeltaArray? || d.DeltaObject?
  }

  /** `IsValidTarget`, an advisory shape check that `Apply` itself never calls. */
  predicate IsValidTarget(d: JsonDelta, target: Value)
  {
    match d
    case Identity => true
    case DeltaArray(_) => target.Arr?
    case DeltaObject(_) => target.Obj?
    case _ => target.Arr? || target.Obj?
  }

  /** `Delta<T>` while it is built: `Add` appends to its `changes` list in place. */
  class Delta<T> {
    var changes: seq<(T, JsonDelta)>

    constructor ()
      ensures changes == []
    {
      changes := [];
    }

    /** `Add(key, delta)`: appends one change and returns the same instance. */
    method Add(key: T, delta: JsonDelta) returns (self: Delta<T>)
      modifies this
      ensures self == this
      ensures changes == old(changes) + [(key, delta)]
    {
      changes := changes + [(key, delta)];
      self := this;
    }

    /** `Add(other)`: appends `other`'s changes in their order. When `other` is this
        very delta, the enumerator of the list it is appending to throws on its next
        step, after one change has been appended (`completed == false`). */
    method AddAll(other: Delta<T>) returns (self: Delta<T>, completed: bool)
      modifies this
      ensures self == this
      ensures other != this ==> completed && changes == old(changes) + other.changes
      ensures other == this ==>
                completed == (old(changes) == [])
                && changes == if old(changes) == [] then [] else old(changes) + [old(changes)[0]]
    {
      self := this;
      ghost var before := changes;
      var source := other.changes;
      var i := 0;
      while i < |source|
        invariant 0 <= i <= |source|
        invariant other != this ==> other.changes == source
        invariant other == this ==> i == 0 && changes == before
        invariant source == if other == this then before else old(other.changes)
        invariant changes == before + source[..i]
      {
        changes := changes + [source[i]];
        if other == this {
          return this, false;
        }
        i := i + 1;
      }
      assert source[..i] == source;
      completed := true;
    }
  }

  // ---------------------------------------------------------------------------
  // Apply

  /** The value `Aggregate` threads from one change to the next. */
  datatype Acc = Node(path: Path) | Returned(delta: JsonDelta)

  /** The exceptions that end an apply. */
  datatype Fault =
    | InvalidOperation   // Insert/Remove on a target of the wrong kind; Apply on a leaf
    | InvalidCast        // Select on something that is not a list / dictionary
    | NullReference      // Select on a null element
    | OutOfRange         // List.Insert, List.RemoveAt or the list indexer out of range
    | KeyNotFound        // the dictionary indexer on a missing key
    | DuplicateKey       // Dictionary.Add on a key that is present

  datatype Outcome = Done(acc: Acc) | Threw(fault: Fault)

  /** The target tree after the call (partially mutated when it threw) and its outcome. */
  datatype Applied = Applied(root: Value, outcome: Outcome)

  /** The list the accumulator refers to, if it refers to a list. */
  function ListOf(root: Value, acc: Acc): Option<Value>
  {
    if acc.Node? && At(root, acc.path).Some? && At(root, acc.path).value.Arr? then At(root, acc.path) else None
  }

  /** The dictionary the accumulator refers to, if it refers to a dictionary. */
  function DictOf(root: Value, acc: Acc): Option<Value>
  {
    if acc.Node? && At(root, acc.path).Some? && At(root, acc.path).value.Obj? then At(root, acc.path) else None
  }

  /** `DeltaArray.Insert`: `List.Insert` on a list target, then returns the delta itself. */
  function ArrayInsert(self: JsonDelta, root: Value, acc: Acc, key: int, obj: Value): (r: Applied)
    ensures r.outcome.Done? <==> ListOf(root, acc).Some? && 0 <= key <= |ListOf(root, acc).value.items|
    ensures r.outcome.Done? ==>
              var list := ListOf(root, acc).value;
              r.outcome.acc == Returned(self)
              && r.root == Put(root, acc.path, Arr(list.id, list.items[..key] + [obj] + list.items[key..]))
              && At(r.root, acc.path) == Some(Arr(list.id, list.items[..key] + [obj] + list.items[key..]))
    ensures r.outcome.Threw? ==> r.root == root
    ensures ListOf(root, acc).None? ==> r.outcome == Threw(InvalidOperation)
  {
    match ListOf(root, acc)
    case Some(Arr(id, items)) =>
      if 0 <= key <= |items| then Applied(Put(root, acc.path, Arr(id, items[..key] + [obj] + items[key..])), Done(Returned(self)))
      else Applied(root, Threw(OutOfRange))
    case _ => Applied(root, Threw(InvalidOperation))
  }

  /** `DeltaArray.Remove`: `List.RemoveAt` on a list target, then returns the delta itself. */
  function ArrayRemove(self: JsonDelta, root: Value, acc: Acc, key: int): (r: Applied)
    ensures r.outcome.Done? <==> ListOf(root, acc).Some? && 0 <= key < |ListOf(root, acc).value.items|
    ensures r.outcome.Done? ==>
              var list := ListOf(root, acc).value;
              r.outcome.acc == Returned(self)
              && r.root == Put(root, acc.path, Arr(list.id, list.items[..key] + list.items[key + 1..]))
              && At(r.root, acc.path) == Some(Arr(list.id, list.items[..key] + list.items[key + 1..]))
    ensures r.outcome.Threw? ==> r.root == root
    ensures ListOf(root, acc).None? ==> r.outcome == Threw(InvalidOperation)
  {
    match ListOf(root, acc)
    case Some(Arr(id, items)) =>
      if 0 <= key < |items| then Applied(Put(root, acc.path, Arr(id, items[..key] + items[key + 1..])), Done(Returned(self)))
      else Applied(root, Threw(OutOfRange))
    case _ => Applied(root, Threw(InvalidOperation))
  }

  /** `DeltaObject.Insert`: `Dictionary.Add`, which refuses a key that is present, then
      returns the delta itself. */
  function ObjectInsert(self: JsonDelta, root: Value, acc: Acc, key: string, obj: Value): (r: Applied)
    ensures r.outcome.Done? <==> DictOf(root, acc).Some? && key !in Keys(DictOf(root, acc).value.props)
    ensures r.outcome.Done? ==>
              var dict := DictOf(root, acc).value;
              r.outcome.acc == Returned(self)
              && r.root == Put(root, acc.path, Obj(dict.id, dict.props + [(key, obj)]))
              && At(r.root, acc.path) == Some(Obj(dict.id, dict.props + [(key, obj)]))
    ensures r.outcome.Threw? ==> r.root == root
    ensures DictOf(root, acc).Some? && key in Keys(DictOf(root, acc).value.props) ==> r.outcome == Threw(DuplicateKey)
    ensures DictOf(root, acc).None? ==> r.outcome == Threw(InvalidOperation)
  {
    match DictOf(root, acc)
    case Some(Obj(id, props)) =>
      if key in Keys(props) then Applied(root, Threw(DuplicateKey))
      else Applied(Put(root, acc.path, Obj(id, props + [(key, obj)])), Done(Returned(self)))
    case _ => Applied(root, Threw(InvalidOperation))
  }

  /** `DeltaObject.Remove`: `Dictionary.Remove`, a no-op for a missing key, then returns
      the delta itself. */
  function ObjectRemove(self: JsonDelta, root: Value, acc: Acc, key: string): (r: Applied)
    ensures r.outcome.Done? <==> DictOf(root, acc).Some?
    ensures r.outcome.Done? ==>
              var dict := DictOf(root, acc).value;
              r.outcome.acc == Returned(self)
              && r.root == Put(root, acc.path, Obj(dict.id, RemoveKey(dict.props, key)))
              && At(r.root, acc.path) == Some(Obj(dict.id, RemoveKey(dict.props, key)))
              && (key !in Keys(dict.props) ==> At(r.root, acc.path) == Some(dict))
    ensures r.outcome.Threw? ==> r.root == root && r.outcome == Threw(InvalidOperation)
  {
    match DictOf(root, acc)
    case Some(Obj(id, props)) => Applied(Put(root, acc.path, Obj(id, RemoveKey(props, key))), Done(Returned(self)))
    case _ => Applied(root, Threw(InvalidOperation))
  }

  /** `Insert` and `Remove` on a dictionary whose keys are unique leave them unique: the
      model never builds a dictionary with a repeated key. */
  lemma ObjectEditsKeepUniqueKeys(self: JsonDelta, root: Value, acc: Acc, key: string, obj: Value)
    requires DictOf(root, acc).Some? && UniqueKeys(DictOf(root, acc).value.props)
    ensures var r := ObjectInsert(self, root, acc, key, obj);
            r.outcome.Done? ==> UniqueKeys(At(r.root, acc.path).value.props)
    ensures var r := ObjectRemove(self, root, acc, key);
            r.outcome.Done? && UniqueKeys(At(r.root, acc.path).value.props)
  {
    var dict := DictOf(root, acc).value;
    if key !in Keys(dict.props) {
      AddKeepsUniqueKeys(dict.props, key, obj);
    }
    RemoveKeepsUniqueKeys(dict.props, key);
  }

  datatype Selected = Child(path: Path) | Failed(fault: Fault)

  /** `DeltaArray.Select`: casts the target to a list and indexes it. */
  function ArraySelect(root: Value, acc: Acc, key: int): (r: Selected)
    ensures r.Child? <==> ListOf(root, acc).Some? && 0 <= key < |ListOf(root, acc).value.items|
    ensures r.Child? ==> r.path == acc.path + [Index(key)] && At(root, r.path) == Some(ListOf(root, acc).value.items[key])
  {
    match acc
    case Returned(_) => Failed(InvalidCast)
    case Node(p) =>
      match At(root, p)
      case Some(Arr(_, items)) =>
        if 0 <= key < |items| then
          AtExtend(root, p, Index(key));
          Child(p + [Index(key)])
        else Failed(OutOfRange)
      case Some(Null) => Failed(NullReference)
      case _ => Failed(InvalidCast)
  }

  /** `DeltaObject.Select`: casts the target to a dictionary and indexes it by key. */
  function ObjectSelect(root: Value, acc: Acc, key: string): (r: Selected)
    ensures r.Child? <==> DictOf(root, acc).Some? && key in Keys(DictOf(root, acc).value.props)
    ensures r.Child? ==> r.path == acc.path + [Field(key)] && At(root, r.path) == Lookup(DictOf(root, acc).value.props, key)
    ensures DictOf(root, acc).Some? && key !in Keys(DictOf(root, acc).value.props) ==> r == Failed(KeyNotFound)
  {
    match acc
    case Returned(_) => Failed(InvalidCast)
    case Node(p) =>
      match At(root, p)
      case Some(Obj(_, props)) =>
        if key in Keys(props) then
          AtExtend(root, p, Field(key));
          Child(p + [Field(key)])
        else Failed(KeyNotFound)
      case Some(Null) => Failed(NullReference)
      case _ => Failed(InvalidCast)
  }

  /** Following one more step from a node is following the path extended by it. */
  lemma {:induction false} AtExtend(root: Value, p: Path, s: Step)
    requires At(root, p).Some?
    ensures At(root, p + [s]) == At(At(root, p).value, [s])
    decreases |p|
  {
    if p == [] {
      assert p + [s] == [s];
    } else {
      assert (p + [s])[0] == p[0] && (p + [s])[1..] == p[1..] + [s];
      match (root, p[0])
      case (Arr(_, items), Index(i)) => AtExtend(items[i], p[1..], s);
      case (Obj(_, props), Field(k)) => AtExtend(props[IndexOf(props, k)].1, p[1..], s);
    }
  }

  function ChangeCount(d: JsonDelta): nat
  {
    match d
    case DeltaArray(ch) => |ch|
    case DeltaObject(ch) => |ch|
    case _ => 0
  }

  /** The key of change `i`, as a step into the target. */
  function ChangeKey(d: JsonDelta, i: nat): Step
    requires i < ChangeCount(d)
  {
    match d
    case DeltaArray(ch) => Index(ch[i].0)
    case DeltaObject(ch) => Field(ch[i].0)
  }

  /** The edit of change `i`. */
  function ChangeOp(d: JsonDelta, i: nat): JsonDelta
    requires i < ChangeCount(d)
  {
    match d
    case DeltaArray(ch) => ch[i].1
    case DeltaObject(ch) => ch[i].1
  }

  /** The protected `Insert` of the delta `self`, by the kind of its keys. */
  function Insert(self: JsonDelta, root: Value, acc: Acc, key: Step, obj: Value): Applied
  {
    match key
    case Index(k) => ArrayInsert(self, root, acc, k, obj)
    case Field(k) => ObjectInsert(self, root, acc, k, obj)
  }

  function Remove(self: JsonDelta, root: Value, acc: Acc, key: Step): Applied
  {
    match key
    case Index(k) => ArrayRemove(self, root, acc, k)
    case Field(k) => ObjectRemove(self, root, acc, k)
  }

  function Select(root: Value, acc: Acc, key: Step): Selected
  {
    match key
    case Index(k) => ArraySelect(root, acc, k)
    case Field(k) => ObjectSelect(root, acc, k)
  }

  /** `Apply` on any delta: a container folds over its changes starting from the
      target; a leaf descriptor throws `InvalidOperationException`. */
  function Apply(d: JsonDelta, root: Value, target: Acc): Applied
    decreases d, 1
  {
    if IsContainer(d) then ApplyFrom(d, 0, root, target) else Applied(root, Threw(InvalidOperation))
  }

  /** The `Aggregate` from change `i` on: each change receives the previous change's
      return value; the first exception ends the fold with the target as it is then. */
  function ApplyFrom(self: JsonDelta, i: nat, root: Value, acc: Acc): Applied
    requires i <= ChangeCount(self)
    decreases self, 0, ChangeCount(self) - i + 1
  {
    if i == ChangeCount(self) then Applied(root, Done(acc))
    else
      var r := ApplyChange(self, i, root, acc);
      if r.outcome.Threw? then r else ApplyFrom(self, i + 1, r.root, r.outcome.acc)
  }

  /** One step of the fold: the `switch` on the kind of change `i`. */
  function ApplyChange(self: JsonDelta, i: nat, root: Value, acc: Acc): Applied
    requires i < ChangeCount(self)
    decreases self, 0, 0
  {
    var key := ChangeKey(self, i);
    var op := ChangeOp(self, i);
    match op
    case Identity => Applied(root, Done(acc))
    case DeltaInsert(obj) => Insert(self, root, acc, key, obj)
    case DeltaRemove => Remove(self, root, acc, key)
    case DeltaReplace(obj) =>
      var removed := Remove(self, root, acc, key);
      if removed.outcome.Threw? then removed else Insert(self, removed.root, removed.outcome.acc, key, obj)
    case DeltaArray(_) => ApplyNested(self, i, root, acc)
    case DeltaObject(_) => ApplyNested(self, i, root, acc)
  }

  /** A nested `DeltaArray`/`DeltaObject` change: `Select` the child at the key, then
      apply the nested delta to it; what that returns becomes the accumulator. */
  function ApplyNested(self: JsonDelta, i: nat, root: Value, acc: Acc): Applied
    requires i < ChangeCount(self)
    decreases self, 0, 0, 0
  {
    match Select(root, acc, ChangeKey(self, i))
    case Failed(f) => Applied(root, Threw(f))
    case Child(p) =>
      match self
      case DeltaArray(ch) => Apply(ch[i].1, root, Node(p))
      case DeltaObject(ch) => Apply(ch[i].1, root, Node(p))
  }

  /** `Apply(target)` as a caller sees it: the fold starts at the target itself. */
  function ApplyTo(d: JsonDelta, target: Value): Applied
  {
    Apply(d, target, Node([]))
  }

  // ---------------------------------------------------------------------------
  // What Apply does, change by change

  /** A leaf descriptor is not applicable on its own. */
  lemma LeafApplyThrows(d: JsonDelta, root: Value, target: Acc)
    requires !IsContainer(d)
    ensures Apply(d, root, target) == Applied(root, Threw(InvalidOperation))
  {
  }

  predicate AllIdentityFrom(d: JsonDelta, i: nat)
    requires i <= ChangeCount(d)
  {
    forall j :: i <= j < ChangeCount(d) ==> ChangeOp(d, j) == Identity
  }

  /** Identity changes pass the accumulator through and leave the target alone. */
  lemma {:induction false} IdentityPassesThrough(self: JsonDelta, i: nat, root: Value, acc: Acc)
    requires i <= ChangeCount(self) && AllIdentityFrom(self, i)
    ensures ApplyFrom(self, i, root, acc) == Applied(root, Done(acc))
    decreases ChangeCount(self) - i
  {
    if i < ChangeCount(self) {
      IdentityPassesThrough(self, i + 1, root, acc);
    }
  }

  /** A successful Insert or Remove change hands the delta itself to the next change. */
  lemma InsertRemoveReturnSelf(self: JsonDelta, i: nat, root: Value, acc: Acc)
    requires i < ChangeCount(self)
    requires ChangeOp(self, i).DeltaInsert? || ChangeOp(self, i).DeltaRemove?
    ensures ApplyChange(self, i, root, acc).outcome.Done? ==> ApplyChange(self, i, root, acc).outcome.acc == Returned(self)
  {
  }

  /** Once the accumulator is a delta object, the rest of the fold mutates nothing and
      succeeds exactly when every remaining change is an Identity. */
  lemma {:induction false} NothingAppliesToADelta(self: JsonDelta, i: nat, root: Value, x: JsonDelta)
    requires i <= ChangeCount(self)
    ensures ApplyFrom(self, i, root, Returned(x)).root == root
    ensures ApplyFrom(self, i, root, Returned(x)).outcome.Done? <==> AllIdentityFrom(self, i)
    ensures ApplyFrom(self, i, root, Returned(x)).outcome.Done? ==> ApplyFrom(self, i, root, Returned(x)).outcome.acc == Returned(x)
    decreases ChangeCount(self) - i
  {
    if i < ChangeCount(self) {
      var key := ChangeKey(self, i);
      assert ListOf(root, Returned(x)).None? && DictOf(root, Returned(x)).None?;
      if ChangeOp(self, i) == Identity {
        NothingAppliesToADelta(self, i + 1, root, x);
      } else {
        var r := ApplyChange(self, i, root, Returned(x));
        match ChangeOp(self, i)
        case DeltaInsert(_) =>
          assert r.outcome.Threw? && r.root == root;
        case DeltaRemove =>
          assert r.outcome.Threw? && r.root == root;
        case DeltaReplace(_) =>
          assert Remove(self, root, Returned(x), key).outcome.Threw?;
          assert r.outcome.Threw? && r.root == root;
        case DeltaArray(_) =>
          assert Select(root, Returned(x), key).Failed?;
          assert r == ApplyNested(self, i, root, Returned(x));
        case DeltaObject(_) =>
          assert Select(root, Returned(x), key).Failed?;
          assert r == ApplyNested(self, i, root, Returned(x));
      }
    }
  }

  /** Replace removes first; as Remove returns the delta, the Insert that follows always
      throws, and the removal stays done. */
  lemma ReplaceRemovesThenThrows(self: JsonDelta, i: nat, root: Value, acc: Acc)
    requires i < ChangeCount(self) && ChangeOp(self, i).DeltaReplace?
    ensures var removed := Remove(self, root, acc, ChangeKey(self, i));
            ApplyChange(self, i, root, acc).outcome.Threw?
            && (removed.outcome.Done? ==> ApplyChange(self, i, root, acc) == Applied(removed.root, Threw(InvalidOperation)))
  {
    var removed := Remove(self, root, acc, ChangeKey(self, i));
    if removed.outcome.Done? {
      assert removed.outcome.acc == Returned(self);
      assert ListOf(removed.root, Returned(self)).None? && DictOf(removed.root, Returned(self)).None?;
    }
  }

  /** An insertion or removal followed by any further non-Identity change never applies:
      the later change meets the delta object instead of the target. */
  lemma {:induction false} EditThenEditThrows(self: JsonDelta, i: nat, j: nat, l: nat, root: Value, acc: Acc)
    requires i <= j < l < ChangeCount(self)
    requires ChangeOp(self, j).DeltaInsert? || ChangeOp(self, j).DeltaRemove?
    requires ChangeOp(self, l) != Identity
    ensures ApplyFrom(self, i, root, acc).outcome.Threw?
    decreases j - i
  {
    var r := ApplyChange(self, i, root, acc);
    if r.outcome.Done? {
      if i < j {
        EditThenEditThrows(self, i + 1, j, l, r.root, r.outcome.acc);
      } else {
        InsertRemoveReturnSelf(self, i, root, acc);
        NothingAppliesToADelta(self, i + 1, r.root, self);
      }
    }
  }

  /** A delta whose first change inserts or removes and which has a second change that
      is not Identity never applies: the first change hands the delta itself on as the
      target of the second. */
  lemma TwoEditsThrow(self: JsonDelta, root: Value, target: Acc)
    requires ChangeCount(self) >= 2
    requires ChangeOp(self, 0).DeltaInsert? || ChangeOp(self, 0).DeltaRemove?
    requires ChangeOp(self, 1) != Identity
    ensures Apply(self, root, target).outcome.Threw?
  {
    EditThenEditThrows(self, 0, 0, 1, root, target);
  }
}
