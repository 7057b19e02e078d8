/** `SerializedDelta`, the tagged record form of a delta: `GetSerialized` on every
    delta kind, `SerializedDelta.Deserialize` and `SerializedDelta.TryDeserializeJson`.

    The JSON text codec is not part of this model: `enc` stands for
    `MiniJSON.Json.Serialize` and `dec` for `MiniJSON.Json.Deserialize` (which receives
    `None` for a null string). Nothing is assumed about them unless a lemma says so. */
module Serialization {
  import opened Json
  import opened Deltas

  /** What the `object`-typed `Key` and `Content` fields hold: nothing (null), a boxed
      `int` key, a string, the child records of a container, or any other value a JSON
      parse produced (a boxed `long`, a list, a dictionary, ...). */
  datatype Boxed =
    | Nothing
    | IntBox(i: int)
    | Text(s: string)
    | Records(records: seq<SerializedDelta>)
    | Parsed(v: Value)

  datatype SerializedDelta = SerializedDelta(key: Boxed, deltaType: string, content: Boxed)

  // ---------------------------------------------------------------------------
  // GetSerialized

  /** The tags the six delta kinds write. */
  predicate KnownTag(tag: string)
  {
    tag in {"Identity", "DeltaRemove", "DeltaInsert", "DeltaReplace", "DeltaArray", "DeltaObject"}
  }

  /** `GetSerialized()`: the record of a delta, with a null `Key`. A container lists one
      record per change, in order, each with `Key` set to the change's key
      (`SerializeChange`). The C# `Content` of a container is a lazy `Select` sequence
      rather than an array, so the C# cast back to `SerializedDelta[]` would fail;
      the model keeps it as a sequence of records that `Deserialize` accepts. */
  function GetSerialized(d: JsonDelta, enc: Value -> string): (r: SerializedDelta)
    ensures r.key == Nothing
    ensures KnownTag(r.deltaType)
    ensures d.Identity? ==> r.deltaType == "Identity"
    ensures d.DeltaRemove? ==> r.deltaType == "DeltaRemove"
    ensures d.DeltaInsert? ==> r.deltaType == "DeltaInsert"
    ensures d.DeltaReplace? ==> r.deltaType == "DeltaReplace"
    ensures d.DeltaArray? ==> r.deltaType == "DeltaArray"
    ensures d.DeltaObject? ==> r.deltaType == "DeltaObject"
    ensures d.DeltaArray? || d.DeltaObject? ==> r.content.Records? && |r.content.records| == ChangeCount(d)
    ensures d.DeltaInsert? || d.DeltaReplace? ==> r.content == Text(enc(d.obj))
    decreases d, 1
  {
    match d
    case Identity => SerializedDelta(Nothing, "Identity", Nothing)
    case DeltaInsert(obj) => SerializedDelta(Nothing, "DeltaInsert", Text(enc(obj)))
    case DeltaRemove => SerializedDelta(Nothing, "DeltaRemove", Nothing)
    case DeltaReplace(obj) => SerializedDelta(Nothing, "DeltaReplace", Text(enc(obj)))
    case DeltaArray(ch) => SerializedDelta(Nothing, "DeltaArray", Records(SerializeChanges(d, 0, enc)))
    case DeltaObject(ch) => SerializedDelta(Nothing, "DeltaObject", Records(SerializeChanges(d, 0, enc)))
  }

  /** The key of change `i`, boxed. */
  function BoxedKey(d: JsonDelta, i: nat): Boxed
    requires i < ChangeCount(d)
  {
    match d
    case DeltaArray(ch) => IntBox(ch[i].0)
    case DeltaObject(ch) => Text(ch[i].0)
  }

  /** `SerializeChange` on change `i` of `d`: the change's record, keyed. */
  function ChildRecord(d: JsonDelta, i: nat, enc: Value -> string): (r: SerializedDelta)
    requires i < ChangeCount(d)
    ensures r.key == BoxedKey(d, i)
    decreases d, 0, 0
  {
    var record := match d
      case DeltaArray(ch) => GetSerialized(ch[i].1, enc)
      case DeltaObject(ch) => GetSerialized(ch[i].1, enc);
    record.(key := BoxedKey(d, i))
  }

  /** `changes.Select(SerializeChange)` from change `i` on. */
  function SerializeChanges(d: JsonDelta, i: nat, enc: Value -> string): (rs: seq<SerializedDelta>)
    requires i <= ChangeCount(d)
    ensures |rs| == ChangeCount(d) - i
    ensures forall t :: 0 <= t < |rs| ==> rs[t] == ChildRecord(d, i + t, enc)
    decreases d, 0, ChangeCount(d) - i
  {
    if i == ChangeCount(d) then [] else [ChildRecord(d, i, enc)] + SerializeChanges(d, i + 1, enc)
  }

  // ---------------------------------------------------------------------------
  // Deserialize

  /** The exceptions `Deserialize` can end in. */
  datatype Error =
    | Raised(fault: Fault)
    /** `throw new Exception(message)` for a tag no delta kind writes. */
    | NotSupported(message: string)

  datatype Result<T> = Success(value: T) | Failure(error: Error)

  /** The message of the exception thrown for an unknown tag. */
  function UnsupportedMessage(tag: string): string
  {
    "Delta type " + tag + " is not supported."
  }

  /** `MiniJSON.Json.Deserialize((string)Content)`: a string or null content is decoded;
      any other content fails the cast. */
  function DecodePayload(content: Boxed, dec: Option<string> -> Value): (r: Result<Value>)
    ensures r.Success? <==> content.Text? || content.Nothing?
    ensures content.Text? ==> r == Success(dec(Some(content.s)))
  {
    match content
    case Text(s) => Success(dec(Some(s)))
    case Nothing => Success(dec(None))
    case _ => Failure(Raised(InvalidCast))
  }

  /** `(int)change.Key`: unboxing null throws, anything but a boxed int fails the cast. */
  function IntKey(key: Boxed): (r: Result<int>)
    ensures r.Success? <==> key.IntBox?
    ensures key.IntBox? ==> r.value == key.i
  {
    match key
    case IntBox(i) => Success(i)
    case Nothing => Failure(Raised(NullReference))
    case _ => Failure(Raised(InvalidCast))
  }

  /** `(string)change.Key`: a string, or a failed cast. A null key, which C# would
      accept as a null dictionary key, is rejected here as a null reference. */
  function StringKey(key: Boxed): (r: Result<string>)
    ensures r.Success? <==> key.Text?
    ensures key.Text? ==> r.value == key.s
  {
    match key
    case Text(s) => Success(s)
    case Nothing => Failure(Raised(NullReference))
    case _ => Failure(Raised(InvalidCast))
  }

  /** `SerializedDelta.Deserialize()`: dispatch on the tag. */
  function Deserialize(r: SerializedDelta, dec: Option<string> -> Value): Result<JsonDelta>
    decreases r, 1
  {
    match r.deltaType
    case "Identity" => Success(Identity)
    case "DeltaRemove" => Success(DeltaRemove)
    case "DeltaInsert" =>
      var p := DecodePayload(r.content, dec);
      if p.Success? then Success(DeltaInsert(p.value)) else Failure(p.error)
    case "DeltaReplace" =>
      var p := DecodePayload(r.content, dec);
      if p.Success? then Success(DeltaReplace(p.value)) else Failure(p.error)
    case "DeltaArray" =>
      if r.content.Nothing? then Failure(Raised(NullReference))
      else if !r.content.Records? then Failure(Raised(InvalidCast))
      else
        var cs := ArrayChildren(r, 0, dec);
        if cs.Success? then Success(DeltaArray(cs.value)) else Failure(cs.error)
    case "DeltaObject" =>
      if r.content.Nothing? then Failure(Raised(NullReference))
      else if !r.content.Records? then Failure(Raised(InvalidCast))
      else
        var cs := ObjectChildren(r, 0, dec);
        if cs.Success? then Success(DeltaObject(cs.value)) else Failure(cs.error)
    case _ => Failure(NotSupported(UnsupportedMessage(r.deltaType)))
  }

  /** The `foreach` over the children of a `DeltaArray` record, from position `i` on:
      the first failure, or every child deserialized under its integer key. */
  function ArrayChildren(r: SerializedDelta, i: nat, dec: Option<string> -> Value): Result<seq<(int, JsonDelta)>>
    requires r.content.Records? && i <= |r.content.records|
    decreases r, 0, |r.content.records| - i
  {
    if i == |r.content.records| then Success([])
    else
      var change := r.content.records[i];
      var key := IntKey(change.key);
      if key.Failure? then Failure(key.error)
      else
        var child := Deserialize(change, dec);
        if child.Failure? then Failure(child.error)
        else Prepend((key.value, child.value), ArrayChildren(r, i + 1, dec))
  }

  /** The same for a `DeltaObject` record, under string keys. */
  function ObjectChildren(r: SerializedDelta, i: nat, dec: Option<string> -> Value): Result<seq<(string, JsonDelta)>>
    requires r.content.Records? && i <= |r.content.records|
    decreases r, 0, |r.content.records| - i
  {
    if i == |r.content.records| then Success([])
    else
      var change := r.content.records[i];
      var key := StringKey(change.key);
      if key.Failure? then Failure(key.error)
      else
        var child := Deserialize(change, dec);
        if child.Failure? then Failure(child.error)
        else Prepend((key.value, child.value), ObjectChildren(r, i + 1, dec))
  }

  function Prepend<K>(c: (K, JsonDelta), rest: Result<seq<(K, JsonDelta)>>): Result<seq<(K, JsonDelta)>>
  {
    if rest.Success? then Success([c] + rest.value) else rest
  }

  /** `prefix` in front of the children collected after it, unless collecting failed. */
  function PrependAll<K>(prefix: seq<(K, JsonDelta)>, rest: Result<seq<(K, JsonDelta)>>): Result<seq<(K, JsonDelta)>>
  {
    if rest.Success? then Success(prefix + rest.value) else rest
  }

  /** `Deserialize()` as the C# runs it; the first exception ends the call. */
  method DeserializeRecord(r: SerializedDelta, dec: Option<string> -> Value) returns (res: Result<JsonDelta>)
    ensures res == Deserialize(r, dec)
    decreases r, 1
  {
    match r.deltaType
    case "Identity" => return Success(Identity);
    case "DeltaRemove" => return Success(DeltaRemove);
    case "DeltaInsert" =>
      var p := DecodePayload(r.content, dec);
      return if p.Success? then Success(DeltaInsert(p.value)) else Failure(p.error);
    case "DeltaReplace" =>
      var p := DecodePayload(r.content, dec);
      return if p.Success? then Success(DeltaReplace(p.value)) else Failure(p.error);
    case "DeltaArray" =>
      if r.content.Nothing? {
        return Failure(Raised(NullReference));
      }
      if !r.content.Records? {
        return Failure(Raised(InvalidCast));
      }
      var cs := DeserializeArrayChildren(r, dec);
      return if cs.Success? then Success(DeltaArray(cs.value)) else Failure(cs.error);
    case "DeltaObject" =>
      if r.content.Nothing? {
        return Failure(Raised(NullReference));
      }
      if !r.content.Records? {
        return Failure(Raised(InvalidCast));
      }
      var cs := DeserializeObjectChildren(r, dec);
      return if cs.Success? then Success(DeltaObject(cs.value)) else Failure(cs.error);
    case _ => return Failure(NotSupported(UnsupportedMessage(r.deltaType)));
  }

  /** The `foreach` of the `DeltaArray` case: each child record is deserialized and added
      under its integer key to a fresh `Delta<int>`. */
  method DeserializeArrayChildren(r: SerializedDelta, dec: Option<string> -> Value)
    returns (res: Result<seq<(int, JsonDelta)>>)
    requires r.content.Records?
    ensures res == ArrayChildren(r, 0, dec)
    decreases r, 0
  {
    var arrayDelta := new Delta<int>();
    var records := r.content.records;
    assert arrayDelta.changes == [];
    if ArrayChildren(r, 0, dec).Success? {
      assert [] + ArrayChildren(r, 0, dec).value == ArrayChildren(r, 0, dec).value;
    }
    for i := 0 to |records|
      invariant ArrayChildren(r, 0, dec) == PrependAll(arrayDelta.changes, ArrayChildren(r, i, dec))
    {
      var change := records[i];
      var key := IntKey(change.key);
      if key.Failure? {
        return Failure(key.error);
      }
      var child := DeserializeRecord(change, dec);
      if child.Failure? {
        return Failure(child.error);
      }
      assert ArrayChildren(r, i, dec) == Prepend((key.value, child.value), ArrayChildren(r, i + 1, dec));
      ghost var before := arrayDelta.changes;
      var _ := arrayDelta.Add(key.value, child.value);
      if ArrayChildren(r, i + 1, dec).Success? {
        assert before + ([(key.value, child.value)] + ArrayChildren(r, i + 1, dec).value)
            == arrayDelta.changes + ArrayChildren(r, i + 1, dec).value;
      }
    }
    assert arrayDelta.changes + [] == arrayDelta.changes;
    return Success(arrayDelta.changes);
  }

  /** The `foreach` of the `DeltaObject` case, under string keys into a `Delta<string>`. */
  method DeserializeObjectChildren(r: SerializedDelta, dec: Option<string> -> Value)
    returns (res: Result<seq<(string, JsonDelta)>>)
    requires r.content.Records?
    ensures res == ObjectChildren(r, 0, dec)
    decreases r, 0
  {
    var obj := new Delta<string>();
    var records := r.content.records;
    assert obj.changes == [];
    if ObjectChildren(r, 0, dec).Success? {
      assert [] + ObjectChildren(r, 0, dec).value == ObjectChildren(r, 0, dec).value;
    }
    for i := 0 to |records|
      invariant ObjectChildren(r, 0, dec) == PrependAll(obj.changes, ObjectChildren(r, i, dec))
    {
      var change := records[i];
      var key := StringKey(change.key);
      if key.Failure? {
        return Failure(key.error);
      }
      var child := DeserializeRecord(change, dec);
      if child.Failure? {
        return Failure(child.error);
      }
      assert ObjectChildren(r, i, dec) == Prepend((key.value, child.value), ObjectChildren(r, i + 1, dec));
      ghost var before := obj.changes;
      var _ := obj.Add(key.value, child.value);
      if ObjectChildren(r, i + 1, dec).Success? {
        assert before + ([(key.value, child.value)] + ObjectChildren(r, i + 1, dec).value)
            == obj.changes + ObjectChildren(r, i + 1, dec).value;
      }
    }
    assert obj.changes + [] == obj.changes;
    return Success(obj.changes);
  }

  // ---------------------------------------------------------------------------
  // TryDeserializeJson

  /** A parsed JSON value stored in an `object` field: null, a string, or any other value. */
  function Box(v: Value): (b: Boxed)
    ensures v == Null <==> b == Nothing
  {
    match v
    case Null => Nothing
    case Str(s) => Text(s)
    case _ => Parsed(v)
  }

  /** The three ways `TryDeserializeJson` ends: it returns true with the record, it
      returns false with a null record, or `deltaType.ToString()` throws because the
      "DeltaType" entry is null. */
  datatype Envelope = Found(record: SerializedDelta) | NotFound | NullDeltaType

  /** Whether the parse is a dictionary holding all three record fields. */
  predicate HasRecordFields(parsed: Value)
  {
    parsed.Obj? && "Key" in Keys(parsed.props) && "DeltaType" in Keys(parsed.props) && "Content" in Keys(parsed.props)
  }

  /** `TryDeserializeJson` on the value that `MiniJSON.Json.Deserialize(json)` returned;
      `toText` stands for `ToString()` on a non-string, non-null value. */
  function TryDeserializeJson(parsed: Value, toText: Value -> string): (r: Envelope)
    ensures r.NotFound? <==> !HasRecordFields(parsed)
    ensures r.NullDeltaType? <==> HasRecordFields(parsed) && Lookup(parsed.props, "DeltaType") == Some(Null)
    ensures r.Found? ==>
              && r.record.key == Box(Lookup(parsed.props, "Key").value)
              && r.record.content == Box(Lookup(parsed.props, "Content").value)
              && (Lookup(parsed.props, "DeltaType").value.Str? ==> r.record.deltaType == Lookup(parsed.props, "DeltaType").value.s)
              && (!Lookup(parsed.props, "DeltaType").value.Str? ==> r.record.deltaType == toText(Lookup(parsed.props, "DeltaType").value))
  {
    if parsed.Obj? then
      match (Lookup(parsed.props, "Key"), Lookup(parsed.props, "DeltaType"), Lookup(parsed.props, "Content"))
      case (Some(key), Some(deltaType), Some(content)) =>
        if deltaType == Null then NullDeltaType
        else
          var tag := if deltaType.Str? then deltaType.s else toText(deltaType);
          Found(SerializedDelta(Box(key), tag, Box(content)))
      case _ => NotFound
    else NotFound
  }
}
