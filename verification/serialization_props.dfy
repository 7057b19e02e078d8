/** What `Deserialize` gives back for a record `GetSerialized` wrote, and how an
    unknown tag fails. */
module SerializationProperties {
  import opened Json
  import opened Deltas
  import opened Serialization

  /** `d` with every inserted or replacing value sent through the text codec:
      `dec(Some(enc(v)))` in place of `v`. */
  function Recoded(d: JsonDelta, enc: Value -> string, dec: Option<string> -> Value): JsonDelta
    decreases d, 1
  {
    match d
    case Identity => Identity
    case DeltaRemove => DeltaRemove
    case DeltaInsert(v) => DeltaInsert(dec(Some(enc(v))))
    case DeltaReplace(v) => DeltaReplace(dec(Some(enc(v))))
    case DeltaArray(_) => DeltaArray(RecodedArrayChanges(d, 0, enc, dec))
    case DeltaObject(_) => DeltaObject(RecodedObjectChanges(d, 0, enc, dec))
  }

  function RecodedArrayChanges(d: JsonDelta, i: nat, enc: Value -> string, dec: Option<string> -> Value)
    : seq<(int, JsonDelta)>
    requires d.DeltaArray? && i <= |d.arrayChanges|
    decreases d, 0, |d.arrayChanges| - i
  {
    if i == |d.arrayChanges| then []
    else [(d.arrayChanges[i].0, Recoded(d.arrayChanges[i].1, enc, dec))] + RecodedArrayChanges(d, i + 1, enc, dec)
  }

  function RecodedObjectChanges(d: JsonDelta, i: nat, enc: Value -> string, dec: Option<string> -> Value)
    : seq<(string, JsonDelta)>
    requires d.DeltaObject? && i <= |d.objectChanges|
    decreases d, 0, |d.objectChanges| - i
  {
    if i == |d.objectChanges| then []
    else [(d.objectChanges[i].0, Recoded(d.objectChanges[i].1, enc, dec))] + RecodedObjectChanges(d, i + 1, enc, dec)
  }

  /** `Deserialize` reads only the tag and the content of a record, never its key. */
  lemma {:induction false} DeserializeIgnoresKey(r: SerializedDelta, k: Boxed, dec: Option<string> -> Value)
    ensures Deserialize(r.(key := k), dec) == Deserialize(r, dec)
  {
    if r.content.Records? {
      ChildrenIgnoreKey(r, k, 0, dec);
    }
  }

  lemma {:induction false} ChildrenIgnoreKey(r: SerializedDelta, k: Boxed, i: nat, dec: Option<string> -> Value)
    requires r.content.Records? && i <= |r.content.records|
    ensures ArrayChildren(r.(key := k), i, dec) == ArrayChildren(r, i, dec)
    ensures ObjectChildren(r.(key := k), i, dec) == ObjectChildren(r, i, dec)
    decreases |r.content.records| - i
  {
    if i < |r.content.records| {
      ChildrenIgnoreKey(r, k, i + 1, dec);
    }
  }

  /** Deserializing what `GetSerialized` wrote rebuilds the delta, keys, kinds and order
      of changes included, up to the text codec's effect on the carried values. */
  lemma {:induction false} RoundTrip(d: JsonDelta, enc: Value -> string, dec: Option<string> -> Value)
    ensures Deserialize(GetSerialized(d, enc), dec) == Success(Recoded(d, enc, dec))
    decreases d, 1
  {
    match d
    case DeltaArray(_) => ArrayRoundTrip(d, 0, enc, dec);
    case DeltaObject(_) => ObjectRoundTrip(d, 0, enc, dec);
    case _ =>
  }

  lemma {:induction false} ArrayRoundTrip(d: JsonDelta, i: nat, enc: Value -> string, dec: Option<string> -> Value)
    requires d.DeltaArray? && i <= |d.arrayChanges|
    ensures ArrayChildren(GetSerialized(d, enc), i, dec) == Success(RecodedArrayChanges(d, i, enc, dec))
    decreases d, 0, |d.arrayChanges| - i
  {
    var r := GetSerialized(d, enc);
    if i < |d.arrayChanges| {
      var child := d.arrayChanges[i].1;
      assert r.content.records[i] == GetSerialized(child, enc).(key := IntBox(d.arrayChanges[i].0));
      DeserializeIgnoresKey(GetSerialized(child, enc), IntBox(d.arrayChanges[i].0), dec);
      RoundTrip(child, enc, dec);
      ArrayRoundTrip(d, i + 1, enc, dec);
    }
  }

  lemma {:induction false} ObjectRoundTrip(d: JsonDelta, i: nat, enc: Value -> string, dec: Option<string> -> Value)
    requires d.DeltaObject? && i <= |d.objectChanges|
    ensures ObjectChildren(GetSerialized(d, enc), i, dec) == Success(RecodedObjectChanges(d, i, enc, dec))
    decreases d, 0, |d.objectChanges| - i
  {
    var r := GetSerialized(d, enc);
    if i < |d.objectChanges| {
      var child := d.objectChanges[i].1;
      assert r.content.records[i] == GetSerialized(child, enc).(key := Text(d.objectChanges[i].0));
      DeserializeIgnoresKey(GetSerialized(child, enc), Text(d.objectChanges[i].0), dec);
      RoundTrip(child, enc, dec);
      ObjectRoundTrip(d, i + 1, enc, dec);
    }
  }

  /** With a codec that gives every value back, recoding changes nothing. */
  lemma {:induction false} RecodedExact(d: JsonDelta, enc: Value -> string, dec: Option<string> -> Value)
    requires forall v :: dec(Some(enc(v))) == v
    ensures Recoded(d, enc, dec) == d
    decreases d, 1
  {
    match d
    case DeltaArray(ch) =>
      RecodedArrayExact(d, 0, enc, dec);
      assert ch[0..] == ch;
    case DeltaObject(ch) =>
      RecodedObjectExact(d, 0, enc, dec);
      assert ch[0..] == ch;
    case _ =>
  }

  lemma {:induction false} RecodedArrayExact(d: JsonDelta, i: nat, enc: Value -> string, dec: Option<string> -> Value)
    requires forall v :: dec(Some(enc(v))) == v
    requires d.DeltaArray? && i <= |d.arrayChanges|
    ensures RecodedArrayChanges(d, i, enc, dec) == d.arrayChanges[i..]
    decreases d, 0, |d.arrayChanges| - i
  {
    if i < |d.arrayChanges| {
      RecodedExact(d.arrayChanges[i].1, enc, dec);
      RecodedArrayExact(d, i + 1, enc, dec);
      assert d.arrayChanges[i..] == [d.arrayChanges[i]] + d.arrayChanges[i + 1..];
    }
  }

  lemma {:induction false} RecodedObjectExact(d: JsonDelta, i: nat, enc: Value -> string, dec: Option<string> -> Value)
    requires forall v :: dec(Some(enc(v))) == v
    requires d.DeltaObject? && i <= |d.objectChanges|
    ensures RecodedObjectChanges(d, i, enc, dec) == d.objectChanges[i..]
    decreases d, 0, |d.objectChanges| - i
  {
    if i < |d.objectChanges| {
      RecodedExact(d.objectChanges[i].1, enc, dec);
      RecodedObjectExact(d, i + 1, enc, dec);
      assert d.objectChanges[i..] == [d.objectChanges[i]] + d.objectChanges[i + 1..];
    }
  }

  /** With a codec that gives every value back, a delta survives serialization exactly,
      so it applies to any target as the original does. */
  lemma ExactRoundTrip(d: JsonDelta, enc: Value -> string, dec: Option<string> -> Value, root: Value)
    requires forall v :: dec(Some(enc(v))) == v
    ensures Deserialize(GetSerialized(d, enc), dec) == Success(d)
    ensures ApplyTo(Deserialize(GetSerialized(d, enc), dec).value, root) == ApplyTo(d, root)
  {
    RoundTrip(d, enc, dec);
    RecodedExact(d, enc, dec);
  }

  /** A "not supported" error names a tag that no delta kind writes. */
  ghost predicate NamesUnknownTag(e: Error)
  {
    e.NotSupported? ==> exists tag :: !KnownTag(tag) && e.message == UnsupportedMessage(tag)
  }

  /** `Deserialize` throws "not supported" for a record whose own tag is unknown, and
      every "not supported" it throws, at any depth, names the unknown tag it met. */
  lemma {:induction false} UnknownTag(r: SerializedDelta, dec: Option<string> -> Value)
    ensures !KnownTag(r.deltaType) ==> Deserialize(r, dec) == Failure(NotSupported(UnsupportedMessage(r.deltaType)))
    ensures Deserialize(r, dec).Failure? ==> NamesUnknownTag(Deserialize(r, dec).error)
    decreases r, 1
  {
    if !KnownTag(r.deltaType) {
      assert !KnownTag(r.deltaType) && Deserialize(r, dec).error.message == UnsupportedMessage(r.deltaType);
    } else if r.content.Records? {
      UnknownTagInChildren(r, 0, dec);
    }
  }

  lemma {:induction false} UnknownTagInChildren(r: SerializedDelta, i: nat, dec: Option<string> -> Value)
    requires r.content.Records? && i <= |r.content.records|
    ensures ArrayChildren(r, i, dec).Failure? ==> NamesUnknownTag(ArrayChildren(r, i, dec).error)
    ensures ObjectChildren(r, i, dec).Failure? ==> NamesUnknownTag(ObjectChildren(r, i, dec).error)
    decreases r, 0, |r.content.records| - i
  {
    if i < |r.content.records| {
      UnknownTag(r.content.records[i], dec);
      UnknownTagInChildren(r, i + 1, dec);
    }
  }
}
