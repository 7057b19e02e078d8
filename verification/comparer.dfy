/** Structural equality of value trees (`JsonComparer`, `KeyValueComparer`) and the
    longest-common-subsequence alignment of two lists built on it. */
module Comparer {
  import opened Json

  // ---------------------------------------------------------------------------
  // Equality

  /** `JsonComparer.Equals`: both sides non-null, the same runtime type, and either
      `object.Equals` (value equality for primitives, reference equality for
      containers) or element-wise / entry-wise equality. */
  predicate JsonEquals(x: Value, y: Value)
    decreases x, 1
  {
    x != Null && y != Null && SameType(x, y) && (RawEquals(x, y) || ListsEqual(x, y) || PropertiesEqual(x, y))
  }

  /** `ListsEqual`: two lists of the same count that are equal in index order. */
  predicate ListsEqual(x: Value, y: Value)
    decreases x, 0
  {
    x.Arr? && y.Arr? && |x.items| == |y.items|
    && forall i :: 0 <= i < |x.items| ==> JsonEquals(x.items[i], y.items[i])
  }

  /** `PropertiesEqual`: two dictionaries of the same count whose entries, taken
      pairwise in enumeration order, are equal. */
  predicate PropertiesEqual(x: Value, y: Value)
    decreases x, 0
  {
    x.Obj? && y.Obj? && |x.props| == |y.props|
    && forall i :: 0 <= i < |x.props| ==> KeyValueEquals(x.props[i], y.props[i])
  }

  /** `KeyValueComparer.Equals`: ordinal key equality and equal values. */
  predicate KeyValueEquals(p: (string, Value), q: (string, Value))
    decreases p
  {
    p.0 == q.0 && JsonEquals(p.1, q.1)
  }

  lemma NullNeverEqual(x: Value)
    ensures !JsonEquals(Null, x) && !JsonEquals(x, Null)
  {
  }

  lemma DifferentTypesNeverEqual(x: Value, y: Value)
    requires !SameType(x, y)
    ensures !JsonEquals(x, y)
  {
  }

  lemma ListsEqualIff(x: Value, y: Value)
    requires x.Arr? && y.Arr?
    ensures JsonEquals(x, y) <==>
              x.id == y.id
              || (|x.items| == |y.items| && forall i :: 0 <= i < |x.items| ==> JsonEquals(x.items[i], y.items[i]))
  {
  }

  lemma PropertiesEqualIff(x: Value, y: Value)
    requires x.Obj? && y.Obj?
    ensures JsonEquals(x, y) <==>
              x.id == y.id
              || (|x.props| == |y.props|
                  && forall i :: 0 <= i < |x.props| ==>
                       x.props[i].0 == y.props[i].0 && JsonEquals(x.props[i].1, y.props[i].1))
  {
    assert forall i :: 0 <= i < |x.props| && |x.props| == |y.props| ==>
      (KeyValueEquals(x.props[i], y.props[i]) <==> x.props[i].0 == y.props[i].0 && JsonEquals(x.props[i].1, y.props[i].1));
  }

  /** A list holding a null is equal to no other list: only to itself, by reference. */
  lemma ListWithNullOnlyEqualsItself(x: Value, y: Value)
    requires x.Arr? && Null in x.items
    ensures JsonEquals(x, y) ==> y.Arr? && y.id == x.id
  {
    var i :| 0 <= i < |x.items| && x.items[i] == Null;
    if JsonEquals(x, y) {
      assert SameType(x, y);
      assert y.Arr?;
      if |x.items| == |y.items| {
        assert !JsonEquals(x.items[i], y.items[i]);
      }
      assert !ListsEqual(x, y);
      assert !PropertiesEqual(x, y);
      assert RawEquals(x, y);
    }
  }

  /** The comparer is symmetric. */
  lemma {:induction false} EqualsSymmetric(x: Value, y: Value)
    ensures JsonEquals(x, y) == JsonEquals(y, x)
    decreases x
  {
    if x.Arr? && y.Arr? && |x.items| == |y.items| {
      forall i | 0 <= i < |x.items| ensures JsonEquals(x.items[i], y.items[i]) == JsonEquals(y.items[i], x.items[i]) {
        EqualsSymmetric(x.items[i], y.items[i]);
      }
    }
    if x.Obj? && y.Obj? && |x.props| == |y.props| {
      forall i | 0 <= i < |x.props|
        ensures KeyValueEquals(x.props[i], y.props[i]) == KeyValueEquals(y.props[i], x.props[i])
      {
        assert x.props[i] in x.props;
        EqualsSymmetric(x.props[i].1, y.props[i].1);
      }
    }
  }
}
