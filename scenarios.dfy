/** The scenarios of the repository's tests, stated on decoded values. */
module Scenarios {
  import opened JsonValue
  import opened Equivalence
  import opened Canonical

  /** `["a", "b", 1, 2]` and `[2, "b", 1, "a"]` are equivalent. */
  lemma MixedArrayReordered()
    ensures Equivalent(Arr([Str("a"), Str("b"), Num(1.0), Num(2.0)]),
                       Arr([Num(2.0), Str("b"), Num(1.0), Str("a")]))
  {
    PermutedArrayCompares([Str("a"), Str("b"), Num(1.0), Num(2.0)],
                          [Num(2.0), Str("b"), Num(1.0), Str("a")], Null);
  }

  /** An array holding a string and an object matches the same two elements
      in the other order, with the object's keys in another order too. */
  lemma ArrayOfStringAndObjectReordered()
    ensures Equivalent(
      Arr([Str("foo"), Obj(map["hello" := Str("world"), "nested" := Str("hash")])]),
      Arr([Obj(map["nested" := Str("hash"), "hello" := Str("world")]), Str("foo")]))
  {
    var o := Obj(map["hello" := Str("world"), "nested" := Str("hash")]);
    assert Obj(map["nested" := Str("hash"), "hello" := Str("world")]) == o;
    PermutedArrayCompares([Str("foo"), o], [o, Str("foo")], Null);
  }

  /** A nested document is equivalent to itself. */
  lemma NestedDocumentEqualsItself()
    ensures
      var doc := Obj(map[
        "numeric" := Num(1.5),
        "array" := Arr([Obj(map["foo" := Str("bar")]), Num(1.0), Str("string"),
                        Arr([Str("nested"), Str("array"), Num(5.5)])]),
        "hash" := Obj(map["nested" := Str("hash"),
                          "nested_slice" := Arr([Str("this"), Str("is"), Str("nested")])]),
        "string" := Str("foo")]);
      Equivalent(doc, doc)
  {
    var doc := Obj(map[
      "numeric" := Num(1.5),
      "array" := Arr([Obj(map["foo" := Str("bar")]), Num(1.0), Str("string"),
                      Arr([Str("nested"), Str("array"), Num(5.5)])]),
      "hash" := Obj(map["nested" := Str("hash"),
                        "nested_slice" := Arr([Str("this"), Str("is"), Str("nested")])]),
      "string" := Str("foo")]);
    EquivalentReflexive(doc);
  }

  /** `{"foo": "bar"}` and `{"foo": "bar", "hello": "world"}` differ. */
  lemma ExtraKeyNotEquivalent()
    ensures !Equivalent(Obj(map["foo" := Str("bar")]),
                        Obj(map["foo" := Str("bar"), "hello" := Str("world")]))
  {
    MapsOfDifferentSizes(map["foo" := Str("bar")], map["foo" := Str("bar"), "hello" := Str("world")]);
  }

  /** Multiplicity counts: `[x, x, y]` and `[x, y, y]` differ whenever `x`
      and `y` do, as `[1, 1, 2]` and `[1, 2, 2]` do, although both arrays
      hold the same distinct elements. */
  lemma MultiplicityMatters(x: Value, y: Value)
    requires !Equivalent(x, y)
    ensures !Equivalent(Arr([x, x, y]), Arr([x, y, y]))
  {
    EquivalentIffSameCanon(x, y);
    var cx, cy := CanonOf(x), CanonOf(y);
    BagOfThree(x, x, y);
    BagOfThree(x, y, y);
    assert multiset{cx, cx, cy}[cx] == 2 && multiset{cx, cy, cy}[cx] == 1;
    ArraysEquivalentIffSameMultiset([x, x, y], [x, y, y]);
  }

  lemma BagOfThree(x: Value, y: Value, z: Value)
    ensures Bag([x, y, z]) == multiset{CanonOf(x), CanonOf(y), CanonOf(z)}
  {
    assert CanonAll([x, y, z]) == [CanonOf(x), CanonOf(y), CanonOf(z)];
  }
}
