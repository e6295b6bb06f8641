/** Decoded JSON values, as `encoding/json` produces them when it decodes into
    an empty interface, and the size measure the comparison recurses on. */
module JsonValue {

  /** The six kinds a decoded value can have. Numbers are only ever compared
      with `==`, so an exact number type stands in for `float64`. */
  datatype Value =
    | Null
    | Bool(b: bool)
    | Num(n: real)
    | Str(s: string)
    | Arr(elems: seq<Value>)
    | Obj(fields: map<string, Value>)

  /** The sequence `s` without its element at index `j`. */
  function RemoveAt<T>(s: seq<T>, j: nat): (r: seq<T>)
    requires j < |s|
    ensures |r| == |s| - 1
    ensures forall k :: 0 <= k < j ==> r[k] == s[k]
    ensures forall k :: j <= k < |r| ==> r[k] == s[k + 1]
    ensures multiset(s) == multiset(r) + multiset{s[j]}
  {
    assert s == s[..j] + [s[j]] + s[j + 1..];
    s[..j] + s[j + 1..]
  }

  /** Number of nodes in a value tree. The comparison recurses on a pair
      whose components swap roles at every array level, so it terminates on
      the sum of both sizes rather than on either value alone. */
  ghost function Size(v: Value): (r: nat)
    ensures r >= 1
    decreases v, if v.Obj? then |v.fields.Keys| + 1 else 0
  {
    match v
    case Arr(s) => 1 + SeqSize(s)
    case Obj(m) => 1 + FieldsSize(m, m.Keys)
    case _ => 1
  }

  /** Total size of the elements of an array. */
  ghost function SeqSize(s: seq<Value>): nat
    decreases s
  {
    if s == [] then 0 else Size(s[0]) + SeqSize(s[1..])
  }

  /** Total size of the values stored under `keys` in an object. */
  ghost function FieldsSize(m: map<string, Value>, keys: set<string>): nat
    requires keys <= m.Keys
    decreases Obj(m), |keys|
  {
    if keys == {} then 0
    else
      var k :| k in keys;
      Size(m[k]) + FieldsSize(m, keys - {k})
  }

  /** Total size of the values of an object. */
  ghost function MapSize(m: map<string, Value>): nat
  {
    FieldsSize(m, m.Keys)
  }

  /** Every element is no larger than its array's contents together. */
  lemma {:induction false} SeqSizeElem(s: seq<Value>, j: nat)
    requires j < |s|
    ensures Size(s[j]) <= SeqSize(s)
    decreases |s|
  {
    if j > 0 {
      SeqSizeElem(s[1..], j - 1);
    }
  }

  lemma SeqSizeMember(s: seq<Value>, x: Value)
    requires x in s
    ensures Size(x) <= SeqSize(s)
  {
    var j :| 0 <= j < |s| && s[j] == x;
    SeqSizeElem(s, j);
  }

  /** Removing an element removes exactly its size. */
  lemma {:induction false} SeqSizeRemoveAt(s: seq<Value>, j: nat)
    requires j < |s|
    ensures SeqSize(RemoveAt(s, j)) + Size(s[j]) == SeqSize(s)
    decreases j
  {
    var r := RemoveAt(s, j);
    if j == 0 {
      assert r == s[1..];
    } else {
      assert r[0] == s[0];
      assert r[1..] == RemoveAt(s[1..], j - 1);
      SeqSizeRemoveAt(s[1..], j - 1);
    }
  }

  lemma {:induction false} FieldsSizeElem(m: map<string, Value>, keys: set<string>, k: string)
    requires keys <= m.Keys && k in keys
    ensures Size(m[k]) <= FieldsSize(m, keys)
    decreases |keys|
  {
    var k0 :| k0 in keys && FieldsSize(m, keys) == Size(m[k0]) + FieldsSize(m, keys - {k0});
    if k0 != k {
      FieldsSizeElem(m, keys - {k0}, k);
    }
    assert Size(m[k]) <= Size(m[k0]) + FieldsSize(m, keys - {k0});
  }

  /** Every field value is no larger than the object's contents together. */
  lemma MapSizeElems(m: map<string, Value>)
    ensures forall k :: k in m ==> Size(m[k]) <= MapSize(m)
  {
    forall k | k in m
      ensures Size(m[k]) <= MapSize(m)
    {
      FieldsSizeElem(m, m.Keys, k);
    }
  }
}
