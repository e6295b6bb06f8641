/** The equivalence the comparator decides, written as functions that follow
    the three comparison routines case by case. Arrays are matched greedily:
    each element of the first array, in order, claims the first unclaimed
    element of the second that is equivalent to it. Claimed elements are
    removed here, where the routine marks them visited. */
module Equivalence {
  import opened JsonValue

  /** `a` and `b` are equivalent JSON values. Dispatch is on the kind of
      `a`; a `b` of another kind is never equivalent, and `null` equals only
      `null`. */
  ghost predicate Equivalent(a: Value, b: Value)
    decreases Size(a) + Size(b), 0
  {
    match a
    case Null => b == Null
    case Bool(x) => b.Bool? && x == b.b
    case Num(x) => b.Num? && x == b.n
    case Str(x) => b.Str? && x == b.s
    case Arr(s) => b.Arr? && ArraysEquivalent(s, b.elems)
    case Obj(m) => b.Obj? && MapsEquivalent(m, b.fields)
  }

  /** Two objects match when they have as many keys, every key of `a` is in
      `b` with an equivalent value, and every key of `b` is in `a`. */
  ghost predicate MapsEquivalent(a: map<string, Value>, b: map<string, Value>)
    decreases MapSize(a) + MapSize(b), 1
  {
    MapSizeElems(a);
    MapSizeElems(b);
    && |a| == |b|
    && (forall key :: key in a ==> key in b && Equivalent(a[key], b[key]))
    && (forall key :: key in b ==> key in a)
  }

  /** The greedy matcher: `s[0]` claims the first element of `t` equivalent
      to it, and the rest of `s` is matched against what is left of `t`. */
  ghost predicate ArraysEquivalent(s: seq<Value>, t: seq<Value>)
    decreases SeqSize(s) + SeqSize(t), 2
  {
    if s == [] then t == []
    else
      var j := FirstMatch(t, s[0]);
      if j == |t| then false
      else
        SeqSizeRemoveAt(t, j);
        ArraysEquivalent(s[1..], RemoveAt(t, j))
  }

  /** Index of the first element `x` of `t` with `Equivalent(x, e)` (the
      candidate comes first, as in the scan), or `|t|` when there is none. */
  ghost function FirstMatch(t: seq<Value>, e: Value): (j: nat)
    ensures j <= |t|
    decreases SeqSize(t) + Size(e), 1, |t|
  {
    if t == [] then 0
    else if Equivalent(t[0], e) then 0
    else 1 + FirstMatch(t[1..], e)
  }

  /** The index `FirstMatch` returns is the first match, or the end when no
      element matches. */
  lemma {:induction false} FirstMatchIsFirst(t: seq<Value>, e: Value)
    ensures FirstMatch(t, e) < |t| ==> Equivalent(t[FirstMatch(t, e)], e)
    ensures forall k :: 0 <= k < FirstMatch(t, e) ==> !Equivalent(t[k], e)
    decreases |t|
  {
    if t != [] && !Equivalent(t[0], e) {
      FirstMatchIsFirst(t[1..], e);
      forall k | 0 <= k < FirstMatch(t, e)
        ensures !Equivalent(t[k], e)
      {
        if k > 0 {
          assert t[k] == t[1..][k - 1];
        }
      }
    }
  }

  /** Scanning a concatenation finds a match in the first part, if any,
      before looking at the second. */
  lemma {:induction false} FirstMatchAppend(x: seq<Value>, y: seq<Value>, e: Value)
    ensures FirstMatch(x + y, e) ==
      if FirstMatch(x, e) < |x| then FirstMatch(x, e) else |x| + FirstMatch(y, e)
    decreases |x|
  {
    FirstMatchIsFirst(x, e);
    if x != [] {
      assert (x + y)[0] == x[0];
      assert (x + y)[1..] == x[1..] + y;
      FirstMatchAppend(x[1..], y, e);
    } else {
      assert x + y == y;
    }
  }

  /** A greedy match pairs every element, so both arrays have the same
      length. */
  lemma {:induction false} ArraysEquivalentSameLength(s: seq<Value>, t: seq<Value>)
    requires ArraysEquivalent(s, t)
    ensures |s| == |t|
    decreases |s|
  {
    if s != [] {
      var j := FirstMatch(t, s[0]);
      ArraysEquivalentSameLength(s[1..], RemoveAt(t, j));
    }
  }

  /** Values of different kinds are never equivalent, in either order. */
  lemma CrossKindNeverEquivalent(a: Value, b: Value)
    requires a.Null? != b.Null? || a.Bool? != b.Bool? || a.Num? != b.Num?
          || a.Str? != b.Str? || a.Arr? != b.Arr? || a.Obj? != b.Obj?
    ensures !Equivalent(a, b) && !Equivalent(b, a)
  {
  }

  /** For the scalar kinds, equivalence is equality of the underlying
      value. */
  lemma ScalarEquivalence(a: Value, b: Value)
    requires a.Null? || a.Bool? || a.Num? || a.Str?
    ensures Equivalent(a, b) <==> a == b
  {
  }

  /** Key order plays no part and the size shortcut only anticipates the
      answer: objects match exactly when they have the same keys and
      equivalent values under each. */
  lemma MapsEquivalentIffSameKeys(a: map<string, Value>, b: map<string, Value>)
    ensures MapsEquivalent(a, b) <==> a.Keys == b.Keys && forall key :: key in a ==> Equivalent(a[key], b[key])
  {
    if a.Keys == b.Keys {
      assert |a| == |a.Keys| == |b.Keys| == |b|;
    }
  }

  /** Objects of different sizes are never equivalent. */
  lemma MapsOfDifferentSizes(a: map<string, Value>, b: map<string, Value>)
    requires |a| != |b|
    ensures !Equivalent(Obj(a), Obj(b))
  {
  }
}
