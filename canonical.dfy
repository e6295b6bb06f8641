/** A reference definition of JSON equivalence that does not depend on any
    matching order: every value is mapped to a canonical form in which an
    array is the multiset of its elements' canonical forms and an object is
    the map of its fields' canonical forms. Two values are equivalent exactly
    when their canonical forms are equal, from which the comparator inherits
    reflexivity, symmetry, transitivity and independence of array order, and
    the greedy matcher is shown to succeed exactly when a perfect matching
    exists. */
module Canonical {
  import opened JsonValue
  import opened Equivalence

  datatype Canon =
    | CNull
    | CBool(b: bool)
    | CNum(n: real)
    | CStr(s: string)
    | CArr(bag: multiset<Canon>)
    | CObj(fields: map<string, Canon>)

  ghost function CanonOf(v: Value): Canon
  {
    match v
    case Null => CNull
    case Bool(x) => CBool(x)
    case Num(x) => CNum(x)
    case Str(x) => CStr(x)
    case Arr(s) => CArr(multiset(seq(|s|, i requires 0 <= i < |s| => CanonOf(s[i]))))
    case Obj(m) => CObj(map k | k in m :: CanonOf(m[k]))
  }

  /** Canonical forms of the elements of an array, position by position:
      the sequence whose multiset the `Arr` case of `CanonOf` builds (see
      `CanonOfArr`). */
  ghost function CanonAll(s: seq<Value>): (r: seq<Canon>)
    ensures |r| == |s|
    ensures forall i :: 0 <= i < |s| ==> r[i] == CanonOf(s[i])
  {
    seq(|s|, i requires 0 <= i < |s| => CanonOf(s[i]))
  }

  /** The multiset of canonical forms of an array's elements. */
  ghost function Bag(s: seq<Value>): multiset<Canon>
  {
    multiset(CanonAll(s))
  }

  lemma CanonOfArr(s: seq<Value>)
    ensures CanonOf(Arr(s)) == CArr(Bag(s))
  {
  }

  lemma BagCons(s: seq<Value>)
    requires s != []
    ensures Bag(s) == multiset{CanonOf(s[0])} + Bag(s[1..])
  {
    assert CanonAll(s) == [CanonOf(s[0])] + CanonAll(s[1..]);
  }

  lemma BagRemoveAt(t: seq<Value>, j: nat)
    requires j < |t|
    ensures Bag(t) == Bag(RemoveAt(t, j)) + multiset{CanonOf(t[j])}
  {
    assert CanonAll(RemoveAt(t, j)) == RemoveAt(CanonAll(t), j);
  }

  lemma BagNonMember(t: seq<Value>, c: Canon)
    requires forall k :: 0 <= k < |t| ==> CanonOf(t[k]) != c
    ensures c !in Bag(t)
  {
    assert c !in CanonAll(t);
  }

  /** Arrays holding the same elements, in any order, have the same
      canonical bag. */
  lemma {:induction false} BagOfPermutation(s: seq<Value>, u: seq<Value>)
    requires multiset(s) == multiset(u)
    ensures Bag(s) == Bag(u)
    decreases |s|
  {
    if s == [] {
      assert |u| == |multiset(u)| == 0;
    } else {
      assert s[0] in multiset(u);
      var k :| 0 <= k < |u| && u[k] == s[0];
      RestOfPermutation(s, u, k);
      BagOfPermutation(s[1..], RemoveAt(u, k));
      BagCons(s);
      BagRemoveAt(u, k);
    }
  }

  /** Taking the same element out of two permutations of each other leaves
      permutations of each other. */
  lemma RestOfPermutation(s: seq<Value>, u: seq<Value>, k: nat)
    requires multiset(s) == multiset(u) && s != [] && k < |u| && u[k] == s[0]
    ensures multiset(s[1..]) == multiset(RemoveAt(u, k))
  {
    assert s == [s[0]] + s[1..];
    assert multiset(s) == multiset{s[0]} + multiset(s[1..]);
    calc {
      multiset(s[1..]);
      multiset(s) - multiset{s[0]};
      multiset(u) - multiset{u[k]};
      multiset(RemoveAt(u, k));
    }
  }

  /** Pairwise equivalent arrays have the same canonical bag. */
  lemma PointwiseBag(s: seq<Value>, u: seq<Value>)
    requires |s| == |u|
    requires forall i :: 0 <= i < |s| ==> CanonOf(s[i]) == CanonOf(u[i])
    ensures Bag(s) == Bag(u)
  {
    assert CanonAll(s) == CanonAll(u);
  }

  /** Equivalence and canonical equality agree on every pair the greedy
      matcher can compare, a candidate `y` of `t` against an element `x` of
      `s`. */
  ghost predicate AgreeOnPairs(s: seq<Value>, t: seq<Value>)
  {
    forall x, y :: x in s && y in t ==> (Equivalent(y, x) <==> CanonOf(y) == CanonOf(x))
  }

  lemma AgreeOnRest(s: seq<Value>, t: seq<Value>, j: nat)
    requires s != [] && j < |t| && AgreeOnPairs(s, t)
    ensures AgreeOnPairs(s[1..], RemoveAt(t, j))
  {
    var t' := RemoveAt(t, j);
    forall x, y | x in s[1..] && y in t'
      ensures Equivalent(y, x) <==> CanonOf(y) == CanonOf(x)
    {
      assert x in s;
      var k :| 0 <= k < |t'| && t'[k] == y;
      assert y in t by {
        if k < j { assert t[k] == y; } else { assert t[k + 1] == y; }
      }
    }
  }

  /** An element with no equivalent partner makes the bags differ. */
  lemma UnmatchedElementBags(s: seq<Value>, t: seq<Value>)
    requires s != [] && AgreeOnPairs(s, t)
    requires forall k :: 0 <= k < |t| ==> !Equivalent(t[k], s[0])
    ensures Bag(s) != Bag(t)
  {
    BagCons(s);
    forall k | 0 <= k < |t| ensures CanonOf(t[k]) != CanonOf(s[0]) {
      assert t[k] in t && s[0] in s;
    }
    BagNonMember(t, CanonOf(s[0]));
  }

  /** Removing one element of the same canonical form from both sides keeps
      the bags equal or different. */
  lemma MatchedElementBags(s: seq<Value>, t: seq<Value>, j: nat)
    requires s != [] && j < |t| && CanonOf(t[j]) == CanonOf(s[0])
    ensures Bag(s) == Bag(t) <==> Bag(s[1..]) == Bag(RemoveAt(t, j))
  {
    BagCons(s);
    BagRemoveAt(t, j);
    var c := CanonOf(s[0]);
    assert Bag(s[1..]) == Bag(s) - multiset{c};
    assert Bag(RemoveAt(t, j)) == Bag(t) - multiset{c};
  }

  /** The greedy matcher accepts two arrays exactly when their canonical
      bags agree, provided equivalence and canonical equality already agree
      on every pair of elements it can compare. */
  lemma {:induction false} ArraysEquivalentIffSameBag(s: seq<Value>, t: seq<Value>)
    requires AgreeOnPairs(s, t)
    ensures ArraysEquivalent(s, t) <==> Bag(s) == Bag(t)
    decreases |s|
  {
    if s == [] {
      assert |Bag(t)| == |t|;
    } else {
      var j := FirstMatch(t, s[0]);
      FirstMatchIsFirst(t, s[0]);
      if j == |t| {
        UnmatchedElementBags(s, t);
      } else {
        assert t[j] in t && s[0] in s;
        AgreeOnRest(s, t, j);
        ArraysEquivalentIffSameBag(s[1..], RemoveAt(t, j));
        MatchedElementBags(s, t, j);
      }
    }
  }

  /** Equivalent objects are those whose canonical field maps agree,
      provided equivalence and canonical equality agree on the values stored
      under each shared key. */
  lemma MapsEquivalentIffSameFields(a: map<string, Value>, b: map<string, Value>)
    requires forall k :: k in a && k in b ==> (Equivalent(a[k], b[k]) <==> CanonOf(a[k]) == CanonOf(b[k]))
    ensures MapsEquivalent(a, b) <==> CanonOf(Obj(a)) == CanonOf(Obj(b))
  {
    if MapsEquivalent(a, b) {
      MapsEquivalentIffSameKeys(a, b);
      EquivalentFieldsSameCanon(a, b);
    }
    if CanonOf(Obj(a)) == CanonOf(Obj(b)) {
      SameCanonFieldsEquivalent(a, b);
    }
  }

  lemma EquivalentFieldsSameCanon(a: map<string, Value>, b: map<string, Value>)
    requires forall k :: k in a && k in b ==> (Equivalent(a[k], b[k]) <==> CanonOf(a[k]) == CanonOf(b[k]))
    requires a.Keys == b.Keys && forall k :: k in a ==> Equivalent(a[k], b[k])
    ensures CanonOf(Obj(a)) == CanonOf(Obj(b))
  {
    var ca := map k | k in a :: CanonOf(a[k]);
    var cb := map k | k in b :: CanonOf(b[k]);
    assert ca.Keys == cb.Keys;
    forall k | k in ca ensures ca[k] == cb[k] {
      assert Equivalent(a[k], b[k]);
    }
    assert ca == cb;
  }

  lemma SameCanonFieldsEquivalent(a: map<string, Value>, b: map<string, Value>)
    requires forall k :: k in a && k in b ==> (Equivalent(a[k], b[k]) <==> CanonOf(a[k]) == CanonOf(b[k]))
    requires CanonOf(Obj(a)) == CanonOf(Obj(b))
    ensures MapsEquivalent(a, b)
  {
    var ca := map k | k in a :: CanonOf(a[k]);
    var cb := map k | k in b :: CanonOf(b[k]);
    assert ca == cb;
    assert a.Keys == ca.Keys == cb.Keys == b.Keys;
    forall k | k in a ensures Equivalent(a[k], b[k]) {
      assert ca[k] == cb[k];
    }
    MapsEquivalentIffSameKeys(a, b);
  }

  /** The main theorem: the comparator's equivalence is equality of
      canonical forms. */
  lemma {:induction false} EquivalentIffSameCanon(a: Value, b: Value)
    ensures Equivalent(a, b) <==> CanonOf(a) == CanonOf(b)
    decreases Size(a) + Size(b)
  {
    match a
    case Arr(s) =>
      if b.Arr? {
        var t := b.elems;
        forall x, y | x in s && y in t
          ensures Equivalent(y, x) <==> CanonOf(y) == CanonOf(x)
        {
          SeqSizeMember(s, x);
          SeqSizeMember(t, y);
          EquivalentIffSameCanon(y, x);
        }
        ArraysEquivalentIffSameBag(s, t);
      }
    case Obj(m) =>
      if b.Obj? {
        var n := b.fields;
        MapSizeElems(m);
        MapSizeElems(n);
        forall k | k in m && k in n
          ensures Equivalent(m[k], n[k]) <==> CanonOf(m[k]) == CanonOf(n[k])
        {
          EquivalentIffSameCanon(m[k], n[k]);
        }
        MapsEquivalentIffSameFields(m, n);
      }
    case _ =>
  }

  /** Every value is equivalent to itself, nested arrays and objects
      included. */
  lemma EquivalentReflexive(a: Value)
    ensures Equivalent(a, a)
  {
    EquivalentIffSameCanon(a, a);
  }

  lemma EquivalentSymmetric(a: Value, b: Value)
    ensures Equivalent(a, b) <==> Equivalent(b, a)
  {
    EquivalentIffSameCanon(a, b);
    EquivalentIffSameCanon(b, a);
  }

  lemma EquivalentTransitive(a: Value, b: Value, c: Value)
    requires Equivalent(a, b) && Equivalent(b, c)
    ensures Equivalent(a, c)
  {
    EquivalentIffSameCanon(a, b);
    EquivalentIffSameCanon(b, c);
    EquivalentIffSameCanon(a, c);
  }

  /** Two arrays are equivalent exactly when they hold the same elements up
      to equivalence, with the same multiplicities. */
  lemma ArraysEquivalentIffSameMultiset(s: seq<Value>, t: seq<Value>)
    ensures ArraysEquivalent(s, t) <==> Bag(s) == Bag(t)
  {
    forall x, y | x in s && y in t
      ensures Equivalent(y, x) <==> CanonOf(y) == CanonOf(x)
    {
      EquivalentIffSameCanon(y, x);
    }
    ArraysEquivalentIffSameBag(s, t);
  }

  /** A perfect matching between `s` and `t`: `s[0]` is paired with some
      equivalent element of `t`, not necessarily the first, and the rest is
      matched recursively. */
  ghost predicate Matchable(s: seq<Value>, t: seq<Value>)
    decreases |s|
  {
    if s == [] then t == []
    else exists j :: 0 <= j < |t| && Equivalent(t[j], s[0]) && Matchable(s[1..], RemoveAt(t, j))
  }

  lemma {:induction false} MatchableSameBag(s: seq<Value>, t: seq<Value>)
    requires Matchable(s, t)
    ensures Bag(s) == Bag(t)
    decreases |s|
  {
    if s == [] {
      assert t == [];
    } else {
      var j :| 0 <= j < |t| && Equivalent(t[j], s[0]) && Matchable(s[1..], RemoveAt(t, j));
      MatchableSameBag(s[1..], RemoveAt(t, j));
      EquivalentIffSameCanon(t[j], s[0]);
      BagCons(s);
      BagRemoveAt(t, j);
    }
  }

  /** Greedy matching is complete: it succeeds exactly when some perfect
      matching exists, so claiming the first equivalent element never
      spoils a match that a different choice would have found. */
  lemma ArraysEquivalentIffMatchable(s: seq<Value>, t: seq<Value>)
    ensures ArraysEquivalent(s, t) <==> Matchable(s, t)
  {
    if Matchable(s, t) {
      MatchableSameBag(s, t);
      ArraysEquivalentIffSameMultiset(s, t);
    }
    if ArraysEquivalent(s, t) {
      GreedyIsMatching(s, t);
    }
  }

  lemma {:induction false} GreedyIsMatching(s: seq<Value>, t: seq<Value>)
    requires ArraysEquivalent(s, t)
    ensures Matchable(s, t)
    decreases |s|
  {
    if s != [] {
      var j := FirstMatch(t, s[0]);
      FirstMatchIsFirst(t, s[0]);
      GreedyIsMatching(s[1..], RemoveAt(t, j));
    }
  }

  /** `w` is `v` with the elements of its arrays rearranged, at any depth:
      each array of `w` is a permutation of one whose elements are
      rearrangements of the corresponding elements in `v`. */
  ghost predicate Reordered(v: Value, w: Value)
    decreases v
  {
    match v
    case Arr(s) =>
      w.Arr? &&
      exists u: seq<Value> ::
        && multiset(u) == multiset(w.elems)
        && |u| == |s|
        && forall i :: 0 <= i < |s| ==> Reordered(s[i], u[i])
    case Obj(m) =>
      w.Obj? && w.fields.Keys == m.Keys && forall k :: k in m ==> Reordered(m[k], w.fields[k])
    case _ => v == w
  }

  lemma {:induction false} ReorderedSameCanon(v: Value, w: Value)
    requires Reordered(v, w)
    ensures CanonOf(v) == CanonOf(w)
    decreases v
  {
    match v
    case Arr(s) =>
      var u: seq<Value> :|
        && multiset(u) == multiset(w.elems)
        && |u| == |s|
        && forall i :: 0 <= i < |s| ==> Reordered(s[i], u[i]);
      forall i | 0 <= i < |s| ensures CanonOf(s[i]) == CanonOf(u[i]) {
        ReorderedSameCanon(s[i], u[i]);
      }
      PointwiseBag(s, u);
      BagOfPermutation(u, w.elems);
    case Obj(m) =>
      forall k | k in m ensures CanonOf(m[k]) == CanonOf(w.fields[k]) {
        ReorderedSameCanon(m[k], w.fields[k]);
      }
      assert (map k | k in m :: CanonOf(m[k])) == (map k | k in w.fields :: CanonOf(w.fields[k]));
    case _ =>
  }

  /** Array order never matters: rearranging the elements of arrays at any
      depth, on either side, leaves every comparison result unchanged. */
  lemma ReorderingPreservesEquivalence(v: Value, w: Value, x: Value)
    requires Reordered(v, w)
    ensures Equivalent(v, w)
    ensures Equivalent(v, x) <==> Equivalent(w, x)
    ensures Equivalent(x, v) <==> Equivalent(x, w)
  {
    ReorderedSameCanon(v, w);
    EquivalentIffSameCanon(v, w);
    EquivalentIffSameCanon(v, x);
    EquivalentIffSameCanon(w, x);
    EquivalentIffSameCanon(x, v);
    EquivalentIffSameCanon(x, w);
  }

  /** The special case of a single top-level array: a permutation of its
      elements compares exactly like the original. */
  lemma PermutedArrayCompares(s: seq<Value>, u: seq<Value>, x: Value)
    requires multiset(s) == multiset(u)
    ensures Equivalent(Arr(s), Arr(u))
    ensures Equivalent(Arr(s), x) <==> Equivalent(Arr(u), x)
    ensures Equivalent(x, Arr(s)) <==> Equivalent(x, Arr(u))
  {
    BagOfPermutation(s, u);
    CanonOfArr(s);
    CanonOfArr(u);
    EquivalentIffSameCanon(Arr(s), Arr(u));
    EquivalentIffSameCanon(Arr(s), x);
    EquivalentIffSameCanon(Arr(u), x);
    EquivalentIffSameCanon(x, Arr(s));
    EquivalentIffSameCanon(x, Arr(u));
  }
}
