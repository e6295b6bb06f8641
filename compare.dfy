/** The three comparison routines as they run: a dispatch on the kind of
    the first value, an early-exit walk over both objects' keys, and the
    greedy array matcher that marks claimed elements of the second array in
    a `visited` buffer. Each is proved to return exactly the equivalence of
    module Equivalence. */
module Compare {
  import opened JsonValue
  import opened Equivalence

  /** The elements of `b` whose `visited` mark is not set, in order. */
  ghost function Unvisited<T>(b: seq<T>, visited: seq<bool>): seq<T>
    requires |visited| == |b|
    decreases |b|
  {
    if b == [] then []
    else
      var n := |b| - 1;
      Unvisited(b[..n], visited[..n]) + (if visited[n] then [] else [b[n]])
  }

  /** Number of set marks. */
  ghost function Marked(visited: seq<bool>): nat
    decreases |visited|
  {
    if visited == [] then 0
    else
      var n := |visited| - 1;
      Marked(visited[..n]) + (if visited[n] then 1 else 0)
  }

  lemma {:induction false} UnvisitedAppend<T>(b: seq<T>, v: seq<bool>, c: seq<T>, w: seq<bool>)
    requires |v| == |b| && |w| == |c|
    ensures Unvisited(b + c, v + w) == Unvisited(b, v) + Unvisited(c, w)
    decreases |c|
  {
    if c == [] {
      assert b + c == b && v + w == v;
    } else {
      var n := |c| - 1;
      var bc, vw := b + c, v + w;
      var last := if w[n] then [] else [c[n]];
      assert bc[..|b| + n] == b + c[..n];
      assert vw[..|v| + n] == v + w[..n];
      assert bc[|b| + n] == c[n] && vw[|v| + n] == w[n];
      assert Unvisited(bc, vw) == Unvisited(b + c[..n], v + w[..n]) + last;
      assert Unvisited(c, w) == Unvisited(c[..n], w[..n]) + last;
      UnvisitedAppend(b, v, c[..n], w[..n]);
    }
  }

  lemma {:induction false} MarkedAppend(v: seq<bool>, w: seq<bool>)
    ensures Marked(v + w) == Marked(v) + Marked(w)
    decreases |w|
  {
    if w == [] {
      assert v + w == v;
    } else {
      var n := |w| - 1;
      var vw := v + w;
      assert vw[..|v| + n] == v + w[..n];
      assert vw[|v| + n] == w[n];
      MarkedAppend(v, w[..n]);
    }
  }

  /** Every element of `b` is either visited or still unvisited. */
  lemma {:induction false} UnvisitedCount<T>(b: seq<T>, v: seq<bool>)
    requires |v| == |b|
    ensures |Unvisited(b, v)| + Marked(v) == |b|
    decreases |b|
  {
    if b != [] {
      UnvisitedCount(b[..|b| - 1], v[..|b| - 1]);
    }
  }

  /** With no marks set, every element is unvisited. */
  lemma {:induction false} NothingVisited<T>(b: seq<T>, v: seq<bool>)
    requires |v| == |b| && forall k :: 0 <= k < |v| ==> !v[k]
    ensures Unvisited(b, v) == b
    decreases |b|
  {
    if b != [] {
      var n := |b| - 1;
      NothingVisited(b[..n], v[..n]);
      assert b == b[..n] + [b[n]];
    }
  }

  /** No unvisited element among the first `j` of `b` is equivalent to `e`:
      what the scan has established when it reaches index `j`. */
  ghost predicate Missed(b: seq<Value>, v: seq<bool>, j: nat, e: Value)
    requires |v| == |b| && j <= |b|
  {
    forall k :: 0 <= k < j && !v[k] ==> !Equivalent(b[k], e)
  }

  /** The scan moves past a visited or non-matching element. */
  lemma MissedStep(b: seq<Value>, v: seq<bool>, j: nat, e: Value)
    requires |v| == |b| && j < |b| && Missed(b, v, j, e)
    requires v[j] || !Equivalent(b[j], e)
    ensures Missed(b, v, j + 1, e)
  {
  }

  /** Every marked element of `b` is equivalent to one of the first `i`
      elements of `a`: a mark is only ever set for a match. */
  ghost predicate ClaimedBy(b: seq<Value>, v: seq<bool>, a: seq<Value>, i: nat)
    requires |v| == |b| && i <= |a|
  {
    forall k :: 0 <= k < |b| && v[k] ==> exists i' :: 0 <= i' < i && Equivalent(b[k], a[i'])
  }

  /** Moving on to the next element of `a`, with or without a new mark for
      an element equivalent to it. */
  lemma ClaimedByStep(b: seq<Value>, v: seq<bool>, a: seq<Value>, i: nat, j: nat)
    requires |v| == |b| && i < |a| && ClaimedBy(b, v, a, i)
    requires j < |b| ==> Equivalent(b[j], a[i])
    ensures ClaimedBy(b, if j < |b| then v[j := true] else v, a, i + 1)
  {
    var w := if j < |b| then v[j := true] else v;
    forall k | 0 <= k < |b| && w[k]
      ensures exists i' :: 0 <= i' < i + 1 && Equivalent(b[k], a[i'])
    {
      if j < |b| && k == j {
        assert Equivalent(b[k], a[i]);
      } else {
        assert v[k];
        var i' :| 0 <= i' < i && Equivalent(b[k], a[i']);
        assert Equivalent(b[k], a[i']);
      }
    }
  }

  /** The scan skips elements that are visited or do not match, so when it
      finds none the greedy matcher's search of the unvisited elements finds
      none either. */
  lemma {:induction false} NoUnvisitedMatch(b: seq<Value>, v: seq<bool>, e: Value)
    requires |v| == |b|
    requires Missed(b, v, |b|, e)
    ensures FirstMatch(Unvisited(b, v), e) == |Unvisited(b, v)|
    decreases |b|
  {
    if b != [] {
      var n := |b| - 1;
      NoUnvisitedMatch(b[..n], v[..n], e);
      FirstMatchAppend(Unvisited(b[..n], v[..n]), if v[n] then [] else [b[n]], e);
    }
  }

  /** Extending the scanned prefix by one element. */
  lemma UnvisitedPrefix<T>(b: seq<T>, v: seq<bool>, j: nat)
    requires |v| == |b| && j < |b|
    ensures Unvisited(b[..j + 1], v[..j + 1]) == Unvisited(b[..j], v[..j]) + (if v[j] then [] else [b[j]])
  {
    assert b[..j + 1][..j] == b[..j] && v[..j + 1][..j] == v[..j];
  }

  /** Unvisited elements and marks split around index `j`. */
  lemma UnvisitedSplit<T>(b: seq<T>, v: seq<bool>, j: nat)
    requires |v| == |b| && j < |b|
    ensures Unvisited(b, v) ==
      Unvisited(b[..j], v[..j]) + (if v[j] then [] else [b[j]]) + Unvisited(b[j + 1..], v[j + 1..])
  {
    var b0, v0 := b[..j] + [b[j]], v[..j] + [v[j]];
    assert b == b0 + b[j + 1..];
    assert v == v0 + v[j + 1..];
    assert b0[..j] == b[..j] && v0[..j] == v[..j];
    UnvisitedAppend(b0, v0, b[j + 1..], v[j + 1..]);
  }

  lemma MarkedSplit(v: seq<bool>, j: nat)
    requires j < |v|
    ensures Marked(v) == Marked(v[..j]) + (if v[j] then 1 else 0) + Marked(v[j + 1..])
  {
    var v0 := v[..j] + [v[j]];
    assert v == v0 + v[j + 1..];
    assert v0[..j] == v[..j];
    MarkedAppend(v0, v[j + 1..]);
  }

  /** Setting the mark of an unvisited `b[j]` takes exactly that element out
      of the unvisited ones and adds one to the count of marks. */
  lemma MarkOne(b: seq<Value>, v: seq<bool>, j: nat)
    requires |v| == |b| && j < |b| && !v[j]
    ensures Unvisited(b, v) == Unvisited(b[..j], v[..j]) + ([b[j]] + Unvisited(b[j + 1..], v[j + 1..]))
    ensures Unvisited(b, v[j := true]) == Unvisited(b[..j], v[..j]) + Unvisited(b[j + 1..], v[j + 1..])
    ensures Marked(v[j := true]) == Marked(v) + 1
  {
    var w := v[j := true];
    assert w[..j] == v[..j] && w[j + 1..] == v[j + 1..];
    UnvisitedSplit(b, v, j);
    UnvisitedSplit(b, w, j);
    MarkedSplit(v, j);
    MarkedSplit(w, j);
  }

  /** Marking the element the scan stops at is the same as removing the
      first match from the unvisited elements, and sets one more mark. */
  lemma ClaimIsRemoval(b: seq<Value>, v: seq<bool>, j: nat, e: Value)
    requires |v| == |b| && j < |b| && !v[j] && Equivalent(b[j], e)
    requires Missed(b, v, j, e)
    ensures FirstMatch(Unvisited(b, v), e) < |Unvisited(b, v)|
    ensures RemoveAt(Unvisited(b, v), FirstMatch(Unvisited(b, v), e)) == Unvisited(b, v[j := true])
    ensures Marked(v[j := true]) == Marked(v) + 1
  {
    MarkOne(b, v, j);
    NoUnvisitedMatch(b[..j], v[..j], e);
    MatchAfterMisses(Unvisited(b[..j], v[..j]), b[j], Unvisited(b[j + 1..], v[j + 1..]), e);
  }

  /** When nothing in `before` matches and `x` does, the greedy search stops
      at `x`, and removing it leaves `before + after`. */
  lemma MatchAfterMisses(before: seq<Value>, x: Value, after: seq<Value>, e: Value)
    requires FirstMatch(before, e) == |before| && Equivalent(x, e)
    ensures FirstMatch(before + ([x] + after), e) == |before|
    ensures RemoveAt(before + ([x] + after), |before|) == before + after
  {
    var rest := [x] + after;
    assert FirstMatch(rest, e) == 0 by {
      assert rest[0] == x;
    }
    FirstMatchAppend(before, rest, e);
    RemoveAtJoin(before, x, after);
  }

  /** Removing the element between two parts joins the parts. */
  lemma RemoveAtJoin<T>(before: seq<T>, x: T, after: seq<T>)
    ensures RemoveAt(before + ([x] + after), |before|) == before + after
  {
    var s := before + ([x] + after);
    assert s[..|before|] == before;
    assert s[|before| + 1..] == after;
  }

  /** One round of the outer loop when the scan claims `b[j]`: the greedy
      matcher's remaining work moves on to the next element with `b[j]`
      gone. */
  lemma ClaimedStep(s: seq<Value>, b: seq<Value>, v: seq<bool>, j: nat)
    requires s != [] && |v| == |b| && j < |b| && !v[j] && Equivalent(b[j], s[0])
    requires Missed(b, v, j, s[0])
    ensures ArraysEquivalent(s, Unvisited(b, v)) == ArraysEquivalent(s[1..], Unvisited(b, v[j := true]))
    ensures Marked(v[j := true]) == Marked(v) + 1
  {
    ClaimIsRemoval(b, v, j, s[0]);
  }

  /** One round of the outer loop when the scan claims nothing: the greedy
      matcher fails. */
  lemma UnclaimedStep(s: seq<Value>, b: seq<Value>, v: seq<bool>)
    requires s != [] && |v| == |b|
    requires Missed(b, v, |b|, s[0])
    ensures !ArraysEquivalent(s, Unvisited(b, v))
  {
    NoUnvisitedMatch(b, v, s[0]);
  }

  /** One round of the outer loop, as the scan leaves it: either it claimed
      `b[claimed]`, the first unvisited match of `a[i]`, or no unvisited
      element matches. */
  lemma OuterStep(a: seq<Value>, i: nat, b: seq<Value>, v: seq<bool>, found: bool, claimed: nat)
    requires i < |a| && |v| == |b| && ClaimedBy(b, v, a, i)
    requires found ==> claimed < |b| && !v[claimed] && Equivalent(b[claimed], a[i])
                       && Missed(b, v, claimed, a[i])
    requires !found ==> Missed(b, v, |b|, a[i])
    ensures var w := if found then v[claimed := true] else v;
      && ArraysEquivalent(a[i..], Unvisited(b, v)) == (found && ArraysEquivalent(a[i + 1..], Unvisited(b, w)))
      && Marked(w) == Marked(v) + (if found then 1 else 0)
      && ClaimedBy(b, w, a, i + 1)
  {
    assert a[i..][1..] == a[i + 1..];
    if found {
      ClaimedStep(a[i..], b, v, claimed);
      ClaimedByStep(b, v, a, i, claimed);
    } else {
      UnclaimedStep(a[i..], b, v);
      ClaimedByStep(b, v, a, i, |b|);
    }
  }

  /** compareJSONThings: dispatch on the kind of `a`; a `b` of another kind
      is unequal, never an error. */
  method CompareThings(a: Value, b: Value) returns (r: bool)
    ensures r == Equivalent(a, b)
    decreases Size(a) + Size(b), 0
  {
    match a {
      case Null =>
        return b == Null;
      case Bool(x) =>
        if b.Bool? { return x == b.b; }
      case Num(x) =>
        if b.Num? { return x == b.n; }
      case Str(x) =>
        if b.Str? { return x == b.s; }
      case Arr(s) =>
        if b.Arr? { r := CompareArrays(s, b.elems); return; }
      case Obj(m) =>
        if b.Obj? { r := CompareMaps(m, b.fields); return; }
    }
    return false;
  }

  /** compareJSONMaps: a size shortcut, then every key of `a` must be in `b`
      with an equivalent value, then every key of `b` must be in `a`. Keys
      are visited in an unspecified order, as Go's map iteration does. */
  method CompareMaps(a: map<string, Value>, b: map<string, Value>) returns (r: bool)
    ensures r == MapsEquivalent(a, b)
    decreases MapSize(a) + MapSize(b), 1
  {
    if |a| != |b| {
      return false;
    }
    MapSizeElems(a);
    MapSizeElems(b);
    var pending := a.Keys;
    while pending != {}
      invariant pending <= a.Keys
      invariant forall key :: key in a && key !in pending ==> key in b && Equivalent(a[key], b[key])
      decreases pending
    {
      var key :| key in pending;
      if key !in b {
        return false;
      }
      var same := CompareThings(a[key], b[key]);
      if !same {
        return false;
      }
      pending := pending - {key};
    }
    pending := b.Keys;
    while pending != {}
      invariant pending <= b.Keys
      invariant forall key :: key in b && key !in pending ==> key in a
      decreases pending
    {
      var key :| key in pending;
      if key !in a {
        return false;
      }
      pending := pending - {key};
    }
    return true;
  }

  /** compareJSONArrays: each element of `aList`, in order, claims the first
      unvisited element of `bList` equivalent to it; the arrays match when
      no element of either is left over. */
  method CompareArrays(aList: seq<Value>, bList: seq<Value>) returns (r: bool)
    ensures r == ArraysEquivalent(aList, bList)
    ensures r ==> |aList| == |bList|
    decreases SeqSize(aList) + SeqSize(bList), 2
  {
    var extraA: seq<Value> := [];
    var extraB: seq<Value>;
    var aLen := |aList|;
    var bLen := |bList|;

    var visited := new bool[bLen](_ => false);
    ghost var marks := visited[..];
    NothingVisited(bList, marks);
    UnvisitedCount(bList, marks);
    for i := 0 to aLen
      invariant marks == visited[..]
      invariant |extraA| + Marked(marks) == i
      invariant ClaimedBy(bList, marks, aList, i)
      invariant ArraysEquivalent(aList, bList) ==
        (extraA == [] && ArraysEquivalent(aList[i..], Unvisited(bList, marks)))
    {
      var element := aList[i];
      SeqSizeElem(aList, i);
      var found;
      ghost var claimed;
      found, claimed := ClaimFirst(bList, visited, element);
      OuterStep(aList, i, bList, marks, found, claimed);
      if found {
        marks := marks[claimed := true];
      } else {
        extraA := extraA + [element];
      }
    }

    extraB := Leftovers(bList, visited);
    UnvisitedCount(bList, marks);
    assert aList[aLen..] == [];
    assert ArraysEquivalent(aList, bList) == (extraA == [] && extraB == []);
    if |extraA| == 0 && |extraB| == 0 {
      return true;
    }
    return false;
  }

  /** The scan of compareJSONArrays for one element of `aList`: the first
      unvisited element of `bList` equivalent to `element` is marked
      visited, and `found` says whether there was one. */
  method ClaimFirst(bList: seq<Value>, visited: array<bool>, element: Value)
    returns (found: bool, ghost claimed: nat)
    requires visited.Length == |bList|
    modifies visited
    ensures found ==> (claimed < |bList| && !old(visited[claimed])
                        && Equivalent(bList[claimed], element)
                        && Missed(bList, old(visited[..]), claimed, element)
                        && visited[..] == old(visited[..])[claimed := true])
    ensures !found ==> Missed(bList, visited[..], |bList|, element) && visited[..] == old(visited[..])
    decreases SeqSize(bList) + Size(element), 1
  {
    ghost var marks := visited[..];
    found := false;
    claimed := 0;
    for j := 0 to |bList|
      invariant visited[..] == marks
      invariant Missed(bList, marks, j, element)
    {
      if visited[j] {
        MissedStep(bList, marks, j, element);
        continue;
      }
      SeqSizeElem(bList, j);
      var same := CompareThings(bList[j], element);
      if same {
        visited[j] := true;
        found := true;
        claimed := j;
        return;
      }
      MissedStep(bList, marks, j, element);
    }
  }

  /** The unvisited elements of `bList`, collected in order: the `extraB`
      pass of compareJSONArrays. */
  method Leftovers(bList: seq<Value>, visited: array<bool>) returns (extraB: seq<Value>)
    requires visited.Length == |bList|
    ensures extraB == Unvisited(bList, visited[..])
  {
    extraB := [];
    ghost var marks := visited[..];
    for j := 0 to |bList|
      invariant extraB == Unvisited(bList[..j], marks[..j])
    {
      UnvisitedPrefix(bList, marks, j);
      if visited[j] {
        continue;
      }
      extraB := extraB + [bList[j]];
    }
    assert bList[..|bList|] == bList && marks[..|bList|] == marks;
  }
}
