# jsoneq in Dafny

A model of `jsoneq`, a Go test assertion that checks two JSON documents for
structural equivalence. Arrays are compared as multisets: element order is
ignored, but multiplicity counts. Objects are compared as key→value maps, and
key order plays no part. The model covers the recursive comparator
`compareJSONThings`, the object matcher `compareJSONMaps` and the greedy
array matcher `compareJSONArrays`. It also covers the decode → compare →
report control flow of the entry point `JSONEq`, with decoding passed in as a
parameter.

Files:

- `json_value.dfy` (module `JsonValue`): the six kinds of decoded value
  (`Null`, `Bool`, `Num`, `Str`, `Arr`, `Obj`). Also a node-count measure. The
  comparator recurses on `(bList[j], aList[i])` and so swaps the roles of its
  arguments at every array level, which is why termination is argued on the
  sum of both sizes.
- `equivalence.dfy` (module `Equivalence`): the equivalence as functions that
  follow the Go code case by case. In the greedy matcher, each element of the
  first array claims the first still-available element of the second array
  that is equivalent to it. Here a claimed element is removed; the Go code
  marks it visited instead.
- `canonical.dfy` (module `Canonical`): an independent reference definition.
  It maps every value to a canonical form, where an array becomes the
  multiset of its elements' canonical forms. The main theorem is that two
  values are equivalent exactly when their canonical forms are equal.
  Reflexivity, symmetry and transitivity follow from it. So do completeness
  of the greedy matcher (it succeeds exactly when a perfect matching exists)
  and independence of array order at any depth.
- `compare.dfy` (module `Compare`): the three routines as methods. The array
  routine keeps a `visited` buffer, nested loops with `continue`/`break`, and
  the `extraA`/`extraB` leftovers. Its final pass over `bList`, which
  collects `extraB`, is the separate method `Leftovers`, and its inner scan
  for one element is the method `ClaimFirst`. The `extraA` list is kept as
  in the code; only its length matters to the result, and the loop
  invariant states that length. Each routine is proved to return exactly the
  equivalence of `Equivalence`.
- `facade.dfy` (module `Facade`): the entry point. It is modelled as written
  (`JSONEqAsWritten`), corrected (`JSONEqIntended`), and as an executable
  method of the corrected version. Failure reports are values
  instead of `Errorf` calls.
- `scenarios.dfy` (module `Scenarios`): the repository's test scenarios, stated
  on decoded values.

Numbers are compared only with `==`, so they are modelled as `real`. JSON
decoding never produces NaN, so reflexivity holds. Strings are `seq<char>`.

Decoding is modelled as what `json.Unmarshal` leaves behind: the value in
the target variable and whether an error was returned. An undecodable
`expected` makes the function report it and return `false` at once
(jsoneq.go:22-25). An undecodable `actual` is reported, but the function
goes on and compares `expected` against whatever the decoder left in the
target (jsoneq.go:26-31). After a syntax error that is `nil`, because the
library checks the whole text before it writes anything. After an error
found while storing values, such as a number outside the range of
`float64`, it is the partial tree. Either way a call can pass while
reporting an error. See Findings.

## Model

| member | source | states |
|---|---|---|
| `Compare.CompareThings` | jsoneq.go:46-74 | returns exactly `Equivalent(a, b)`: dispatch on the kind of `a`, where `null` equals only `null`, scalars compare with `==` against the same kind, and a different kind is unequal rather than an error |
| `Compare.CompareMaps` | jsoneq.go:76-97 | returns exactly `MapsEquivalent(a, b)`: false on a size mismatch, on a key of `a` missing from `b` or holding an inequivalent value, or on a key of `b` missing from `a`; keys are taken in an arbitrary order |
| `Compare.CompareArrays` | jsoneq.go:99-135 | returns exactly the greedy match `ArraysEquivalent(aList, bList)`, and true only if both arrays have the same length; its loop keeps the number of visited indices equal to the number of matched `a` elements, and every visited element equivalent to an `a` element already processed |
| `Compare.ClaimFirst` | jsoneq.go:109-118 | the scan marks the first unvisited element equivalent to `element` and reports it found; when there is none, nothing changes and no unvisited element matches |
| `Compare.OuterStep` | jsoneq.go:106-121 | one round of the outer loop: a claim moves the greedy match on to the next element with the claimed one gone and one more mark; no claim means the match fails; every mark stays owned by an equivalent element of `aList` already processed |
| `Compare.Leftovers` | jsoneq.go:124-129 | the `extraB` pass collects exactly the unvisited elements of `bList`, in order |
| `Compare.MarkOne` | jsoneq.go:113-114 | setting the mark of an unvisited element takes exactly that element out of the unvisited ones and adds one to the count of marks |
| `Compare.ClaimIsRemoval` | jsoneq.go:109-117 | marking the first unvisited equivalent `b[j]` visited is the same as removing the first equivalent element from the unvisited ones, and it sets exactly one more mark |
| `Compare.UnvisitedCount` | jsoneq.go:124-129 | each index of `bList` is either visited or collected into `extraB`, so the two counts add up to `len(bList)` |
| `Compare.NoUnvisitedMatch` | jsoneq.go:109-121 | when the scan claims nothing, no unvisited element is equivalent, so the greedy match fails |
| `Equivalence.FirstMatchIsFirst` | jsoneq.go:109-118 | the claimed index is the first element equivalent to the current `a` element, and none before it is |
| `Equivalence.ArraysEquivalentSameLength` | jsoneq.go:119-134 | a successful greedy match implies `len(aList) == len(bList)` |
| `Equivalence.CrossKindNeverEquivalent` | jsoneq.go:47-73 | values of different kinds are never equivalent, in either order |
| `Equivalence.ScalarEquivalence` | jsoneq.go:48-61 | for `null`, booleans, numbers and strings, equivalence is equality of kind and value |
| `Equivalence.MapsEquivalentIffSameKeys` | jsoneq.go:76-97 | objects are equivalent iff they have the same key set and equivalent values under every key |
| `Equivalence.MapsOfDifferentSizes` | jsoneq.go:77-79 | objects with different numbers of keys are never equivalent |
| `Canonical.EquivalentIffSameCanon` | jsoneq.go:46-135 | two values are equivalent iff their canonical forms are equal, where arrays become multisets and objects become maps |
| `Canonical.MapsEquivalentIffSameFields` | jsoneq.go:81-96 | the object case of the main theorem: objects match iff their canonical field maps are equal |
| `Canonical.ArraysEquivalentIffSameMultiset` | jsoneq.go:99-135 | the greedy matcher accepts iff both arrays hold the same elements, up to equivalence, with the same multiplicities |
| `Canonical.ArraysEquivalentIffMatchable` | jsoneq.go:104-134 | the greedy matcher succeeds iff some perfect matching exists, so claiming the first equivalent element never loses a match |
| `Canonical.EquivalentReflexive` | jsoneq_test.go:13-21 | every value, nested arrays and objects included, is equivalent to itself |
| `Canonical.EquivalentSymmetric` | jsoneq.go:113 | the argument order of a comparison does not matter |
| `Canonical.EquivalentTransitive` | jsoneq.go:13-15 | equivalence is transitive |
| `Canonical.ReorderingPreservesEquivalence` | jsoneq.go:13-15 | rearranging array elements at any depth yields an equivalent value and changes no comparison against any third value |
| `Canonical.PermutedArrayCompares` | jsoneq_test.go:111-119 | a permutation of a top-level array is equivalent to it and compares the same against anything |
| `Canonical.BagOfPermutation` | jsoneq.go:99-135 | arrays holding the same elements in any order have the same multiset of canonical forms |
| `Facade.JSONEqAsWritten` | jsoneq.go:16-37 | the entry point as written: a failure to decode `expected` fails with that one report; otherwise the verdict is the equivalence of the two decoded targets, whether or not `actual` failed to decode; a failure on `actual` is reported first, followed by the not-equivalent report when the comparison also fails |
| `Facade.AsWrittenPassesWithReport` | jsoneq.go:26-31 | the written entry point passes while reporting an error exactly when `expected` decodes, `actual` fails to decode, and `expected` is equivalent to what the failed decoding left in the target |
| `Facade.SyntaxErrorComparesAgainstNull` | jsoneq.go:26-31 | when `actual` has a syntax error, the written entry point passes exactly when `expected` decodes to `null` |
| `Facade.PartialTreeAgainstRangeError` | jsoneq.go:26-31 | `JSONEq(t, "[null]", "[1e400]")` returns true after reporting the actual text, because the decoder leaves `[nil]` behind for the out-of-range number |
| `Facade.NullAgainstInvalidActual` | jsoneq.go:26-31 | `JSONEq(t, "null", "Not JSON")` returns true after reporting that the actual text is not valid JSON |
| `Facade.JSONEqIntended` | jsoneq.go:16-37 | the corrected entry point: it passes iff both texts decode without error to equivalent values, it passes iff it reports nothing, and it reports at most once |
| `Facade.AsWrittenAgreesElsewhere` | jsoneq.go:22-36 | the written and the corrected entry point return different verdicts exactly when `expected` decodes, `actual` fails to decode, and `expected` is equivalent to what the failed decoding left in the target |
| `Facade.JSONEqAsWrittenReflexive` | jsoneq_test.go:13-21 | as written, any text that decodes without error passes against itself, with no report |
| `Facade.JSONEqIntendedReflexive` | jsoneq_test.go:13-21 | the corrected entry point, too, passes any text that decodes without error against itself, with no report |
| `Facade.JSONEqIntendedSymmetric` | jsoneq.go:30 | swapping the two texts never changes the corrected verdict |
| `Facade.AssertJSONEq` | jsoneq.go:20-36 | the executable entry point returns exactly the outcome of `JSONEqIntended`, using `CompareThings` for the comparison |
| `Scenarios.MixedArrayReordered` | jsoneq_test.go:9-11 | `["a", "b", 1, 2]` is equivalent to `[2, "b", 1, "a"]` |
| `Scenarios.ArrayOfStringAndObjectReordered` | jsoneq_test.go:111-119 | a string and an object match in either order, with the object's keys in either order |
| `Scenarios.NestedDocumentEqualsItself` | jsoneq_test.go:33-49 | the nested document of the test is equivalent to itself |
| `Scenarios.ExtraKeyNotEquivalent` | jsoneq_test.go:71-79 | `{"foo": "bar"}` is not equivalent to `{"foo": "bar", "hello": "world"}` |
| `Scenarios.MultiplicityMatters` | jsoneq.go:99-135 | `[x, x, y]` is not equivalent to `[x, y, y]` whenever `x` and `y` are not equivalent, as with `[1, 1, 2]` and `[1, 2, 2]` |

## Findings

| source | as written | input that shows it | evidently intended | confidence | as-written member | corrected member |
|---|---|---|---|---|---|---|
| jsoneq.go:26-31 | a failure to decode `actual` is reported, but the function does not return; it compares `expected` against what the decoder left in the target (`nil` after a syntax error, the partial tree after a range error) | `JSONEq(t, "null", "Not JSON")` and `JSONEq(t, "[null]", "[1e400]")` both return `true` (the test still fails through `Errorf`) | return `false` after reporting an undecodable `actual`, as it does for `expected` (jsoneq.go:24) and as jsoneq_test.go:81-89 expects | high; derived from the code, not executed | `Facade.NullAgainstInvalidActual`, `Facade.PartialTreeAgainstRangeError` | `Facade.JSONEqIntended` |

## Left out

- JSON text decoding (`encoding/json.Unmarshal`, jsoneq.go:22 and jsoneq.go:26) is a foreign library. It is a parameter `decode: string -> Unmarshalled`, which gives the final value of the target and whether an error was returned. Which texts fail, and what partial tree each leaves behind, is up to that parameter; the lemmas about particular inputs state it as their precondition.
- The decode error text (`err.Error()`) and the optional message arguments with their formatting by `messageFromMsgAndArgs` (jsoneq.go:138-153) are dropped; reports carry only the quoted input texts. This loses a panic: with two or more message arguments and a first one that is not a string, the type assertion at jsoneq.go:150 panics on every reporting path (jsoneq.go:23, jsoneq.go:27, jsoneq.go:35), so, for example, `JSONEq(t, "null", "Not JSON", 1, 2)` panics at jsoneq.go:27 before any comparison, where `Facade.JSONEqAsWritten` passes with one report.
- Facade.JSONEqAsWritten: takes no message arguments, so it does not capture the panic at jsoneq.go:150 described in the previous line; its verdict and reports are those of a call with at most one message argument, or with a string first argument.
- `TestingT.Errorf` and the `Helper()` call (jsoneq.go:9-11, jsoneq.go:17-19) belong to the test framework. Each `Errorf` call is recorded as a `Report` value in the outcome.
- The `default: panic` branch (jsoneq.go:70-71) is unreachable, because `Value` is a closed datatype.
- `float64` semantics: numbers go only through `==`, so an exact `real` stands in for them, and distinct decimal texts that round to the same double are a matter for the decoder.
- Go's randomised map iteration order is modelled as an arbitrary choice of the next key.
