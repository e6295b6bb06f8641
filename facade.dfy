/** The assertion entry point: decode both texts, compare, and report a
    failure through the test framework. Decoding is a parameter (the JSON
    library is not part of this model). It yields what `json.Unmarshal`
    leaves behind: the value stored in the target variable, and whether it
    returned an error. A report is recorded as a value instead of a call to
    `Errorf`. */
module Facade {
  import opened JsonValue
  import opened Equivalence
  import opened Canonical
  import Compare

  /** The outcome of decoding one text into an empty-interface variable that
      starts out `nil`. After a syntax error the target is still `nil`
      (`Null`): the library checks the whole text before it writes anything.
      After an error found while storing values, such as a number outside the
      range of `float64`, the target holds the partial tree, with `nil` in
      the slot that failed. */
  datatype Unmarshalled = Unmarshalled(target: Value, failed: bool)

  /** The three failure reports the entry point can emit, with the texts
      they quote. */
  datatype Report =
    | ExpectedNotJson(expected: string)
    | ActualNotJson(actual: string)
    | NotEquivalent(expected: string, actual: string)

  /** What one call returns, together with the reports it made. */
  datatype Outcome = Outcome(passed: bool, reports: seq<Report>)

  /** The entry point as written: a failure to decode `expected` fails at
      once, but a failure to decode `actual` is only reported, and the
      comparison then runs against whatever the decoder left in the target. */
  ghost function JSONEqAsWritten(decode: string -> Unmarshalled, expected: string, actual: string): (o: Outcome)
    ensures decode(expected).failed ==> o == Outcome(false, [ExpectedNotJson(expected)])
    ensures !decode(expected).failed ==>
      (o.passed <==> Equivalent(decode(expected).target, decode(actual).target))
    ensures !decode(expected).failed && decode(actual).failed ==>
      o.reports == [ActualNotJson(actual)] + (if o.passed then [] else [NotEquivalent(expected, actual)])
    ensures !decode(expected).failed && !decode(actual).failed ==> (o.passed <==> o.reports == [])
  {
    var e := decode(expected);
    if e.failed then Outcome(false, [ExpectedNotJson(expected)])
    else
      var a := decode(actual);
      var early := if a.failed then [ActualNotJson(actual)] else [];
      if Equivalent(e.target, a.target) then Outcome(true, early)
      else Outcome(false, early + [NotEquivalent(expected, actual)])
  }

  /** The fall-through lets a call pass while reporting an error: exactly
      when `expected` decodes and is equivalent to what a failed decoding of
      `actual` left in the target. */
  lemma AsWrittenPassesWithReport(decode: string -> Unmarshalled, expected: string, actual: string)
    ensures (JSONEqAsWritten(decode, expected, actual).passed &&
             JSONEqAsWritten(decode, expected, actual).reports != [])
        <==> !decode(expected).failed && decode(actual).failed
             && Equivalent(decode(expected).target, decode(actual).target)
  {
  }

  /** After a syntax error the comparison is against `nil`, so it passes
      exactly when `expected` is `null`. */
  lemma SyntaxErrorComparesAgainstNull(decode: string -> Unmarshalled, expected: string, actual: string)
    requires decode(actual) == Unmarshalled(Null, true)
    ensures JSONEqAsWritten(decode, expected, actual).passed
        <==> decode(expected) == Unmarshalled(Null, false)
  {
    if !decode(expected).failed {
      var e := decode(expected).target;
      assert Equivalent(e, Null) <==> e == Null;
    }
  }

  /** The concrete input: `JSONEq(t, "null", "Not JSON")` returns true after
      reporting that the actual text is not valid JSON. */
  lemma NullAgainstInvalidActual(decode: string -> Unmarshalled)
    requires decode("null") == Unmarshalled(Null, false)
    requires decode("Not JSON") == Unmarshalled(Null, true)
    ensures JSONEqAsWritten(decode, "null", "Not JSON") == Outcome(true, [ActualNotJson("Not JSON")])
  {
    SyntaxErrorComparesAgainstNull(decode, "null", "Not JSON");
  }

  /** A second concrete input: `[1e400]` is well-formed, but its number does
      not fit a `float64`, so the decoder stores `[nil]` and returns an error;
      `JSONEq(t, "[null]", "[1e400]")` then returns true after the report. */
  lemma PartialTreeAgainstRangeError(decode: string -> Unmarshalled)
    requires decode("[null]") == Unmarshalled(Arr([Null]), false)
    requires decode("[1e400]") == Unmarshalled(Arr([Null]), true)
    ensures JSONEqAsWritten(decode, "[null]", "[1e400]") == Outcome(true, [ActualNotJson("[1e400]")])
  {
    EquivalentReflexive(Arr([Null]));
  }

  /** The entry point as intended: any decoding failure fails the call with
      one report, and otherwise the result is the comparison. */
  ghost function JSONEqIntended(decode: string -> Unmarshalled, expected: string, actual: string): (o: Outcome)
    ensures o.passed <==> !decode(expected).failed && !decode(actual).failed
                          && Equivalent(decode(expected).target, decode(actual).target)
    ensures o.passed <==> o.reports == []
    ensures |o.reports| <= 1
  {
    var e := decode(expected);
    if e.failed then Outcome(false, [ExpectedNotJson(expected)])
    else
      var a := decode(actual);
      if a.failed then Outcome(false, [ActualNotJson(actual)])
      else if Equivalent(e.target, a.target) then Outcome(true, [])
      else Outcome(false, [NotEquivalent(expected, actual)])
  }

  /** The intended entry point differs from the written one only in the
      case the fall-through mishandles. */
  lemma AsWrittenAgreesElsewhere(decode: string -> Unmarshalled, expected: string, actual: string)
    ensures JSONEqAsWritten(decode, expected, actual).passed != JSONEqIntended(decode, expected, actual).passed
        <==> !decode(expected).failed && decode(actual).failed
             && Equivalent(decode(expected).target, decode(actual).target)
  {
  }

  /** As written, too, a text that decodes without error passes against
      itself with no report. */
  lemma JSONEqAsWrittenReflexive(decode: string -> Unmarshalled, text: string)
    requires !decode(text).failed
    ensures JSONEqAsWritten(decode, text, text) == Outcome(true, [])
  {
    EquivalentReflexive(decode(text).target);
  }

  /** Every valid JSON text is equivalent to itself. */
  lemma JSONEqIntendedReflexive(decode: string -> Unmarshalled, text: string)
    requires !decode(text).failed
    ensures JSONEqIntended(decode, text, text) == Outcome(true, [])
  {
    EquivalentReflexive(decode(text).target);
  }

  /** Swapping the two texts never changes the verdict. */
  lemma JSONEqIntendedSymmetric(decode: string -> Unmarshalled, expected: string, actual: string)
    ensures JSONEqIntended(decode, expected, actual).passed == JSONEqIntended(decode, actual, expected).passed
  {
    if !decode(expected).failed && !decode(actual).failed {
      EquivalentSymmetric(decode(expected).target, decode(actual).target);
    }
  }

  /** The executable entry point: decode, compare with the comparison
      routine, report. */
  method AssertJSONEq(decode: string -> Unmarshalled, expected: string, actual: string) returns (o: Outcome)
    ensures o == JSONEqIntended(decode, expected, actual)
  {
    var e := decode(expected);
    if e.failed {
      return Outcome(false, [ExpectedNotJson(expected)]);
    }
    var a := decode(actual);
    if a.failed {
      return Outcome(false, [ActualNotJson(actual)]);
    }
    var same := Compare.CompareThings(e.target, a.target);
    if same {
      return Outcome(true, []);
    }
    return Outcome(false, [NotEquivalent(expected, actual)]);
  }
}
