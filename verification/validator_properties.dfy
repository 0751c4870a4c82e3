/** What the validator promises, stated over the recursive definition in module Validator. */
module ValidatorProperties {
  import opened Values
  import opened Validator
  import Decoding

  /** Booleans, enumerations and literals carry no constraint the validator checks. */
  lemma ScalarsAlwaysValid(value: Value, options: Options, variants: seq<string>, literal: Value)
    ensures InternalValidate(BooleanType, value, options) == Succeed
    ensures InternalValidate(EnumType(variants), value, options) == Succeed
    ensures InternalValidate(LiteralType(literal), value, options) == Succeed
  {
  }

  /** Optional and nullable accept their empty value and otherwise defer to the wrapped type;
      a reference always defers. */
  lemma WrappersDelegate(wrapped: Type, value: Value, options: Options)
    ensures InternalValidate(OptionalType(wrapped), value, options)
         == (if value == Undefined then Succeed else InternalValidate(wrapped, value, options))
    ensures InternalValidate(NullableType(wrapped), value, options)
         == (if value == Null then Succeed else InternalValidate(wrapped, value, options))
    ensures InternalValidate(ReferenceType(wrapped), value, options) == InternalValidate(wrapped, value, options)
  {
  }

  /** Every custom validator inside the type reports exactly one error when it fails under
      `stopAtFirstError`. */
  ghost predicate SingleErrorCustoms(t: Type)
  {
    match t
    case OptionalType(wrapped) => SingleErrorCustoms(wrapped)
    case NullableType(wrapped) => SingleErrorCustoms(wrapped)
    case ReferenceType(wrapped) => SingleErrorCustoms(wrapped)
    case ArrayType(element, _) => SingleErrorCustoms(element)
    case ObjectType(fields) => forall i :: 0 <= i < |fields| ==> SingleErrorCustoms(fields[i].1)
    case UnionType(variants) => forall i :: 0 <= i < |variants| ==> SingleErrorCustoms(variants[i].variantType)
    case CustomType(_, validate) =>
      forall v, o :: StopsAtFirst(o) && validate(v, o).Fail? ==> |validate(v, o).errors| == 1
    case _ => true
  }

  /** Under `stopAtFirstError` (the default) a failed validation reports exactly one error. */
  lemma {:induction false} StopAtFirstReportsOneError(t: Type, value: Value, options: Options)
    requires StopsAtFirst(options) && SingleErrorCustoms(t)
    ensures InternalValidate(t, value, options).Fail? ==> |InternalValidate(t, value, options).errors| == 1
    decreases value, t, 1
  {
    match t
    case OptionalType(wrapped) =>
      if value != Undefined { StopAtFirstReportsOneError(wrapped, value, options); }
    case NullableType(wrapped) =>
      if value != Null { StopAtFirstReportsOneError(wrapped, value, options); }
    case ReferenceType(wrapped) =>
      StopAtFirstReportsOneError(wrapped, value, options);
    case ObjectType(fields) =>
      if value.Obj? { FieldsReportOneError(fields, value.entries, options); }
    case ArrayType(element, _) =>
      if value.Arr? { ElementsReportOneError(element, value.items, options); }
    case UnionType(variants) =>
      var k := FirstMatchingVariant(variants, value);
      if k.Some? { StopAtFirstReportsOneError(variants[k.value].variantType, value, options); }
    case _ =>
  }

  lemma FirstFailureOfSingles(results: seq<Result>)
    requires forall i :: 0 <= i < |results| ==> (results[i].Fail? ==> |results[i].errors| == 1)
    ensures FirstFailure(results).Fail? ==> |FirstFailure(results).errors| == 1
  {
  }

  lemma {:induction false} FieldsReportOneError(fields: seq<(string, Type)>, entries: seq<(string, Value)>, options: Options)
    requires StopsAtFirst(options) && SingleErrorCustoms(ObjectType(fields))
    ensures Collect(FieldResults(fields, entries, options), options).Fail? ==>
      |Collect(FieldResults(fields, entries, options), options).errors| == 1
    decreases Obj(entries), ObjectType(fields), 0
  {
    var results := FieldResults(fields, entries, options);
    forall i | 0 <= i < |entries| ensures results[i].Fail? ==> |results[i].errors| == 1 {
      assert results[i] == FieldResult(fields, entries[i].0, entries[i].1, options);
      var k := FieldIndex(fields, entries[i].0);
      if k.Some? {
        StopAtFirstReportsOneError(fields[k.value].1, entries[i].1, options);
      }
    }
    FirstFailureOfSingles(results);
  }

  lemma {:induction false} ElementsReportOneError(element: Type, items: seq<Value>, options: Options)
    requires StopsAtFirst(options) && SingleErrorCustoms(element)
    ensures Collect(ElementResults(element, items, options), options).Fail? ==>
      |Collect(ElementResults(element, items, options), options).errors| == 1
    decreases Arr(items), element, 0
  {
    var results := ElementResults(element, items, options);
    forall i | 0 <= i < |items| ensures results[i].Fail? ==> |results[i].errors| == 1 {
      StopAtFirstReportsOneError(element, items[i], options);
    }
    FirstFailureOfSingles(results);
  }

  /** An array value within its item bounds is valid exactly when every element is, whatever
      the strategy. */
  lemma ArrayValidIffElementsValid(element: Type, arrayOptions: Option<ArrayOptions>, items: seq<Value>, options: Options)
    requires WithinMaxItems(arrayOptions, |items|) && WithinMinItems(arrayOptions, |items|)
    ensures InternalValidate(ArrayType(element, arrayOptions), Arr(items), options).Succeed?
        <==> forall i :: 0 <= i < |items| ==> InternalValidate(element, items[i], options).Succeed?
  {
    var results := ElementResults(element, items, options);
    ArrayValidation(element, arrayOptions, items, options);
    CollectSucceeds(results, options);
    assert forall i :: 0 <= i < |items| ==> (results[i].Succeed? <==> InternalValidate(element, items[i], options).Succeed?);
  }

  /** The accumulation succeeds exactly when every part does, under either strategy. */
  lemma CollectSucceeds(results: seq<Result>, options: Options)
    ensures Collect(results, options).Succeed? <==> forall i :: 0 <= i < |results| ==> results[i].Succeed?
  {
  }

  /** Every error reported for an array value points, by its first path piece `[i]`, at an
      element that failed. */
  lemma ArrayErrorsPointAtElements(element: Type, arrayOptions: Option<ArrayOptions>, items: seq<Value>, options: Options)
    requires WithinMaxItems(arrayOptions, |items|) && WithinMinItems(arrayOptions, |items|)
    ensures forall e :: e in ErrorsOf(InternalValidate(ArrayType(element, arrayOptions), Arr(items), options)) ==>
      exists i :: 0 <= i < |items| && InternalValidate(element, items[i], options).Fail?
               && |e.path| > 0 && e.path[0] == IndexPiece(i)
  {
    ArrayValidation(element, arrayOptions, items, options);
    forall e | e in ErrorsOf(Collect(ElementResults(element, items, options), options))
      ensures exists i :: 0 <= i < |items| && InternalValidate(element, items[i], options).Fail?
                       && |e.path| > 0 && e.path[0] == IndexPiece(i)
    {
      ElementErrorOrigin(element, items, options, e);
    }
  }

  /** An error collected from the elements is an element's error under its index. */
  lemma ElementErrorOrigin(element: Type, items: seq<Value>, options: Options, e: Error)
    requires e in ErrorsOf(Collect(ElementResults(element, items, options), options))
    ensures exists i :: 0 <= i < |items| && InternalValidate(element, items[i], options).Fail?
                     && |e.path| > 0 && e.path[0] == IndexPiece(i)
  {
    var results := ElementResults(element, items, options);
    CollectFromParts(results, options, e);
    var i :| 0 <= i < |results| && e in ErrorsOf(results[i]);
    var inner := InternalValidate(element, items[i], options);
    assert results[i] == Prepend(IndexPiece(i), inner);
    var k :| 0 <= k < |ErrorsOf(results[i])| && ErrorsOf(results[i])[k] == e;
    assert e.path == [IndexPiece(i)] + ErrorsOf(inner)[k].path;
  }

  /** Every error reported for an object value points, by its first path piece, at a declared
      field whose value failed. */
  lemma ObjectErrorsPointAtFields(fields: seq<(string, Type)>, entries: seq<(string, Value)>, options: Options)
    ensures forall e :: e in ErrorsOf(InternalValidate(ObjectType(fields), Obj(entries), options)) ==>
      exists i :: 0 <= i < |entries| && FieldIndex(fields, entries[i].0).Some?
               && |e.path| > 0 && e.path[0] == entries[i].0
  {
    var results := FieldResults(fields, entries, options);
    forall e | e in ErrorsOf(InternalValidate(ObjectType(fields), Obj(entries), options))
      ensures exists i :: 0 <= i < |entries| && FieldIndex(fields, entries[i].0).Some?
                       && |e.path| > 0 && e.path[0] == entries[i].0
    {
      ObjectValidation(fields, entries, options);
      CollectFromParts(results, options, e);
      var i :| 0 <= i < |results| && e in ErrorsOf(results[i]);
      assert results[i] == FieldResult(fields, entries[i].0, entries[i].1, options);
      var k :| 0 <= k < |ErrorsOf(results[i])| && ErrorsOf(results[i])[k] == e;
    }
  }

  /** Under `stopAtFirstError` the errors of an array value are those of its first failing
      element, and every element before it is valid. */
  lemma StopAtFirstReportsFirstFailingElement(element: Type, items: seq<Value>, options: Options)
    requires StopsAtFirst(options)
    ensures var r := Collect(ElementResults(element, items, options), options);
      r.Fail? ==> exists i :: (0 <= i < |items|
                  && (forall j :: 0 <= j < i ==> InternalValidate(element, items[j], options).Succeed?)
                  && r == Prepend(IndexPiece(i), InternalValidate(element, items[i], options)))
  {
    var results := ElementResults(element, items, options);
    var r := FirstFailure(results);
    if r.Fail? {
      var i :| 0 <= i < |results| && results[i] == r && forall j :: 0 <= j < i ==> results[j].Succeed?;
      forall j | 0 <= j < i ensures InternalValidate(element, items[j], options).Succeed? {
        assert results[j] == Prepend(IndexPiece(j), InternalValidate(element, items[j], options));
      }
      assert results[i] == Prepend(IndexPiece(i), InternalValidate(element, items[i], options));
    }
  }

  lemma {:induction false} AllErrorsOfContainsPart(results: seq<Result>, i: nat, e: Error)
    requires i < |results| && e in ErrorsOf(results[i])
    ensures e in AllErrorsOf(results)
  {
    var init := results[..|results| - 1];
    if i < |results| - 1 {
      assert init[i] == results[i];
      AllErrorsOfContainsPart(init, i, e);
    }
  }

  /** Under `allErrors` every error of every failing element is reported, under its index. */
  lemma AllErrorsReportsEveryElement(element: Type, items: seq<Value>, options: Options)
    requires !StopsAtFirst(options)
    ensures var r := Collect(ElementResults(element, items, options), options);
      forall i, e :: 0 <= i < |items| && e in ErrorsOf(InternalValidate(element, items[i], options)) ==>
        e.(path := [IndexPiece(i)] + e.path) in ErrorsOf(r)
  {
    var results := ElementResults(element, items, options);
    forall i, e | 0 <= i < |items| && e in ErrorsOf(InternalValidate(element, items[i], options))
      ensures e.(path := [IndexPiece(i)] + e.path) in ErrorsOf(AllFailures(results))
    {
      var inner := InternalValidate(element, items[i], options);
      var k :| 0 <= k < |ErrorsOf(inner)| && ErrorsOf(inner)[k] == e;
      assert ErrorsOf(results[i])[k] == e.(path := [IndexPiece(i)] + e.path);
      AllErrorsOfContainsPart(results, i, e.(path := [IndexPiece(i)] + e.path));
    }
  }

  // ---------------------------------------------------------------------------------------
  // Findings

  /** A `maxItems` of 0 lets a non-empty array through as written. */
  lemma ZeroMaxItemsIgnored(options: Options)
    ensures ValidateArrayAsWritten(Some(ArrayOptions(Some(0), None)), [Num(1)],
                                   ElementResults(BooleanType, [Num(1)], options), options) == Succeed
    ensures InternalValidate(ArrayType(BooleanType, Some(ArrayOptions(Some(0), None))), Arr([Num(1)]), options)
         == BaseFail("array must have at most 0 items", Arr([Num(1)]))
  {
    var results := ElementResults(BooleanType, [Num(1)], options);
    assert results[0] == Succeed;
    assert AllErrorsOf(results) == [] by {
      AllErrorsOfSucceeding(results);
    }
    assert MaxItemsMessage(0) == "array must have at most 0 items";
  }

  const AtMostFive := NumberType(Some(NumberOptions(Some((5, Inclusive)), None, None)))

  lemma SevenAboveFive(options: Options)
    ensures InternalValidate(AtMostFive, Num(7), options) == BaseFail("number must be less than or equal to 5", Num(7))
  {
    assert DigitChar(5) == '5';
    assert MaximumMessage((5, Inclusive)) == "number must be less than or equal to 5";
  }

  /** An array type without options skips its elements as written: an element above its
      maximum is accepted. */
  lemma ArrayWithoutOptionsSkipsElements()
    ensures ValidateArrayAsWritten(None, [Num(7)], ElementResults(AtMostFive, [Num(7)], DefaultOptions), DefaultOptions)
         == Succeed
    ensures InternalValidate(ArrayType(AtMostFive, None), Arr([Num(7)]), DefaultOptions)
         == Fail([Error("number must be less than or equal to 5", Num(7), ["[0]"])])
  {
    var results := ElementResults(AtMostFive, [Num(7)], DefaultOptions);
    SevenAboveFive(DefaultOptions);
    assert IndexPiece(0) == "[0]" by {
      assert IntToString(0) == "0";
    }
    PrependBaseFail("[0]", "number must be less than or equal to 5", Num(7));
    assert results[0] == Fail([Error("number must be less than or equal to 5", Num(7), ["[0]"])]);
  }

  const SmallNumber := UnionVariant("small", AtMostFive, Some((v: Value) => v.Num?))

  /** The union verdict is inverted as written: a value the chosen variant accepts fails with
      no errors, a value it rejects passes. The corrected verdict is the variant's own. */
  lemma UnionVerdictInverted()
    ensures UnionVerdictAsWritten("small", InternalValidate(AtMostFive, Num(3), DefaultOptions)) == Fail([])
    ensures UnionVerdictAsWritten("small", InternalValidate(AtMostFive, Num(7), DefaultOptions)) == Succeed
    ensures InternalValidate(UnionType([SmallNumber]), Num(3), DefaultOptions) == Succeed
    ensures InternalValidate(UnionType([SmallNumber]), Num(7), DefaultOptions)
         == Fail([Error("number must be less than or equal to 5", Num(7), ["small"])])
  {
    assert FirstMatchingVariant([SmallNumber], Num(3)) == Some(0);
    assert FirstMatchingVariant([SmallNumber], Num(7)) == Some(0);
    SevenAboveFive(DefaultOptions);
    PrependBaseFail("small", "number must be less than or equal to 5", Num(7));
  }
}
