/** The validator (packages/model/src/validator.ts): checks the semantic constraints of a type
    (bounds, lengths, regular expressions, per-variant checks) on a value that already decoded.
    Where the source's behaviour is evidently unintended, the functions used by the recursive
    validator are the corrected ones and the code as written sits beside them, suffixed
    `AsWritten` (see README, "Findings"). */
module Validator {
  import opened Values
  import Paths
  import Decoding

  type ErrorReportingStrategy = Decoding.ErrorReportingStrategy

  /** One field of a `Partial<Options>`: left out, spelled `undefined`, or given. */
  datatype Setting<T> = Unset | SetUndefined | SetTo(value: T)

  datatype PartialOptions = PartialOptions(errorReportingStrategy: Setting<ErrorReportingStrategy>)

  /** `{ ...defaultOptions, ...options }`: the strategy is `None` when the caller spelled it `undefined`. */
  datatype Options = Options(errorReportingStrategy: Option<ErrorReportingStrategy>)

  const DefaultOptions: Options := Options(Some(Decoding.StopAtFirstError))

  /** The loops test `errorReportingStrategy === 'stopAtFirstError'`. */
  predicate StopsAtFirst(options: Options)
  {
    options.errorReportingStrategy == Some(Decoding.StopAtFirstError)
  }

  /** `validator.Error`: the failed assertion, the offending value and its path as a list of pieces. */
  datatype Error = Error(assertion: string, got: Value, path: seq<string>)

  datatype Result = Succeed | Fail(errors: seq<Error>)

  /** `baseFail`: a single error at the empty path. */
  function BaseFail(assertion: string, got: Value): (r: Result)
    ensures r.Fail? && |r.errors| == 1
    ensures r.errors[0].assertion == assertion && r.errors[0].got == got && r.errors[0].path == []
  {
    Fail([Error(assertion, got, [])])
  }

  function ErrorsOf(r: Result): seq<Error>
  {
    if r.Fail? then r.errors else []
  }

  /** `prependToPath`, mapped over the errors of a result, building new errors instead of
      mutating them. */
  function Prepend(piece: string, r: Result): (p: Result)
    ensures p.Succeed? <==> r.Succeed?
    ensures |ErrorsOf(p)| == |ErrorsOf(r)|
    ensures forall i :: 0 <= i < |ErrorsOf(p)| ==>
      ErrorsOf(p)[i] == ErrorsOf(r)[i].(path := [piece] + ErrorsOf(r)[i].path)
  {
    match r
    case Succeed => Succeed
    case Fail(errors) => Fail(seq(|errors|, i requires 0 <= i < |errors| => errors[i].(path := [piece] + errors[i].path)))
  }

  lemma PrependBaseFail(piece: string, assertion: string, got: Value)
    ensures Prepend(piece, BaseFail(assertion, got)) == Fail([Error(assertion, got, [piece])])
  {
    var p := Prepend(piece, BaseFail(assertion, got));
    assert p.errors[0] == Error(assertion, got, [piece] + []);
    assert [piece] + [] == [piece];
  }

  /** The piece prepended to the errors of element `i`: the text of an index fragment, `[i]`. */
  function IndexPiece(i: int): string
  {
    Paths.FragmentToString(Paths.Index(i))
  }

  // ---------------------------------------------------------------------------------------
  // Types

  datatype Inclusivity = Inclusive | Exclusive

  /** A regular expression: its source text and its (uninterpreted) `test`. */
  datatype Regex = Regex(source: string, test: string -> bool)

  datatype NumberOptions = NumberOptions(
    maximum: Option<(int, Inclusivity)>,
    minimum: Option<(int, Inclusivity)>,
    multipleOf: Option<int>)

  datatype StringOptions = StringOptions(regex: Option<Regex>, maxLength: Option<nat>, minLength: Option<nat>)

  datatype ArrayOptions = ArrayOptions(maxItems: Option<nat>, minItems: Option<nat>)

  /** A union variant with its optional per-variant check (`variantsChecks[name]`). */
  datatype UnionVariant = UnionVariant(name: string, variantType: Type, check: Option<Value -> bool>)

  /** The kinds the validator dispatches on (after `concretise`). */
  datatype Type =
    | BooleanType
    | EnumType(variants: seq<string>)
    | LiteralType(literal: Value)
    | NumberType(numberOptions: Option<NumberOptions>)
    | StringType(stringOptions: Option<StringOptions>)
    | OptionalType(wrapped: Type)
    | NullableType(wrapped: Type)
    | ObjectType(fields: seq<(string, Type)>)
    | UnionType(unionVariants: seq<UnionVariant>)
    | ArrayType(element: Type, arrayOptions: Option<ArrayOptions>)
    | ReferenceType(wrapped: Type)
    | CustomType(typeName: string, validate: (Value, Options) -> Result)

  /** The position of `type.types[fieldName]` among the declared fields, if declared. */
  function FieldIndex(fields: seq<(string, Type)>, fieldName: string): (r: Option<nat>)
    ensures r.Some? ==> r.value < |fields| && fields[r.value].0 == fieldName
    ensures r.None? ==> forall i :: 0 <= i < |fields| ==> fields[i].0 != fieldName
  {
    if fields == [] then None
    else if fields[0].0 == fieldName then Some(0)
    else
      var r := FieldIndex(fields[1..], fieldName);
      if r.Some? then Some(r.value + 1) else None
  }

  // ---------------------------------------------------------------------------------------
  // Numbers

  /** Whether a value satisfies an upper bound, stated as the bound's meaning. */
  predicate WithinMaximum(maximum: Option<(int, Inclusivity)>, value: int)
  {
    match maximum
    case None => true
    case Some((bound, Inclusive)) => value <= bound
    case Some((bound, Exclusive)) => value < bound
  }

  predicate WithinMinimum(minimum: Option<(int, Inclusivity)>, value: int)
  {
    match minimum
    case None => true
    case Some((bound, Inclusive)) => bound <= value
    case Some((bound, Exclusive)) => bound < value
  }

  /** A `multipleOf` of 0 is falsy and is not checked. */
  predicate IsMultiple(multipleOf: Option<int>, value: int)
  {
    multipleOf.None? || multipleOf.value == 0 || value % multipleOf.value == 0
  }

  function MaximumMessage(maximum: (int, Inclusivity)): string
  {
    if maximum.1 == Inclusive then "number must be less than or equal to " + IntToString(maximum.0)
    else "number must be less than " + IntToString(maximum.0)
  }

  function MinimumMessage(minimum: (int, Inclusivity)): string
  {
    if minimum.1 == Inclusive then "number must be greater than or equal to " + IntToString(minimum.0)
    else "number must be greater than " + IntToString(minimum.0)
  }

  function MultipleOfMessage(multipleOf: int): string
  {
    "number must be mutiple of " + IntToString(multipleOf)
  }

  /** `validateNumber`: maximum, then minimum, then `multipleOf`; the first violation is the
      only error. A bound is a pair, so a bound of 0 is still checked. */
  function ValidateNumber(options: Option<NumberOptions>, value: int): (r: Result)
    ensures r.Succeed? <==> (options.None? ||
      (WithinMaximum(options.value.maximum, value) && WithinMinimum(options.value.minimum, value)
       && IsMultiple(options.value.multipleOf, value)))
    ensures r.Fail? ==> |r.errors| == 1 && r.errors[0].got == Num(value) && r.errors[0].path == []
    ensures r.Fail? && !WithinMaximum(options.value.maximum, value) ==>
      r.errors[0].assertion == MaximumMessage(options.value.maximum.value)
    ensures r.Fail? && WithinMaximum(options.value.maximum, value) && !WithinMinimum(options.value.minimum, value) ==>
      r.errors[0].assertion == MinimumMessage(options.value.minimum.value)
    ensures r.Fail? && WithinMaximum(options.value.maximum, value) && WithinMinimum(options.value.minimum, value) ==>
      r.errors[0].assertion == MultipleOfMessage(options.value.multipleOf.value)
  {
    if options.None? then Succeed
    else
      var o := options.value;
      if o.maximum.Some? && o.maximum.value.1 == Inclusive && value > o.maximum.value.0 then
        BaseFail(MaximumMessage(o.maximum.value), Num(value))
      else if o.maximum.Some? && o.maximum.value.1 == Exclusive && value >= o.maximum.value.0 then
        BaseFail(MaximumMessage(o.maximum.value), Num(value))
      else if o.minimum.Some? && o.minimum.value.1 == Inclusive && value < o.minimum.value.0 then
        BaseFail(MinimumMessage(o.minimum.value), Num(value))
      else if o.minimum.Some? && o.minimum.value.1 == Exclusive && value <= o.minimum.value.0 then
        BaseFail(MinimumMessage(o.minimum.value), Num(value))
      else if o.multipleOf.Some? && o.multipleOf.value != 0 && value % o.multipleOf.value != 0 then
        BaseFail(MultipleOfMessage(o.multipleOf.value), Num(value))
      else Succeed
  }

  // ---------------------------------------------------------------------------------------
  // Strings

  /** JavaScript truthiness of an optional count: absent and 0 are both falsy. */
  predicate Truthy(bound: Option<nat>)
  {
    bound.Some? && bound.value != 0
  }

  /** A bound as a truthiness test sees it: a bound of 0 is no bound. */
  function IgnoreZero(bound: Option<nat>): Option<nat>
  {
    if Truthy(bound) then bound else None
  }

  predicate WithinMaxLength(maxLength: Option<nat>, length: nat)
  {
    maxLength.None? || length <= maxLength.value
  }

  predicate WithinMinLength(minLength: Option<nat>, length: nat)
  {
    minLength.None? || minLength.value <= length
  }

  predicate MatchesRegex(regex: Option<Regex>, value: string)
  {
    regex.None? || regex.value.test(value)
  }

  function MaxLengthMessage(maxLength: nat): string
  {
    "string longer than max length (" + NatToString(maxLength) + ")"
  }

  function MinLengthMessage(minLength: nat): string
  {
    "string shorter than min length (" + NatToString(minLength) + ")"
  }

  function RegexMessage(regex: Regex): string
  {
    "string regex mismatch (" + regex.source + ")"
  }

  /** `validateString` exactly as written: the length bounds are tested for truthiness, so a
      `maxLength` of 0 is never enforced. */
  function ValidateStringAsWritten(options: Option<StringOptions>, value: string): (r: Result)
    ensures options.None? ==> r.Succeed?
    ensures options.Some? ==>
      r == ValidateString(Some(options.value.(maxLength := IgnoreZero(options.value.maxLength),
                                              minLength := IgnoreZero(options.value.minLength))), value)
  {
    if options.None? then Succeed
    else
      var o := options.value;
      if Truthy(o.maxLength) && Utf16Length(value) > o.maxLength.value then BaseFail(MaxLengthMessage(o.maxLength.value), Str(value))
      else if Truthy(o.minLength) && Utf16Length(value) < o.minLength.value then BaseFail(MinLengthMessage(o.minLength.value), Str(value))
      else if o.regex.Some? && !o.regex.value.test(value) then BaseFail(RegexMessage(o.regex.value), Str(value))
      else Succeed
  }

  /** `validateString` with the bounds tested for presence: maximum length, then minimum
      length, then the regular expression; the first violation is the only error. */
  function ValidateString(options: Option<StringOptions>, value: string): (r: Result)
    ensures r.Succeed? <==> (options.None? ||
      (WithinMaxLength(options.value.maxLength, Utf16Length(value)) && WithinMinLength(options.value.minLength, Utf16Length(value))
       && MatchesRegex(options.value.regex, value)))
    ensures r.Fail? ==> |r.errors| == 1 && r.errors[0].got == Str(value) && r.errors[0].path == []
    ensures r.Fail? && !WithinMaxLength(options.value.maxLength, Utf16Length(value)) ==>
      r.errors[0].assertion == MaxLengthMessage(options.value.maxLength.value)
    ensures (r.Fail? && WithinMaxLength(options.value.maxLength, Utf16Length(value))
             && !WithinMinLength(options.value.minLength, Utf16Length(value))) ==>
      r.errors[0].assertion == MinLengthMessage(options.value.minLength.value)
    ensures (r.Fail? && WithinMaxLength(options.value.maxLength, Utf16Length(value))
             && WithinMinLength(options.value.minLength, Utf16Length(value))) ==>
      r.errors[0].assertion == RegexMessage(options.value.regex.value)
  {
    if options.None? then Succeed
    else
      var o := options.value;
      if o.maxLength.Some? && Utf16Length(value) > o.maxLength.value then BaseFail(MaxLengthMessage(o.maxLength.value), Str(value))
      else if o.minLength.Some? && Utf16Length(value) < o.minLength.value then BaseFail(MinLengthMessage(o.minLength.value), Str(value))
      else if o.regex.Some? && !o.regex.value.test(value) then BaseFail(RegexMessage(o.regex.value), Str(value))
      else Succeed
  }

  /** Finding: a `maxLength` of 0 lets a non-empty string through as written. */
  lemma ZeroMaxLengthIgnored()
    ensures ValidateStringAsWritten(Some(StringOptions(None, Some(0), None)), "a") == Succeed
    ensures ValidateString(Some(StringOptions(None, Some(0), None)), "a")
         == BaseFail("string longer than max length (0)", Str("a"))
  {
    assert NatToString(0) == "0";
    assert MaxLengthMessage(0) == "string longer than max length (0)";
  }

  /** Lengths are JavaScript lengths: a single emoji is two code units long, so it exceeds a
      `maxLength` of 1. */
  lemma EmojiExceedsMaxLengthOne()
    ensures ValidateString(Some(StringOptions(None, Some(1), None)), "\U{1F600}")
         == BaseFail("string longer than max length (1)", Str("\U{1F600}"))
  {
    EmojiLength();
    assert NatToString(1) == "1";
    assert MaxLengthMessage(1) == "string longer than max length (1)";
  }

  // ---------------------------------------------------------------------------------------
  // Accumulating the results of the parts of a value (the loops of validateObject and
  // validateArrayElements)

  /** Under `stopAtFirstError`: the first failing result, or success. */
  function FirstFailure(results: seq<Result>): (r: Result)
    ensures r.Succeed? <==> forall i :: 0 <= i < |results| ==> results[i].Succeed?
    ensures r.Fail? ==> exists i :: 0 <= i < |results| && results[i] == r
                                 && forall j :: 0 <= j < i ==> results[j].Succeed?
  {
    if results == [] then Succeed
    else if results[0].Fail? then results[0]
    else
      var r := FirstFailure(results[1..]);
      if r.Fail? then
        var i :| 0 <= i < |results[1..]| && results[1..][i] == r && forall j :: 0 <= j < i ==> results[1..][j].Succeed?;
        assert results[i + 1] == r;
        assert forall j :: 1 <= j < i + 1 ==> results[j] == results[1..][j - 1];
        r
      else r
  }

  /** The errors of every result, in order. */
  function AllErrorsOf(results: seq<Result>): seq<Error>
  {
    if results == [] then [] else AllErrorsOf(results[..|results| - 1]) + ErrorsOf(results[|results| - 1])
  }

  /** Under `allErrors`: failure as soon as one part fails, with the errors of every failing part. */
  function AllFailures(results: seq<Result>): Result
  {
    if exists i :: 0 <= i < |results| && results[i].Fail? then Fail(AllErrorsOf(results)) else Succeed
  }

  function Collect(results: seq<Result>, options: Options): Result
  {
    if StopsAtFirst(options) then FirstFailure(results) else AllFailures(results)
  }

  lemma {:induction false} AllErrorsOfSucceeding(results: seq<Result>)
    requires forall i :: 0 <= i < |results| ==> results[i].Succeed?
    ensures AllErrorsOf(results) == []
  {
    if results != [] {
      AllErrorsOfSucceeding(results[..|results| - 1]);
    }
  }

  /** Every collected error is an error of one of the parts. */
  lemma {:induction false} AllErrorsOfFromParts(results: seq<Result>, e: Error)
    requires e in AllErrorsOf(results)
    ensures exists i :: 0 <= i < |results| && e in ErrorsOf(results[i])
  {
    if results != [] {
      var init := results[..|results| - 1];
      if e in AllErrorsOf(init) {
        AllErrorsOfFromParts(init, e);
        var i :| 0 <= i < |init| && e in ErrorsOf(init[i]);
        assert results[i] == init[i];
      } else {
        assert e in ErrorsOf(results[|results| - 1]);
      }
    }
  }

  lemma CollectFromParts(results: seq<Result>, options: Options, e: Error)
    requires e in ErrorsOf(Collect(results, options))
    ensures exists i :: 0 <= i < |results| && e in ErrorsOf(results[i])
  {
    if !StopsAtFirst(options) {
      AllErrorsOfFromParts(results, e);
    }
  }

  /** Loop state of the accumulation after `i` parts, as the source keeps it. */
  ghost predicate Accumulated(results: seq<Result>, i: nat, encounteredError: bool, validationErrors: seq<Error>)
    requires i <= |results|
  {
    && (encounteredError <==> exists j :: 0 <= j < i && results[j].Fail?)
    && validationErrors == AllErrorsOf(results[..i])
  }

  /** One turn of the accumulation loop. */
  lemma AccumulateStep(results: seq<Result>, i: nat, encounteredError: bool, validationErrors: seq<Error>)
    requires i < |results|
    requires Accumulated(results, i, encounteredError, validationErrors)
    ensures Accumulated(results, i + 1, encounteredError || results[i].Fail?, validationErrors + ErrorsOf(results[i]))
  {
    assert results[..i + 1][..i] == results[..i];
  }

  /** A loop that ran over every part returns what `Collect` gives. */
  lemma AccumulatedAll(results: seq<Result>, encounteredError: bool, validationErrors: seq<Error>, options: Options)
    requires Accumulated(results, |results|, encounteredError, validationErrors)
    requires StopsAtFirst(options) ==> !encounteredError
    ensures (if encounteredError then Fail(validationErrors) else Succeed) == Collect(results, options)
  {
    assert results[..|results|] == results;
    if StopsAtFirst(options) {
      AllErrorsOfSucceeding(results);
    }
  }

  /** A loop that broke at the first failing part, under `stopAtFirstError`, returns what
      `Collect` gives. */
  lemma AccumulatedUpToFirstFailure(results: seq<Result>, i: nat, validationErrors: seq<Error>, options: Options,
                                     succeededBefore: bool)
    requires StopsAtFirst(options)
    requires 0 < i <= |results| && results[i - 1].Fail?
    requires succeededBefore <==> !exists j :: 0 <= j < i - 1 && results[j].Fail?
    requires succeededBefore
    requires validationErrors == AllErrorsOf(results[..i])
    ensures Fail(validationErrors) == Collect(results, options)
  {
    AllErrorsOfSucceeding(results[..i - 1]);
    assert results[..i][..i - 1] == results[..i - 1];
    var r := FirstFailure(results);
    var k :| 0 <= k < |results| && results[k] == r && forall j :: 0 <= j < k ==> results[j].Succeed?;
    assert k == i - 1;
  }

  /** One turn of either validation loop, including the `break` under `stopAtFirstError`:
      the new loop state is again `Accumulated`, and a loop that stops there returns what
      `Collect` gives. */
  lemma AccumulateTurn(results: seq<Result>, i: nat, encounteredError: bool, validationErrors: seq<Error>,
                       options: Options)
    requires i < |results|
    requires Accumulated(results, i, encounteredError, validationErrors)
    requires StopsAtFirst(options) ==> !encounteredError
    ensures Accumulated(results, i + 1, encounteredError || results[i].Fail?,
                        if results[i].Fail? then validationErrors + results[i].errors else validationErrors)
    ensures results[i].Fail? && StopsAtFirst(options) ==>
      Fail(validationErrors + results[i].errors) == Collect(results, options)
  {
    AccumulateStep(results, i, encounteredError, validationErrors);
    if results[i].Fail? && StopsAtFirst(options) {
      AccumulatedUpToFirstFailure(results, i + 1, validationErrors + results[i].errors, options, true);
    } else if results[i].Succeed? {
      assert validationErrors + ErrorsOf(results[i]) == validationErrors;
    }
  }

  // ---------------------------------------------------------------------------------------
  // Arrays

  predicate WithinMaxItems(options: Option<ArrayOptions>, count: nat)
  {
    options.None? || options.value.maxItems.None? || count <= options.value.maxItems.value
  }

  predicate WithinMinItems(options: Option<ArrayOptions>, count: nat)
  {
    options.None? || options.value.minItems.None? || options.value.minItems.value <= count
  }

  function MaxItemsMessage(maxItems: nat): string
  {
    "array must have at most " + NatToString(maxItems) + " items"
  }

  function MinItemsMessage(minItems: nat): string
  {
    "array must have at least " + NatToString(minItems) + " items"
  }

  /** `validateArray` exactly as written: no options means no check at all (not even of the
      elements), and the item bounds are tested for truthiness. */
  function ValidateArrayAsWritten(options: Option<ArrayOptions>, items: seq<Value>, elementResults: seq<Result>,
                                  validationOptions: Options): (r: Result)
    ensures options.None? ==> r.Succeed?
    ensures options.Some? ==>
      r == ValidateArray(Some(options.value.(maxItems := IgnoreZero(options.value.maxItems),
                                             minItems := IgnoreZero(options.value.minItems))),
                         items, elementResults, validationOptions)
  {
    if options.None? then Succeed
    else
      var o := options.value;
      if Truthy(o.maxItems) && |items| > o.maxItems.value then BaseFail(MaxItemsMessage(o.maxItems.value), Arr(items))
      else if Truthy(o.minItems) && |items| < o.minItems.value then BaseFail(MinItemsMessage(o.minItems.value), Arr(items))
      else Collect(elementResults, validationOptions)
  }

  /** `validateArray` with the bounds tested for presence and the elements always validated:
      the item bounds come first, whatever the elements are. */
  function ValidateArray(options: Option<ArrayOptions>, items: seq<Value>, elementResults: seq<Result>,
                         validationOptions: Options): (r: Result)
    ensures !WithinMaxItems(options, |items|) ==>
      r == BaseFail(MaxItemsMessage(options.value.maxItems.value), Arr(items))
    ensures WithinMaxItems(options, |items|) && !WithinMinItems(options, |items|) ==>
      r == BaseFail(MinItemsMessage(options.value.minItems.value), Arr(items))
    ensures WithinMaxItems(options, |items|) && WithinMinItems(options, |items|) ==>
      r == Collect(elementResults, validationOptions)
  {
    if options.Some? && options.value.maxItems.Some? && |items| > options.value.maxItems.value then
      BaseFail(MaxItemsMessage(options.value.maxItems.value), Arr(items))
    else if options.Some? && options.value.minItems.Some? && |items| < options.value.minItems.value then
      BaseFail(MinItemsMessage(options.value.minItems.value), Arr(items))
    else Collect(elementResults, validationOptions)
  }

  // ---------------------------------------------------------------------------------------
  // Unions

  predicate Passes(variant: UnionVariant, value: Value)
  {
    variant.check.Some? && variant.check.value(value)
  }

  /** The index of the first variant whose check holds of the value. */
  function FirstMatchingVariant(variants: seq<UnionVariant>, value: Value): (r: Option<nat>)
    ensures r.Some? ==> (r.value < |variants| && Passes(variants[r.value], value)
                         && forall j :: 0 <= j < r.value ==> !Passes(variants[j], value))
    ensures r.None? ==> forall j :: 0 <= j < |variants| ==> !Passes(variants[j], value)
  {
    if variants == [] then None
    else if Passes(variants[0], value) then Some(0)
    else
      var r := FirstMatchingVariant(variants[1..], value);
      assert forall j :: 1 <= j < |variants| ==> variants[j] == variants[1..][j - 1];
      if r.Some? then Some(r.value + 1) else None
  }

  /** The verdict at packages/model/src/validator.ts:256 as written: success when the chosen
      variant FAILS, and a failure with no errors when it passes. */
  function UnionVerdictAsWritten(variantName: string, variantResult: Result): (r: Result)
    ensures r.Succeed? <==> variantResult.Fail?
    ensures r.Fail? ==> r.errors == []
  {
    var encounteredError := variantResult.Fail?;
    var validationErrors := if encounteredError then Prepend(variantName, variantResult).errors else [];
    if encounteredError then Succeed else Fail(validationErrors)
  }

  /** The intended verdict: the chosen variant's result, its errors prefixed with the variant name. */
  function UnionVerdict(variantName: string, variantResult: Result): (r: Result)
    ensures r.Succeed? <==> variantResult.Succeed?
    ensures |ErrorsOf(r)| == |ErrorsOf(variantResult)|
    ensures forall i :: 0 <= i < |ErrorsOf(r)| ==> ErrorsOf(r)[i].path == [variantName] + ErrorsOf(variantResult)[i].path
    ensures forall i :: 0 <= i < |ErrorsOf(r)| ==>
      ErrorsOf(r)[i].assertion == ErrorsOf(variantResult)[i].assertion && ErrorsOf(r)[i].got == ErrorsOf(variantResult)[i].got
  {
    Prepend(variantName, variantResult)
  }

  const NoVariantMessage := "value does not pass any of the variant checks"

  // ---------------------------------------------------------------------------------------
  // The recursive validator

  /** `internalValidate`: dispatch on the kind. A value whose shape does not belong to the
      type (which the source's static types exclude) is accepted. */
  function InternalValidate(t: Type, value: Value, options: Options): (r: Result)
    ensures (t.BooleanType? || t.EnumType? || t.LiteralType?) ==> r.Succeed?
    ensures (t.NumberType? || t.StringType?) && r.Fail? ==>
      |r.errors| == 1 && r.errors[0].got == value && r.errors[0].path == []
    decreases value, t, 1
  {
    match t
    case BooleanType => Succeed
    case EnumType(_) => Succeed
    case LiteralType(_) => Succeed
    case NumberType(numberOptions) => if value.Num? then ValidateNumber(numberOptions, value.n) else Succeed
    case StringType(stringOptions) => if value.Str? then ValidateString(stringOptions, value.s) else Succeed
    case OptionalType(wrapped) => if value.Undefined? then Succeed else InternalValidate(wrapped, value, options)
    case NullableType(wrapped) => if value.Null? then Succeed else InternalValidate(wrapped, value, options)
    case ObjectType(fields) =>
      if value.Obj? then Collect(FieldResults(fields, value.entries, options), options) else Succeed
    case UnionType(variants) =>
      (match FirstMatchingVariant(variants, value)
       case None => BaseFail(NoVariantMessage, value)
       case Some(k) => UnionVerdict(variants[k].name, InternalValidate(variants[k].variantType, value, options)))
    case ArrayType(element, arrayOptions) =>
      if value.Arr? then ValidateArray(arrayOptions, value.items, ElementResults(element, value.items, options), options)
      else Succeed
    case ReferenceType(wrapped) => InternalValidate(wrapped, value, options)
    case CustomType(_, validate) => validate(value, options)
  }

  /** The result of each entry of an object value, errors prefixed with the field name. A field
      the type does not declare is not checked. */
  function FieldResults(fields: seq<(string, Type)>, entries: seq<(string, Value)>, options: Options): (rs: seq<Result>)
    ensures |rs| == |entries|
    decreases Obj(entries), ObjectType(fields), 0
  {
    seq(|entries|, i requires 0 <= i < |entries| => FieldResult(fields, entries[i].0, entries[i].1, options))
  }

  /** The result of one entry of an object value. */
  function FieldResult(fields: seq<(string, Type)>, fieldName: string, fieldValue: Value, options: Options): (r: Result)
    ensures FieldIndex(fields, fieldName).None? ==> r.Succeed?
    ensures forall j :: 0 <= j < |ErrorsOf(r)| ==> ErrorsOf(r)[j].path != [] && ErrorsOf(r)[j].path[0] == fieldName
    decreases fieldValue, ObjectType(fields), 2
  {
    match FieldIndex(fields, fieldName)
    case None => Succeed
    case Some(k) => Prepend(fieldName, InternalValidate(fields[k].1, fieldValue, options))
  }

  /** The result of each element of an array value, errors prefixed with `[i]`. */
  function ElementResults(element: Type, items: seq<Value>, options: Options): (rs: seq<Result>)
    ensures |rs| == |items|
    ensures forall i :: 0 <= i < |rs| ==> (rs[i].Succeed? <==> InternalValidate(element, items[i], options).Succeed?)
    ensures forall i, j :: 0 <= i < |rs| && 0 <= j < |ErrorsOf(rs[i])| ==>
      ErrorsOf(rs[i])[j].path != [] && ErrorsOf(rs[i])[j].path[0] == IndexPiece(i)
    decreases Arr(items), element, 0
  {
    seq(|items|, i requires 0 <= i < |items| => Prepend(IndexPiece(i), InternalValidate(element, items[i], options)))
  }

  /** `validateObject`: validates the entries in order, stopping after the first failing one
      under `stopAtFirstError`. */
  method ValidateObject(fields: seq<(string, Type)>, entries: seq<(string, Value)>, options: Options) returns (r: Result)
    ensures r == InternalValidate(ObjectType(fields), Obj(entries), options)
  {
    ghost var results := FieldResults(fields, entries, options);
    var validationErrors: seq<Error> := [];
    var encounteredError := false;
    var i := 0;
    while i < |entries|
      invariant 0 <= i <= |entries|
      invariant Accumulated(results, i, encounteredError, validationErrors)
      invariant StopsAtFirst(options) ==> !encounteredError
    {
      var (fieldName, fieldValue) := entries[i];
      var fieldResult := Succeed;
      var k := FieldIndex(fields, fieldName);
      if k.Some? {
        fieldResult := Prepend(fieldName, InternalValidate(fields[k.value].1, fieldValue, options));
      }
      assert fieldResult == FieldResult(fields, fieldName, fieldValue, options) == results[i];
      AccumulateTurn(results, i, encounteredError, validationErrors, options);
      if fieldResult.Fail? {
        encounteredError := true;
        validationErrors := validationErrors + fieldResult.errors;
      }
      i := i + 1;
      if encounteredError && StopsAtFirst(options) {
        break;
      }
    }
    if !(encounteredError && StopsAtFirst(options)) {
      AccumulatedAll(results, encounteredError, validationErrors, options);
    }
    r := if encounteredError then Fail(validationErrors) else Succeed;
    ObjectValidation(fields, entries, options);
  }

  lemma ObjectValidation(fields: seq<(string, Type)>, entries: seq<(string, Value)>, options: Options)
    ensures InternalValidate(ObjectType(fields), Obj(entries), options) == Collect(FieldResults(fields, entries, options), options)
  {
  }

  lemma ArrayValidation(element: Type, arrayOptions: Option<ArrayOptions>, items: seq<Value>, options: Options)
    ensures InternalValidate(ArrayType(element, arrayOptions), Arr(items), options)
         == ValidateArray(arrayOptions, items, ElementResults(element, items, options), options)
  {
  }

  /** `validateArrayElements`: validates the items in order, stopping after the first failing
      one under `stopAtFirstError`. */
  method ValidateArrayElements(element: Type, items: seq<Value>, options: Options) returns (r: Result)
    ensures r == Collect(ElementResults(element, items, options), options)
  {
    ghost var results := ElementResults(element, items, options);
    var validationErrors: seq<Error> := [];
    var encounteredError := false;
    var i := 0;
    while i < |items|
      invariant 0 <= i <= |items|
      invariant Accumulated(results, i, encounteredError, validationErrors)
      invariant StopsAtFirst(options) ==> !encounteredError
    {
      var itemResult := Prepend(IndexPiece(i), InternalValidate(element, items[i], options));
      assert itemResult == results[i];
      AccumulateTurn(results, i, encounteredError, validationErrors, options);
      if itemResult.Fail? {
        encounteredError := true;
        validationErrors := validationErrors + itemResult.errors;
      }
      i := i + 1;
      if encounteredError && StopsAtFirst(options) {
        break;
      }
    }
    if !(encounteredError && StopsAtFirst(options)) {
      AccumulatedAll(results, encounteredError, validationErrors, options);
    }
    r := if encounteredError then Fail(validationErrors) else Succeed;
  }

  /** `validateUnion`: the first variant whose check holds decides; no such variant is an
      error at the root. */
  method ValidateUnion(variants: seq<UnionVariant>, value: Value, options: Options) returns (r: Result)
    ensures r == InternalValidate(UnionType(variants), value, options)
  {
    var i := 0;
    while i < |variants|
      invariant 0 <= i <= |variants|
      invariant forall j :: 0 <= j < i ==> !Passes(variants[j], value)
    {
      var variant := variants[i];
      var valueIsVariant := variant.check.Some? && variant.check.value(value);
      if valueIsVariant {
        var k := FirstMatchingVariant(variants, value);
        assert k == Some(i);
        r := UnionVerdict(variant.name, InternalValidate(variant.variantType, value, options));
        return;
      }
      i := i + 1;
    }
    r := BaseFail(NoVariantMessage, value);
  }

  /** The spread `{ ...defaultOptions, ...options }`: the default strategy stands unless the
      caller gives the field, and a field given as `undefined` overrides it with `undefined`,
      which neither loop reads as `stopAtFirstError`. */
  function MergeOptions(options: Option<PartialOptions>): (o: Options)
    ensures StopsAtFirst(o) <==> (options.None? || options.value.errorReportingStrategy.Unset?
                                  || options.value.errorReportingStrategy == SetTo(Decoding.StopAtFirstError))
    ensures options.Some? && options.value.errorReportingStrategy.SetTo? ==>
      o.errorReportingStrategy == Some(options.value.errorReportingStrategy.value)
  {
    match options
    case None => DefaultOptions
    case Some(partial) =>
      match partial.errorReportingStrategy
      case Unset => DefaultOptions
      case SetUndefined => Options(None)
      case SetTo(strategy) => Options(Some(strategy))
  }

  /** `validate`: merge the given options over the defaults, then validate. */
  function Validate(t: Type, value: Value, options: Option<PartialOptions>): (r: Result)
    ensures options.None? ==> r == InternalValidate(t, value, DefaultOptions)
    ensures options.Some? && options.value.errorReportingStrategy.SetUndefined? ==>
      r == InternalValidate(t, value, Options(None))
  {
    InternalValidate(t, value, MergeOptions(options))
  }
}
