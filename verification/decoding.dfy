/** The shapes the decoder reports with: its options, its error record and its result.
    The general decoder is not part of this model; these shapes are what the boolean type,
    the email type and the middlewares exchange with it. */
module Decoding {
  import opened Values
  import opened Paths

  datatype TypeCastingStrategy = ExpectExactTypes | TryCasting
  datatype ErrorReportingStrategy = StopAtFirstError | AllErrors
  datatype FieldStrictness = AllowAdditionalFields | ExpectExactFields

  /** `decoder.Options`; every field may be left out. */
  datatype Options = Options(
    typeCastingStrategy: Option<TypeCastingStrategy>,
    errorReportingStrategy: Option<ErrorReportingStrategy>,
    fieldStrictness: Option<FieldStrictness>)

  /** `{ expected, got, path }`. */
  datatype Error = Error(expected: string, got: Value, path: Path)

  datatype Result<+T> = Success(value: T) | Failure(errors: seq<Error>)

  /** `decoder.baseFail` / `decoder.fail`: one error at the root path. */
  function BaseFail<T>(expected: string, got: Value): (r: Result<T>)
    ensures r.Failure? && r.errors == [Error(expected, got, Empty())]
    ensures r.errors[0].path.Rendered() == "$"
  {
    Failure([Error(expected, got, Empty())])
  }

  /** Whether the options ask for casting (`options?.typeCastingStrategy === 'tryCasting'`). */
  predicate Casts(options: Option<Options>)
  {
    options.Some? && options.value.typeCastingStrategy == Some(TryCasting)
  }
}
