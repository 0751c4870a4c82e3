/** The boolean type of the model's type system
    (packages/model/src/type-system/implementations/boolean.ts). */
module BooleanType {
  import opened Values
  import opened Paths
  import Decoding
  import Validator

  /** `decodeWithoutValidation`: booleans pass; under `tryCasting` the strings `"true"` and
      `"false"` and every number are accepted, a number meaning `true` unless it is zero. */
  function DecodeWithoutValidation(value: Value, options: Option<Decoding.Options>): (r: Decoding.Result<bool>)
    ensures r.Success? <==>
      value.Bool? || (Decoding.Casts(options) && (value == Str("true") || value == Str("false") || value.Num?))
    ensures value.Bool? ==> r == Decoding.Success(value.b)
    ensures r.Success? && value.Str? ==> r.value == (value.s == "true")
    ensures r.Success? && value.Num? ==> r.value == (value.n != 0)
    ensures r.Failure? ==> r.errors == [Decoding.Error("boolean", value, Empty())]
  {
    if value == Bool(true) || value == Bool(false) then
      Decoding.Success(value.b)
    else if Decoding.Casts(options) && value == Str("true") then
      Decoding.Success(true)
    else if Decoding.Casts(options) && value == Str("false") then
      Decoding.Success(false)
    else if Decoding.Casts(options) && value.Num? then
      Decoding.Success(value.n != 0)
    else
      Decoding.BaseFail("boolean", value)
  }

  /** `encodeWithoutValidation`: the boolean itself is its JSON form. */
  function EncodeWithoutValidation(b: bool): (v: Value)
    ensures DecodeWithoutValidation(v, None) == Decoding.Success(b)
  {
    Bool(b)
  }

  /** `validate`: a boolean carries no constraint. */
  function Validate(b: bool, options: Validator.Options): (r: Validator.Result)
    ensures r.Succeed?
  {
    Validator.Succeed
  }

  /** Decoding what was encoded gives the boolean back, whatever the options. */
  lemma DecodeEncode(b: bool, options: Option<Decoding.Options>)
    ensures DecodeWithoutValidation(EncodeWithoutValidation(b), options) == Decoding.Success(b)
  {
  }

  /** Without `tryCasting` only a boolean decodes; every other value fails at the root. */
  lemma ExactDecodingAcceptsOnlyBooleans(value: Value, options: Option<Decoding.Options>)
    requires !Decoding.Casts(options)
    ensures DecodeWithoutValidation(value, options).Success? <==> value.Bool?
    ensures !value.Bool? ==> DecodeWithoutValidation(value, options).errors[0].path.Rendered() == "$"
  {
  }

  /** The implementation's `validate` agrees with the validator's rule for the boolean kind. */
  lemma ValidateAgreesWithValidator(b: bool, options: Validator.Options)
    ensures Validate(b, options) == Validator.InternalValidate(Validator.BooleanType, Bool(b), options)
    ensures Validate(b, options).Succeed?
  {
  }
}
