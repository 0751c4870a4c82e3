/** The built-in middlewares of a module function (packages/module/src/middleware.ts). A
    middleware receives the call's arguments, the rest of the chain (`next`) and the function
    it wraps. The function's collaborators (selection depth, the decoders of its output and
    of its errors, the policy checker and mapper) are fields of `FunctionInfo`; a thrown
    exception is an `Outcome`, and the logger's warnings are returned beside it. */
module Middleware {
  import opened Values
  import Decoding

  /** `result.ok` / `result.fail` as a function returns them. */
  datatype FunctionResult = Ok(value: Value) | Failure(error: Value)

  datatype Exception =
    | MaxSelectionDepthReached(depth: int, maxDepth: int)
    | UnexpectedFailure(message: string)
    | InvalidOutputValue(functionName: string, errors: seq<Decoding.Error>)
    | UnauthorizedAccess(details: Value)
    | Raised(description: string)

  /** What a call yields: a returned result or a thrown exception. */
  datatype Outcome = Returned(result: FunctionResult) | Thrown(exception: Exception)

  datatype Args = Args(functionName: string, retrieve: Option<Value>, input: Value)

  /** An error type a function declares: the standard `UnauthorizedAccess` error or another. */
  datatype ErrorType = StandardUnauthorizedAccess | OtherErrorType(name: string)

  /** The outcome of `security.checkPolicies`: allowed, with the retrieve it narrows to, or
      refused with details. */
  datatype PolicyResult = Allowed(narrowedRetrieve: Option<Value>) | Refused(details: Value)

  datatype Policies = Policies(retrievePolicies: seq<Value>, mapperPolicies: seq<Value>)

  datatype PolicyDecision = Skip | Apply(policies: Policies)

  /** The wrapped function and its collaborators, with its output type and retrieve
      capabilities already applied. */
  datatype FunctionInfo = FunctionInfo(
    errors: Option<seq<(string, ErrorType)>>,
    selectionDepth: Value -> int,
    retrieveTypeIsOk: bool,
    decodeFailure: (Value, Decoding.Options) -> Decoding.Result<Value>,
    decodeSelected: (Value, Value, Decoding.Options) -> Decoding.Result<Value>,
    checkRetrievePolicies: (Option<Value>, seq<Value>) -> PolicyResult,
    applyMapPolicies: (seq<Value>, Value) -> Value)

  /** `{}`. */
  const EmptyObject := Obj([])

  /** `{ select: {} }`. */
  const SelectAll := Obj([("select", Obj([]))])

  // ---------------------------------------------------------------------------------------
  // checkMaxSelectionDepth

  function Depth(f: FunctionInfo, args: Args): int
  {
    f.selectionDepth(Coalesce(args.retrieve, EmptyObject))
  }

  /** `checkMaxSelectionDepth(maxDepth)` applied to a call. */
  function CheckMaxSelectionDepth(maxDepth: int, args: Args, next: Args -> Outcome, f: FunctionInfo): (o: Outcome)
    ensures Depth(f, args) > maxDepth ==> o == Thrown(MaxSelectionDepthReached(Depth(f, args), maxDepth))
    ensures Depth(f, args) <= maxDepth ==> o == next(args)
  {
    var depth := f.selectionDepth(Coalesce(args.retrieve, EmptyObject));
    if depth > maxDepth then Thrown(MaxSelectionDepthReached(depth, maxDepth)) else next(args)
  }

  /** A selection deeper than allowed is refused before the function runs: the outcome does
      not depend on the rest of the chain. */
  lemma DepthGuardSkipsNext(maxDepth: int, args: Args, next: Args -> Outcome, other: Args -> Outcome, f: FunctionInfo)
    requires Depth(f, args) > maxDepth
    ensures CheckMaxSelectionDepth(maxDepth, args, next, f) == CheckMaxSelectionDepth(maxDepth, args, other, f)
    ensures CheckMaxSelectionDepth(maxDepth, args, next, f).Thrown?
  {
  }

  // ---------------------------------------------------------------------------------------
  // checkOutputType

  datatype OnFailure = Log | Throw

  /** A warning the logger receives. */
  datatype Warning = InvalidValueReturned(functionName: string, errors: seq<Decoding.Error>)

  datatype Verdict = Verdict(outcome: Outcome, warnings: seq<Warning>)

  const FailureDecodingOptions := Decoding.Options(None, Some(Decoding.AllErrors), Some(Decoding.ExpectExactFields))

  const OutputDecodingOptions := Decoding.Options(None, Some(Decoding.AllErrors), Some(Decoding.AllowAdditionalFields))

  function UnexpectedFailureMessage(functionName: string): string
  {
    "Unexpected failure on function " + functionName + ". It doesn't declare errors nor the module declares errors."
  }

  /** `handleFailure`: log a warning and let the original result through, or throw. */
  function HandleFailure(onFailure: OnFailure, functionName: string, errors: seq<Decoding.Error>, original: FunctionResult): (v: Verdict)
    ensures onFailure == Log ==> v == Verdict(Returned(original), [InvalidValueReturned(functionName, errors)])
    ensures onFailure == Throw ==> v == Verdict(Thrown(InvalidOutputValue(functionName, errors)), [])
  {
    if onFailure == Log then Verdict(Returned(original), [InvalidValueReturned(functionName, errors)])
    else Verdict(Thrown(InvalidOutputValue(functionName, errors)), [])
  }

  /** The retrieve the output must respect: the caller's, or, when it is `undefined` or `null`,
      by default everything when the output type can be selected on and nothing otherwise. */
  function RetrieveToRespect(args: Args, f: FunctionInfo): (v: Value)
    ensures !v.Undefined? && !v.Null?
    ensures args.retrieve.Some? && !args.retrieve.value.Undefined? && !args.retrieve.value.Null? ==>
      v == args.retrieve.value
  {
    Coalesce(args.retrieve, if f.retrieveTypeIsOk then SelectAll else EmptyObject)
  }

  /** `checkOutputType(onFailure)` applied to a call. */
  function CheckOutputType(onFailure: OnFailure, args: Args, next: Args -> Outcome, f: FunctionInfo): (v: Verdict)
    ensures |v.warnings| <= 1
    ensures v.warnings != [] ==> onFailure == Log && v.outcome == next(args)
  {
    match next(args)
    case Thrown(e) => Verdict(Thrown(e), [])
    case Returned(original) =>
      if original.Failure? then
        if f.errors.None? then Verdict(Thrown(UnexpectedFailure(UnexpectedFailureMessage(args.functionName))), [])
        else
          var mappedError := f.decodeFailure(original.error, FailureDecodingOptions);
          if mappedError.Failure? then HandleFailure(onFailure, args.functionName, mappedError.errors, original)
          else Verdict(Returned(original), [])
      else
        var mappedResult := f.decodeSelected(RetrieveToRespect(args, f), original.value, OutputDecodingOptions);
        if mappedResult.Failure? then HandleFailure(onFailure, args.functionName, mappedResult.errors, original)
        else Verdict(Returned(Ok(mappedResult.value)), [])
  }

  /** A failure from a function that declares no errors is always thrown, whatever the mode. */
  lemma UndeclaredFailureThrows(onFailure: OnFailure, args: Args, next: Args -> Outcome, f: FunctionInfo)
    requires next(args).Returned? && next(args).result.Failure? && f.errors.None?
    ensures CheckOutputType(onFailure, args, next, f)
         == Verdict(Thrown(UnexpectedFailure(UnexpectedFailureMessage(args.functionName))), [])
  {
  }

  /** A failure whose payload decodes against the declared errors comes back unchanged; one
      that does not is thrown under `'throw'`, or logged and returned unchanged under `'log'`. */
  lemma DeclaredFailure(onFailure: OnFailure, args: Args, next: Args -> Outcome, f: FunctionInfo)
    requires next(args).Returned? && next(args).result.Failure? && f.errors.Some?
    ensures var decoded := f.decodeFailure(next(args).result.error, FailureDecodingOptions);
      CheckOutputType(onFailure, args, next, f)
        == (if decoded.Success? then Verdict(next(args), [])
            else HandleFailure(onFailure, args.functionName, decoded.errors, next(args).result))
  {
  }

  /** On success the value is decoded against the selection the caller asked for (or the
      default one), allowing additional fields: the trimmed value is returned, and a value that
      does not decode is thrown under `'throw'`, or logged and returned as it was under `'log'`. */
  lemma OutputTrimmedToSelection(onFailure: OnFailure, args: Args, next: Args -> Outcome, f: FunctionInfo)
    requires next(args).Returned? && next(args).result.Ok?
    ensures var decoded := f.decodeSelected(RetrieveToRespect(args, f), next(args).result.value, OutputDecodingOptions);
      && (decoded.Success? ==> CheckOutputType(onFailure, args, next, f) == Verdict(Returned(Ok(decoded.value)), []))
      && (decoded.Failure? && onFailure == Throw ==>
            CheckOutputType(onFailure, args, next, f).outcome == Thrown(InvalidOutputValue(args.functionName, decoded.errors)))
      && (decoded.Failure? && onFailure == Log ==>
            CheckOutputType(onFailure, args, next, f).outcome == next(args))
  {
  }

  /** Under `'log'` the output check never throws an exception of its own about the value: it
      throws only what the chain threw or the undeclared-failure error. */
  lemma LogModeDoesNotThrowInvalidOutput(args: Args, next: Args -> Outcome, f: FunctionInfo)
    ensures var v := CheckOutputType(Log, args, next, f);
      v.outcome.Thrown? ==> v.outcome == next(args) || v.outcome.exception.UnexpectedFailure?
  {
  }

  /** Under `'throw'` nothing is logged. */
  lemma ThrowModeLogsNothing(args: Args, next: Args -> Outcome, f: FunctionInfo)
    ensures CheckOutputType(Throw, args, next, f).warnings == []
  {
  }

  // ---------------------------------------------------------------------------------------
  // checkPolicies

  /** The first declared error key whose type is the standard `UnauthorizedAccess` error. */
  function FirstUnauthorizedKey(errors: seq<(string, ErrorType)>): (key: Option<string>)
    ensures key.Some? ==> exists i :: 0 <= i < |errors| && errors[i] == (key.value, StandardUnauthorizedAccess)
                                      && forall j :: 0 <= j < i ==> errors[j].1 != StandardUnauthorizedAccess
    ensures key.None? ==> forall i :: 0 <= i < |errors| ==> errors[i].1 != StandardUnauthorizedAccess
  {
    if errors == [] then None
    else if errors[0].1 == StandardUnauthorizedAccess then Some(errors[0].0)
    else
      var key := FirstUnauthorizedKey(errors[1..]);
      assert forall i :: 1 <= i < |errors| ==> errors[i] == errors[1..][i - 1];
      if key.Some? then
        var i :| 0 <= i < |errors[1..]| && errors[1..][i] == (key.value, StandardUnauthorizedAccess)
                 && forall j :: 0 <= j < i ==> errors[1..][j].1 != StandardUnauthorizedAccess;
        assert errors[i + 1] == (key.value, StandardUnauthorizedAccess);
        key
      else key
  }

  /** The failure returned for a refused retrieve when the function declares where to put it. */
  function UnauthorizedFailure(key: string, details: Value): (r: FunctionResult)
    ensures r.Failure? && r.error.Obj? && |r.error.entries| == 1 && r.error.entries[0].0 == key
    ensures r.error.entries[0].1 == Obj([("message", Str("Unauthorized access.")), ("details", details)])
  {
    Failure(Obj([(key, Obj([("message", Str("Unauthorized access.")), ("details", details)]))]))
  }

  /** `checkPolicies(policies)` applied to a call. */
  function CheckPolicies(policiesOf: Args -> PolicyDecision, args: Args, next: Args -> Outcome, f: FunctionInfo): (o: Outcome)
    ensures policiesOf(args).Apply? &&
            f.checkRetrievePolicies(args.retrieve, policiesOf(args).policies.retrievePolicies).Refused? ==>
      !(o.Returned? && o.result.Ok?)
  {
    match policiesOf(args)
    case Skip => next(args)
    case Apply(policies) =>
      var policyResult := f.checkRetrievePolicies(args.retrieve, policies.retrievePolicies);
      var policyViolationErrorKey := FirstUnauthorizedKey(f.errors.GetOr([]));
      if policyResult.Refused? then
        if policyViolationErrorKey.Some? then Returned(UnauthorizedFailure(policyViolationErrorKey.value, policyResult.details))
        else Thrown(UnauthorizedAccess(policyResult.details))
      else
        match next(args.(retrieve := Some(Coalesce(policyResult.narrowedRetrieve, EmptyObject))))
        case Thrown(e) => Thrown(e)
        case Returned(functionResult) =>
          if functionResult.Ok? && |policies.mapperPolicies| > 0 then
            Returned(Ok(f.applyMapPolicies(policies.mapperPolicies, functionResult.value)))
          else Returned(functionResult)
  }

  /** `'skip'` passes the call on unchanged. */
  lemma SkipPassesThrough(policiesOf: Args -> PolicyDecision, args: Args, next: Args -> Outcome, f: FunctionInfo)
    requires policiesOf(args) == Skip
    ensures CheckPolicies(policiesOf, args, next, f) == next(args)
  {
  }

  /** A refused retrieve never reaches the function: it becomes the declared
      `UnauthorizedAccess` failure, or is thrown when none is declared. */
  lemma RefusalSkipsNext(policiesOf: Args -> PolicyDecision, args: Args, next: Args -> Outcome, other: Args -> Outcome,
                         f: FunctionInfo)
    requires policiesOf(args).Apply?
    requires f.checkRetrievePolicies(args.retrieve, policiesOf(args).policies.retrievePolicies).Refused?
    ensures CheckPolicies(policiesOf, args, next, f) == CheckPolicies(policiesOf, args, other, f)
    ensures var details := f.checkRetrievePolicies(args.retrieve, policiesOf(args).policies.retrievePolicies).details;
      var key := FirstUnauthorizedKey(f.errors.GetOr([]));
      CheckPolicies(policiesOf, args, next, f)
        == (if key.Some? then Returned(UnauthorizedFailure(key.value, details)) else Thrown(UnauthorizedAccess(details)))
  {
  }

  /** An allowed call runs with the retrieve the policies narrowed it to (`{}` when they give
      none); mapper policies rewrite only a successful result, and only when there are some. */
  lemma AllowedCallNarrowed(policiesOf: Args -> PolicyDecision, args: Args, next: Args -> Outcome, f: FunctionInfo)
    requires policiesOf(args).Apply?
    requires f.checkRetrievePolicies(args.retrieve, policiesOf(args).policies.retrievePolicies).Allowed?
    ensures var policies := policiesOf(args).policies;
      var narrowed := f.checkRetrievePolicies(args.retrieve, policies.retrievePolicies).narrowedRetrieve;
      var o := next(args.(retrieve := Some(Coalesce(narrowed, EmptyObject))));
      && (o.Thrown? ==> CheckPolicies(policiesOf, args, next, f) == o)
      && (o.Returned? && o.result.Failure? ==> CheckPolicies(policiesOf, args, next, f) == o)
      && (o.Returned? && policies.mapperPolicies == [] ==> CheckPolicies(policiesOf, args, next, f) == o)
      && (o.Returned? && o.result.Ok? && policies.mapperPolicies != [] ==>
            CheckPolicies(policiesOf, args, next, f) == Returned(Ok(f.applyMapPolicies(policies.mapperPolicies, o.result.value))))
  {
  }
}
