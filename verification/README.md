# Mondrian framework core, modelled in Dafny

This project models the runtime core of the mondrian framework's type system and module
layer and proves properties of it:

- **Paths** (`paths.dfy`): the immutable path attached to decoding errors. A path is a list of
  field, index and variant fragments. It renders as `$` followed by `.name` for fields and
  variants and `[i]` for indices. `Format` is the source's push-and-join loop, proved equal to
  the rendering.
- **Validator** (`validator.dfy`, `validator_properties.dfy`): the check of a type's semantic
  constraints on a decoded value: number bounds, string lengths and regex, array item
  bounds, object fields, union variants, optional, nullable and reference wrappers, custom
  validators. There are two error-reporting strategies, `stopAtFirstError` (the default) and
  `allErrors`. The loops of `validateObject`, `validateArrayElements` and `validateUnion` are
  methods proved equal to the recursive definition `InternalValidate`.
  `InternalValidate`, the loops and the properties in `validator_properties.dfy` are those of
  the corrected validator (see "## Findings"). The three defects found are modelled as
  written separately, one check at a time (`ValidateStringAsWritten`,
  `ValidateArrayAsWritten`, `UnionVerdictAsWritten`).
- **Boolean type** (`boolean_type.dfy`): decoding with and without type casting, encoding and
  validation of booleans.
- **Collection helpers** (`utils.dfy`): `filterMap` and `filterMapObject` as loops proved equal
  to "map then filter", and `containsKey`.
- **Projection types** (`projection.dfy`): the type of the selections a caller may make on a
  type, built lazily across recursive types.
- **Email type** (`email.dfy`): the `email()` custom type and its validator.
- **Middlewares** (`middleware.dfy`): the guards a module function runs through:
  - the maximum selection depth;
  - the output check, in `log` and `throw` modes;
  - the security policies.

`values.dfy` holds the JavaScript-like values all of these exchange. `decoding.dfy` holds the
decoder's options, errors and results.

Some behaviour follows the code, not the documentation:

- The email validator's account limit is 64 and its domain limit 255, although its messages
  say "longer than 63" and "longer than 254". The model keeps both the limits and the
  messages as written. Lengths, there and in the string validator, are JavaScript's: UTF-16
  code units, so a character outside the basic multilingual plane counts twice.
- Number bounds are `[bound, inclusivity]` pairs. A pair is always truthy in JavaScript, so a
  bound of 0 is enforced. A `multipleOf` of 0, on the other hand, is skipped.
- Passing `{ errorReportingStrategy: undefined }` to `validate` overrides the default with
  `undefined`. Neither loop then stops early, so that call reports every error
  (`Validator.MergeOptions`).
- Both validator loops break on the flag `encounteredError`, which stays set once set. Under
  `stopAtFirstError` they therefore stop right after the first failing part.

## Model

| member | source | states |
|---|---|---|
| `Values.NatToString` | packages/model/src/path.ts:45 | The decimal rendering of a number is non-empty and made of digits only. |
| `Values.NatToStringRoundTrip` | packages/model/src/path.ts:45 | The rendering of an index is unambiguous: its digits read back as the index. |
| `Values.Coalesce` | packages/module/src/middleware.ts:23 | `x ?? d`: the default when the value is missing, `undefined` or `null`, and the value itself otherwise. |
| `Values.Utf16Length` | packages/model/src/validator.ts:127 | JavaScript's string `length`: a character outside the basic multilingual plane counts as two UTF-16 code units, so the length lies between the number of characters and twice it. |
| `Values.Utf16LengthOfBasicText` | packages/model/src/validator.ts:127-130 | A string made only of basic-plane characters has as many code units as characters. |
| `Values.EmojiLength` | packages/model/src/validator.ts:127 | The one-character string `"\u{1F600}"` has length 2. |
| `Paths.Path.Rendered` | packages/model/src/path.ts:30-37 | Every rendered path starts with `$`. |
| `Paths.FragmentToString` | packages/model/src/path.ts:40-49 | A field or variant is written as its name. An index is written as `[`, its digits and `]`, at least three characters with no dot. |
| `Paths.FragmentToSeparator` | packages/model/src/path.ts:51-60 | The separator is empty exactly for an index, and a dot otherwise. |
| `Paths.IntToStringHasNoDot` | packages/model/src/path.ts:45 | The decimal rendering of an index, negative or not, contains no dot. |
| `Paths.Path.ToArray` | packages/model/src/path.ts:28 | The fragments returned rebuild the same path. They are empty exactly when the path renders as `$`. |
| `Paths.Path.Format` | packages/model/src/path.ts:30-37 | The loop that pushes a separator and a fragment text per fragment and joins the pieces returns exactly the path's rendering. |
| `Paths.Path.PrependFragment` | packages/model/src/path.ts:24 | Prepending puts the fragment in front of the old fragments. The new rendering is `$`, then the fragment's separator and text, then the old rendering without its `$`. |
| `Paths.Path.PrependField` | packages/model/src/path.ts:25 | The new path has one more fragment, the field, in front of the old ones. It renders as `$.name` followed by the old rendering without `$`. |
| `Paths.Path.PrependIndex` | packages/model/src/path.ts:26 | The new path has one more fragment, the index, in front of the old ones. It renders as `$[i]` glued to the old rendering without `$`. |
| `Paths.Path.PrependVariant` | packages/model/src/path.ts:27 | The new path has one more fragment, the variant, in front of the old ones. It renders as `$.name` followed by the old rendering without `$`. |
| `Paths.Empty` | packages/model/src/path.ts:6 | The empty path has no fragments and renders as exactly `$`. |
| `Paths.FromFragments` | packages/model/src/path.ts:7 | `toArray` of a path built from fragments gives those fragments back. |
| `Paths.PiecesAppend` | packages/model/src/path.ts:32-35 | The text of a concatenation of fragment runs is the concatenation of their texts. |
| `Paths.RenderedConcat` | packages/model/src/path.ts:30-37 | Rendering is compositional: outer fragments followed by inner ones render as the outer rendering plus the inner rendering without its `$`. |
| `Paths.FieldRenderings` | packages/model/src/path.ts:40-60 | The empty path, field `a`, and `select` then `friends` render as `$`, `$.a` and `$.select.friends`. |
| `Paths.IndexAndVariantRenderings` | packages/model/src/path.ts:40-60 | Index 2 renders as `$[2]`, field `a` then index 0 as `$.a[0]`, and a variant as `$.variant1`. |
| `Paths.IndexPieceHasNoDot` | packages/model/src/path.ts:44-45 | An index contributes no dot: its separator is empty and its text is `[` followed by the decimal index and `]`. |
| `Decoding.BaseFail` | packages/model/src/type-system/implementations/boolean.ts:52-53 | A base failure carries exactly one error: the given expected description and the value got, located at the root path `$`. |
| `BooleanType.DecodeWithoutValidation` | packages/model/src/type-system/implementations/boolean.ts:43-55 | Decoding succeeds iff the value is a boolean, or casting is on and the value is `"true"`, `"false"` or a number. A boolean decodes to itself, a string to whether it is `"true"`, and a number to whether it is non-zero. Any other value fails with the single error `boolean` at the root path. |
| `BooleanType.EncodeWithoutValidation` | packages/model/src/type-system/implementations/boolean.ts:35-37 | A boolean encodes as itself, and exact decoding gives it back. |
| `BooleanType.Validate` | packages/model/src/type-system/implementations/boolean.ts:39-41 | Every boolean is valid. |
| `BooleanType.DecodeEncode` | packages/model/src/type-system/implementations/boolean.ts:35-45 | Decoding an encoded boolean gives it back, under any options. |
| `BooleanType.ExactDecodingAcceptsOnlyBooleans` | packages/model/src/type-system/implementations/boolean.ts:44-53 | Without casting, exactly the booleans decode, and every other value fails at `$`. |
| `BooleanType.ValidateAgreesWithValidator` | packages/model/src/type-system/implementations/boolean.ts:39-41 | The boolean type's validation always succeeds, as the validator's rule for the boolean kind does. |
| `Validator.Prepend` | packages/model/src/validator.ts:31-38 | Prefixing keeps a result's verdict and its number of errors. Each error's path gains the piece in front, and nothing else about it changes. |
| `Validator.BaseFail` | packages/model/src/validator.ts:57 | A base failure is exactly one error, with the given assertion and value, at the empty path. |
| `Validator.PrependBaseFail` | packages/model/src/validator.ts:57 | A prefixed base failure is a single error whose path is the piece. |
| `Validator.FieldIndex` | packages/model/src/validator.ts:163 | The lookup `type.types[fieldName]` finds a declared field of that name, or reports that there is none. |
| `Validator.FieldResult` | packages/model/src/validator.ts:162-168 | An entry whose name the type does not declare passes. Every error of an entry has the entry's name as the first piece of its path. (Corrected validator.) |
| `Validator.ElementResults` | packages/model/src/validator.ts:213-218 | There is one result per element. Element `i`'s result succeeds iff the element validates against the element type, and each of its errors has `[i]` as the first piece of its path. (Corrected validator.) |
| `Validator.ValidateNumber` | packages/model/src/validator.ts:95-120 | A number is valid iff it is within the maximum, within the minimum and a multiple of `multipleOf` (or there are no options). Inclusive and exclusive bounds are honoured. A failure is one error at the empty path. Its message is the maximum's when the maximum is violated, and otherwise the minimum's when the minimum is violated. When both bounds hold, a failure carries the message `number must be mutiple of m` for the option's `m`. |
| `Validator.ValidateStringAsWritten` | packages/model/src/validator.ts:122-137 | The string check as written. It accepts everything without options. Otherwise it is the corrected check with any length bound of 0 dropped, because the bounds are tested for truthiness. Lengths are counted in UTF-16 code units, as JavaScript's `length` does. |
| `Validator.ValidateString` | packages/model/src/validator.ts:122-137 | A string is valid iff it is within the maximum length, within the minimum length and matches the regex (or there are no options). A failure is one error at the empty path. Its message is that of the first violated check, in the order maximum, minimum, regex. Lengths are counted in UTF-16 code units, as JavaScript's `length` does. |
| `Validator.EmojiExceedsMaxLengthOne` | packages/model/src/validator.ts:122-137 | Under `{maxLength: 1}` the one-character string `"\u{1F600}"` fails with `string longer than max length (1)`, because its length is 2. |
| `Validator.ZeroMaxLengthIgnored` | packages/model/src/validator.ts:127 | As written, a `maxLength` of 0 accepts `"a"`. The corrected check rejects it with `string longer than max length (0)`. |
| `Validator.FirstFailure` | packages/model/src/validator.ts:169-171 | Under `stopAtFirstError` the parts succeed together iff each succeeds. A failure is the result of a failing part all of whose predecessors succeed. |
| `Validator.AllErrorsOfFromParts` | packages/model/src/validator.ts:163-168 | Every accumulated error is an error of one of the parts. |
| `Validator.CollectFromParts` | packages/model/src/validator.ts:155-174 | Every error an accumulation reports, under either strategy, is an error of one of the parts. |
| `Validator.AccumulatedUpToFirstFailure` | packages/model/src/validator.ts:169-173 | A loop that broke at the first failing part returns what the accumulation specifies. |
| `Validator.AccumulateTurn` | packages/model/src/validator.ts:214-224 | One turn of the validation loop keeps the loop state accumulated: the flag records whether some part so far failed, and the errors are those of the parts so far. Breaking after a failure under `stopAtFirstError` returns the accumulation's result. |
| `Validator.AccumulatedAll` | packages/model/src/validator.ts:162-173 | A loop that ran over every part returns what the accumulation specifies. |
| `Validator.ValidateArrayAsWritten` | packages/model/src/validator.ts:189-205 | The array check as written. Without options it succeeds without looking at the elements. Otherwise it is the corrected check with any item bound of 0 dropped. |
| `Validator.ValidateArray` | packages/model/src/validator.ts:189-205 | The item bounds are checked before any element. Too many items gives the single `array must have at most` error, too few the `at least` one. Within bounds, the result is the accumulation of the element results. |
| `Validator.FirstMatchingVariant` | packages/model/src/validator.ts:241-245 | Finds the first variant whose check holds of the value, or reports that no variant's check holds. |
| `Validator.UnionVerdictAsWritten` | packages/model/src/validator.ts:250-256 | The verdict as written succeeds iff the chosen variant fails, and it fails with no errors. |
| `Validator.UnionVerdict` | packages/model/src/validator.ts:250-256 | The corrected verdict is the chosen variant's own. It succeeds iff the variant's validation does, and each of its errors is the variant's error at the same position, with the same assertion and value, and the variant name in front of its path. (Corrected validator.) |
| `Validator.ValidateObject` | packages/model/src/validator.ts:155-174 | The loop over the object's entries returns exactly the validator's result for an object value. (Corrected validator.) |
| `Validator.ObjectValidation` | packages/model/src/validator.ts:87 | An object value is validated by accumulating its entries' results. (Corrected validator.) |
| `Validator.ArrayValidation` | packages/model/src/validator.ts:89 | An array value is validated by the array check over its elements' results. (Corrected validator.) |
| `Validator.ValidateArrayElements` | packages/model/src/validator.ts:207-227 | The loop over the items returns exactly the accumulation of the element results. (Corrected validator.) |
| `Validator.ValidateUnion` | packages/model/src/validator.ts:237-260 | The loop over the variants returns exactly the validator's result for a union. (Corrected validator.) |
| `Validator.MergeOptions` | packages/model/src/validator.ts:65-72 | The merged options stop at the first error iff no options are given, the strategy is left out, or it is given as `stopAtFirstError`. A given strategy is kept. |
| `Validator.InternalValidate` | packages/model/src/validator.ts:74-93 | Booleans, enumerations and literals always validate. A failed number or string check is one error about the value itself, at the empty path. (Corrected validator.) |
| `Validator.Validate` | packages/model/src/validator.ts:65-72 | Without options the default strategy, `stopAtFirstError`, applies. An explicit `errorReportingStrategy: undefined` replaces it, so no loop stops early. (Corrected validator.) |
| `ValidatorProperties.ScalarsAlwaysValid` | packages/model/src/validator.ts:80-82 | Booleans, enumerations and literals always validate. |
| `ValidatorProperties.WrappersDelegate` | packages/model/src/validator.ts:139-153 | Optional accepts `undefined` and nullable accepts `null` without consulting the wrapped type. Otherwise both delegate to it. A reference always delegates. (Corrected validator.) |
| `ValidatorProperties.StopAtFirstReportsOneError` | packages/model/src/validator.ts:74-93 | Under `stopAtFirstError`, a failed validation of any type reports exactly one error (given custom validators that do the same). (Corrected validator.) |
| `ValidatorProperties.FieldsReportOneError` | packages/model/src/validator.ts:155-174 | Under `stopAtFirstError` an object reports at most one error. (Corrected validator.) |
| `ValidatorProperties.ElementsReportOneError` | packages/model/src/validator.ts:207-227 | Under `stopAtFirstError` an array's elements report at most one error. (Corrected validator.) |
| `ValidatorProperties.FirstFailureOfSingles` | packages/model/src/validator.ts:169-171 | Stopping at the first failure keeps a single-error failure single. (Corrected validator.) |
| `ValidatorProperties.ArrayValidIffElementsValid` | packages/model/src/validator.ts:189-227 | An array within its item bounds is valid iff every element is, under either strategy. (Corrected validator.) |
| `ValidatorProperties.ArrayErrorsPointAtElements` | packages/model/src/validator.ts:207-227 | Every error reported for an array within bounds starts with `[i]` for an element `i` that failed. (Corrected validator.) |
| `ValidatorProperties.ObjectErrorsPointAtFields` | packages/model/src/validator.ts:155-174 | Every error reported for an object starts with the name of a declared field present in the value. (Corrected validator.) |
| `ValidatorProperties.StopAtFirstReportsFirstFailingElement` | packages/model/src/validator.ts:207-227 | Under `stopAtFirstError` an array's errors are those of its first failing element, prefixed with its index. Every earlier element is valid. (Corrected validator.) |
| `ValidatorProperties.AllErrorsOfContainsPart` | packages/model/src/validator.ts:213-218 | The accumulated errors include every error of every part. (Corrected validator.) |
| `ValidatorProperties.AllErrorsReportsEveryElement` | packages/model/src/validator.ts:207-227 | Under `allErrors` every error of every failing element is reported, with its index in front. (Corrected validator.) |
| `ValidatorProperties.ZeroMaxItemsIgnored` | packages/model/src/validator.ts:198 | As written, a `maxItems` of 0 accepts a one-item array. The corrected check rejects it with `array must have at most 0 items`. |
| `ValidatorProperties.SevenAboveFive` | packages/model/src/validator.ts:102-103 | Under an inclusive maximum of 5, the number 7 fails with `number must be less than or equal to 5`. |
| `ValidatorProperties.ArrayWithoutOptionsSkipsElements` | packages/model/src/validator.ts:194-196 | As written, an array type without options accepts an element above its maximum. The corrected validator reports that element's error under `[0]`. |
| `ValidatorProperties.UnionVerdictInverted` | packages/model/src/validator.ts:256 | As written, a value the chosen variant accepts fails with no errors, and a value it rejects passes. Corrected, the first is valid and the second reports the variant's error under the variant's name. |
| `Utils.FilterMap` | packages/model/src/utils.ts:7-16 | The loop returns exactly the input mapped and with `undefined` results removed. |
| `Utils.MapThenFilterAppend` | packages/model/src/utils.ts:9-15 | Filter-mapping distributes over concatenation, so kept values keep their relative order. |
| `Utils.MapThenFilterContents` | packages/model/src/utils.ts:7-16 | The output is no longer than the input. A value is in it iff some element maps to it. |
| `Utils.MapThenFilterTotal` | packages/model/src/utils.ts:7-16 | With a mapper that never returns `undefined`, filter-mapping is mapping. |
| `Utils.KeysCons` | packages/model/src/utils.ts:33 | Putting an entry in front of an object adds exactly its key to the object's keys. The result has distinct keys iff the new key is not among the old ones and the old keys are distinct. |
| `Utils.Assign` | packages/model/src/utils.ts:33 | Assigning a key adds that key and no other, keeps keys distinct, and places a new key after the existing entries. The given value is stored under the key. Assigning an existing key keeps the number of entries. |
| `Utils.FilterMapObject` | packages/model/src/utils.ts:25-37 | The loop returns exactly the object built by assigning each defined mapped value under its field name. |
| `Utils.MapEntriesKeys` | packages/model/src/utils.ts:25-37 | A key is kept iff some entry under it maps to a defined value. The result's keys are among the input's, and none repeats. |
| `Utils.MapEntriesOfObject` | packages/model/src/utils.ts:25-37 | On an object, `filterMapObject` equals filter-mapping its entries: each kept key keeps its mapped value, in enumeration order. |
| `Utils.ContainsKey` | packages/model/src/utils.ts:44-46 | True iff some pair's first component is the key looked up. |
| `Projection.Project` | src/mondrian/projection.ts:18-60 | Every projection is a projection type and never a bare object. A projection type is `boolean()`, a projection thunk, or a union of `boolean()` and a strict object of optional projection types. |
| `Projection.ProjectFields` | src/mondrian/projection.ts:36-42 | Projecting an object's fields keeps their number and makes each an optional projection type. |
| `Projection.ObjectVariants` | src/mondrian/projection.ts:51-56 | The kept union variants are at most the variants, each an optional projection type. |
| `Projection.IsObjectKindResolves` | src/mondrian/projection.ts:52 | The kind test on union variants holds iff the variant resolves to an object. |
| `Projection.ScalarsProjectToBoolean` | src/mondrian/projection.ts:22-32 | Every scalar kind projects to `boolean()`. |
| `Projection.DecoratorsTransparent` | src/mondrian/projection.ts:47-49 | Array, optional and default decorators are transparent to projection. |
| `Projection.ObjectProjection` | src/mondrian/projection.ts:33-46 | An object projects to `union({first: boolean(), second: strict object})`. That object has the same field names in order, each the optional projection of the field. |
| `Projection.UnionProjection` | src/mondrian/projection.ts:50-58 | A union projects to `union({all: boolean(), object: strict object})`, whose fields are the kept object variants. |
| `Projection.ObjectVariantsMembers` | src/mondrian/projection.ts:50-58 | The kept variants are exactly the variants of object kind, each as the optional projection of the variant. |
| `Projection.ObjectVariantsAppend` | src/mondrian/projection.ts:51-58 | Keeping the object variants distributes over concatenation, so the kept variants stay in declaration order, as `flatMap` keeps them. |
| `Projection.LazyProjection` | src/mondrian/projection.ts:19-21 | A lazy type projects to a thunk without looking at what the thunk yields. Forcing that thunk yields the projection of what the original yields. |
| `Projection.Resolve` | src/mondrian/projection.ts:19-21 | Forcing a declared thunk gives its declared body. Forcing a projection thunk gives a projection type that is not an object. |
| `Projection.LazyToType` | src/mondrian/projection.ts:20 | A type that is not a thunk is returned unchanged. A forced projection thunk is a projection type. |
| `Projection.RecursiveProjection` | src/mondrian/projection.ts:19-46 | For a recursive `User` type, projection stops at the recursive thunk, and forcing it unfolds exactly one more level. |
| `Email.Split` | packages/advanced-types/src/types/email.ts:20 | Splitting on a character gives one more piece than the string has separators. |
| `Email.SplitJoin` | packages/advanced-types/src/types/email.ts:20 | Joining the pieces back gives the string, and no piece holds the separator. |
| `Email.ValidateEmail` | packages/advanced-types/src/types/email.ts:18-36 | An address is valid iff it has exactly one `@`, an account of at most 64 UTF-16 code units, an address part of at most 255, no dot-separated label longer than 63, and the regex holds. A failure is the single error of the first check failed, in that order. |
| `Email.SplitAtSeparator` | packages/advanced-types/src/types/email.ts:20-25 | A string with a single separator splits into what precedes it and what follows it. |
| `Email.NoSeparatorSplit` | packages/advanced-types/src/types/email.ts:20 | A string without the separator splits into itself. |
| `Email.AccountAndAddress` | packages/advanced-types/src/types/email.ts:20-29 | With its only `@` at position `i`, the account is the text before it and the address the text after it. An account over 64 UTF-16 code units gives the account message. Otherwise an address over 255 gives the domain message. |
| `Email.Decode` | packages/advanced-types/src/types/email.ts:9 | Decoding succeeds iff the value is a string, which it returns unchanged. Otherwise it fails with `Expected a mail string` at the root. |
| `Email.Encode` | packages/advanced-types/src/types/email.ts:8 | An address encodes as the string itself, which decodes back to it. |
| `Email.EmailType` | packages/advanced-types/src/types/email.ts:5-13 | `email()` is the custom type named `email`. |
| `Email.DecodeEncode` | packages/advanced-types/src/types/email.ts:8-9 | Decoding an encoded address gives it back. |
| `Email.EmailTypeValidates` | packages/advanced-types/src/types/email.ts:5-13 | Validating a string against `email()` runs `validateEmail` and reports at most one error. |
| `Middleware.CheckMaxSelectionDepth` | packages/module/src/middleware.ts:22-28 | A selection deeper than the maximum throws `MaxSelectionDepthReached(depth, maxDepth)`. Otherwise the outcome is `next` on the unchanged arguments. A `retrieve` that is `undefined` or `null` counts as `{}`. |
| `Middleware.DepthGuardSkipsNext` | packages/module/src/middleware.ts:23-26 | When the selection is too deep, the outcome does not depend on `next`, so the function never runs. |
| `Middleware.CheckOutputType` | packages/module/src/middleware.ts:37-84 | At most one warning is logged, and only in `log` mode, in which case the call's own outcome is returned. |
| `Middleware.RetrieveToRespect` | packages/module/src/middleware.ts:68-71 | The retrieve used to check the output is never `undefined` or `null`. A defined caller retrieve is used as given. |
| `Middleware.HandleFailure` | packages/module/src/middleware.ts:86-110 | In `log` mode the original result is returned with one warning. In `throw` mode `InvalidOutputValue` is thrown and nothing is logged. |
| `Middleware.UndeclaredFailureThrows` | packages/module/src/middleware.ts:51-56 | A failure from a function that declares no errors is thrown as an unexpected failure, in either mode. |
| `Middleware.DeclaredFailure` | packages/module/src/middleware.ts:57-66 | A failure whose payload decodes against the declared errors is returned unchanged. Otherwise the failure is handled per mode. |
| `Middleware.OutputTrimmedToSelection` | packages/module/src/middleware.ts:68-81 | On success the value is decoded against the requested, or default, selection. A decoded value is returned trimmed. An undecodable one is thrown under `throw` and returned as it was under `log`. |
| `Middleware.LogModeDoesNotThrowInvalidOutput` | packages/module/src/middleware.ts:97-109 | In `log` mode the output check throws only what the chain threw, or the unexpected-failure error. |
| `Middleware.ThrowModeLogsNothing` | packages/module/src/middleware.ts:97-109 | In `throw` mode nothing is logged. |
| `Middleware.FirstUnauthorizedKey` | packages/module/src/middleware.ts:142-144 | Finds the first declared error key whose type is the standard `UnauthorizedAccess` error, or reports that there is none. |
| `Middleware.CheckPolicies` | packages/module/src/middleware.ts:116-169 | A retrieve the policies refuse never yields a successful result. |
| `Middleware.UnauthorizedFailure` | packages/module/src/middleware.ts:146-151 | The failure payload is an object with the single declared key. Its value carries the message `Unauthorized access.` and the policy's details. |
| `Middleware.SkipPassesThrough` | packages/module/src/middleware.ts:132-134 | `skip` runs `next` on the unchanged arguments. |
| `Middleware.RefusalSkipsNext` | packages/module/src/middleware.ts:145-155 | A refused retrieve never reaches the function. It becomes the declared unauthorized failure `{message: 'Unauthorized access.', details}`, or `UnauthorizedAccess` is thrown. |
| `Middleware.AllowedCallNarrowed` | packages/module/src/middleware.ts:156-166 | An allowed call runs with the narrowed retrieve, or `{}` when that is `undefined` or `null`. Mapper policies rewrite only a successful result, and only when there are some. |

## Left out

- Numbers are integers. JavaScript's floating point is not modelled: NaN, `-0`, fractional bounds, and `%` on non-integers.
- Regular expressions are uninterpreted predicates on strings. This covers the string option `regex` and the email regex.
- `prependToPath` mutates the shared error in place (packages/model/src/validator.ts:31-38). The model builds new errors and keeps only the resulting paths, so aliasing between shared errors is not captured.
- `types.concretise`, and the decoder in general, are not part of this model. The validator receives an already concrete type.
- Validator.FieldResults: a field the object type does not declare is treated as valid. The source would pass `undefined` to `concretise`, which is not part of this model.
- Validator.InternalValidate: there is no composite validator as written. The recursive definition, and so every property in `validator_properties.dfy`, uses the corrected string, array and union checks. As written, a union whose chosen variant passes returns `fail([])` and an array type without options skips its elements, so `StopAtFirstReportsOneError` would not hold of the code as written.
- Validator.InternalValidate: a value whose shape does not belong to its type (a string under a number type, say) is accepted. The source's static types exclude such values.
- Custom types receive their own options through the closure `validate`. The type-specific options argument is not modelled separately.
- Projection.LazyProjection (and Projection.Resolve): forcing a projection thunk resolves its source one step. When a declared body is itself a thunk, or a decorator over a thunk such as `ArrayDecorator(Lazy(B))`, the forced projection can still be a thunk, whereas src/mondrian/projection.ts:20 applies `lazyToType` once more to the result. `lazyToType` (src/mondrian/utils.ts) is not part of this model.
- The compile-time projection types `Projection<T>` and `GenericProjection` (src/mondrian/projection.ts:4-16) carry no runtime behaviour.
- Middlewares are modelled as functions of the call. Their collaborators are fields of `Middleware.FunctionInfo`: `retrieve.selectionDepth`, `retrieve.fromType`, `retrieve.selectedType` with the output decoder, `utils.decodeFunctionFailure`, `security.checkPolicies`, `applyMapPolicies`.
- The asynchrony of `await` is not modelled. A rejected `next` is a thrown outcome that propagates.
- The `policies` callback of `checkPolicies` is a total function, so a rejection of its promise is not modelled.
- The logger's message text and payload are not modelled. The model records one warning per failure handled in `log` mode, with the function name and the errors.
- Utils.Assign: a JavaScript object lists integer-like keys first, in numeric order. The model keeps plain insertion order.
- Middleware.CheckPolicies: the mapper set's `size` is the length of a sequence of policies.

## Findings

| source | as written | input that shows it | evidently intended | confidence | as-written member | corrected member |
|---|---|---|---|---|---|---|
| packages/model/src/validator.ts:127 | `maxLength && value.length > maxLength` skips the check when `maxLength` is 0 | string options `{maxLength: 0}` and the string `"a"` | a maximum length of 0 admits only the empty string | medium, not executed | `Validator.ValidateStringAsWritten` | `Validator.ValidateString` |
| packages/model/src/validator.ts:198 | `maxItems && value.length > maxItems` skips the check when `maxItems` is 0 | array options `{maxItems: 0}` and the array `[1]` | a maximum of 0 items admits only the empty array | medium, not executed | `Validator.ValidateArrayAsWritten` | `Validator.ValidateArray` |
| packages/model/src/validator.ts:194-196 | an array type without options returns success before validating its elements | `array(number({maximum: [5, 'inclusive']}))` and the value `[7]` | the elements are validated whatever the array options | medium, not executed | `Validator.ValidateArrayAsWritten` | `Validator.ValidateArray` |
| packages/model/src/validator.ts:256 | `encounteredError ? succeed() : fail(validationErrors)` succeeds when the chosen variant fails and fails, with no errors, when it passes | a union with one variant `small` checked by "is a number", of type `number({maximum: [5, 'inclusive']})`, and the values 3 and 7 | the chosen variant's result, with its errors prefixed by the variant name | high, not executed | `Validator.UnionVerdictAsWritten` | `Validator.UnionVerdict` |
