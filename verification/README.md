# ServiceResult in Dafny

A model of `ServiceResult<T>` from BsSnazzySnippets: a service-layer outcome container. Each
record carries four fields: a status code, an optional value, an optional inner exception and
an optional error message. Success is decided by the status code alone (`Ok`). Beside the
record sits the static factory class `ServiceResult`, with `Success`, two `Failure` overloads
and `FailureFromServiceResult`. The last one re-packages an existing result under a new value
type: it always keeps the source's inner exception, and each of the message and the status is
taken from the caller's override when one is given and from the source otherwise.

- `ServiceResult.dfy` (module `ServiceResults`): the record as a datatype, its members
  (`IsSuccess`, `IsFailure`, `Get`, `TryGet`, `PassThroughFail`) and the factories (`Success`,
  `FromValue`, `Failure`, `FailureWithMessage`, `FailureFromServiceResult`).
- `ServiceResultProperties.dfy` (module `ServiceResultProperties`): lemmas over all inputs.
  This covers the override-else-inherit rules, how pass-throughs compose and round-trips. It
  also covers what survives a chain of callers that each pass a failure on (`PassThroughAll`).

Modelling choices:
- C# `null` is `None`, and every nullable field and argument is an `Option`.
- The `??` operator is `Option.OrElse` (nullable fallback) or `Option.GetOr` (non-null fallback).
- `System.Exception` is an opaque type with equality.
- The enum `ResultStatusCode` is `Ok | GenericFailure | Other(tag)`, because its other
  enumerators are not part of this model. A `tag` names an enumerator distinct from `Ok` and
  `GenericFailure`; it is not the enum's integer value.
- C# default parameter values are Dafny default-value parameters.
- The two `Failure` overloads are `Failure` (exception, message, code, value) and
  `FailureWithMessage` (message, code, value).
- The implicit conversion from a value is the explicit function `FromValue`.
- `Get`'s `ArgumentNullException` is its precondition `Value.Some?`.
- `TryGet`'s `out` parameter is the second component of a returned pair. In C# it is
  `Value ?? default`, and `default(T)` is null exactly when `Value` can be null, so the out
  value is `Value` itself: an `Option`, `None` when nothing is found.

The code does not stop `Failure` from being called with `Ok`, even though its name and
documentation imply a failure. The model follows the code: `Failure` has no precondition on
the status code, and `Failure(statusCode := Ok)` is a success. In the same way,
`FailureFromServiceResult` inherits the source's status verbatim. Re-packaging a success
without a status override therefore gives a success (`NoOverrideInherits`,
`PassThroughAllWithoutStatusOverride`).

## Model

| member | source | states |
|---|---|---|
| ServiceResults.Success | BsSnazzySnippets/Results/ServiceResult.cs:13-15 | the result is a success (IsSuccess holds, IsFailure does not), holds the given value and has neither exception nor message |
| ServiceResults.FromValue | BsSnazzySnippets/Results/ServiceResult.cs:78 | converting a bare value gives a success holding that value, with no exception and no message |
| ServiceResultProperties.FromValueIsSuccess | BsSnazzySnippets/Results/ServiceResult.cs:71-78 | the conversion and Success give the same record `(Ok, value, null, null)` |
| ServiceResults.Failure | BsSnazzySnippets/Results/ServiceResult.cs:26-36 | each argument lands verbatim in its field; the result is a failure exactly when the given code is not Ok |
| ServiceResultProperties.DefaultFailureIsFailure | BsSnazzySnippets/Results/ServiceResult.cs:26-50 | with the default status code both overloads give GenericFailure, a failure, even when a value is supplied |
| ServiceResultProperties.CoalesceLaws | BsSnazzySnippets/Results/ServiceResult.cs:68 | the `??` used by the override rules: null is neutral on both sides, chains group either way, and a non-null fallback equals the nullable one unwrapped |
| ServiceResultProperties.FailureRebuilds | BsSnazzySnippets/Results/ServiceResult.cs:26-36 | every record is rebuilt by Failure from its own four fields |
| ServiceResults.FailureWithMessage | BsSnazzySnippets/Results/ServiceResult.cs:46-50 | the message-only overload has no inner exception, stores the message, and keeps the code and value it was given |
| ServiceResultProperties.MessageOverloadIsFailure | BsSnazzySnippets/Results/ServiceResult.cs:46-50 | the message-only overload equals Failure with a null exception |
| ServiceResults.FailureFromServiceResult | BsSnazzySnippets/Results/ServiceResult.cs:63-68 | the inner exception is always the source's; the message is the override if given, else the source's; the status is the override if given, else the source's; the value is the caller's |
| ServiceResultProperties.NoOverrideInherits | BsSnazzySnippets/Results/ServiceResult.cs:63-68 | without overrides all diagnostic fields are inherited and only the value is replaced; a success source gives a success |
| ServiceResultProperties.MessageOverrideOnly | BsSnazzySnippets/Results/ServiceResult.cs:63-68 | a message override replaces the message and nothing else |
| ServiceResultProperties.SuccessIffOk | BsSnazzySnippets/Results/ServiceResult.cs:80-81 | IsSuccess holds exactly when the status is Ok, IsFailure is its negation, and the value plays no part |
| ServiceResults.ServiceResult.Get | BsSnazzySnippets/Results/ServiceResult.cs:83-86 | defined only when a value is present, whatever the status; it returns that value |
| ServiceResultProperties.GetRoundTrip | BsSnazzySnippets/Results/ServiceResult.cs:83-86 | Get gives back the value put in by Success, and also by Failure with any status code |
| ServiceResults.ServiceResult.TryGet | BsSnazzySnippets/Results/ServiceResult.cs:88-92 | reports true exactly when a value is present and then hands it out; otherwise it hands out null |
| ServiceResultProperties.TryGetAgreesWithGet | BsSnazzySnippets/Results/ServiceResult.cs:83-92 | when TryGet reports true its value is Get's; a success without a value reports false |
| ServiceResults.ServiceResult.PassThroughFail | BsSnazzySnippets/Results/ServiceResult.cs:94-100 | the same field rules as FailureFromServiceResult, applied to the receiver |
| ServiceResultProperties.PassThroughIsFailureFrom | BsSnazzySnippets/Results/ServiceResult.cs:94-100 | `r.PassThroughFail(v, m, c)` equals `FailureFromServiceResult(r, v, m, c)` |
| ServiceResultProperties.PassThroughOwnValueIsIdentity | BsSnazzySnippets/Results/ServiceResult.cs:63-68 | passing a result through with its own value and no overrides gives back the same record |
| ServiceResultProperties.PassThroughTwice | BsSnazzySnippets/Results/ServiceResult.cs:63-68 | two pass-throughs equal one with the later value and, per field, the later override if present, else the earlier |
| ServiceResultProperties.PassThroughAllKeepsException | BsSnazzySnippets/Results/ServiceResult.cs:63-68 | after any number of pass-throughs the inner exception is still the original one |
| ServiceResultProperties.PassThroughAllValue | BsSnazzySnippets/Results/ServiceResult.cs:63-68 | after a non-empty chain the value is the last caller's |
| ServiceResultProperties.PassThroughAllLastMessage | BsSnazzySnippets/Results/ServiceResult.cs:63-68 | after a chain the message is that of the last layer that overrode it |
| ServiceResultProperties.PassThroughAllLastStatus | BsSnazzySnippets/Results/ServiceResult.cs:63-68 | after a chain the status is that of the last layer that overrode it |
| ServiceResultProperties.PassThroughAllWithoutMessageOverride | BsSnazzySnippets/Results/ServiceResult.cs:63-68 | when no layer overrides the message, the original message survives the chain |
| ServiceResultProperties.PassThroughAllWithoutStatusOverride | BsSnazzySnippets/Results/ServiceResult.cs:63-68 | when no layer overrides the status, the original status survives the chain, so a success stays a success |

## Left out

- Exception objects: their type, message and stack belong to the .NET library. Only their identity is modelled.
- The members the C# compiler generates for a record (`Equals`, `GetHashCode`, `ToString`, `with`, `Deconstruct`): Dafny datatype equality and update stand in for them.
- The implicit conversion as a language mechanism: it is the explicit `FromValue`.
- Nullability of `T?` for unconstrained generic T: when T is a non-nullable value type (such as `int`), `T?` is T itself and `default(T)` is not null, so there `Get` never throws, `TryGet` always reports true, and the default `value` of both `Failure` overloads is `default(T)` (such as `0`) rather than null. The model treats `Value` uniformly as an `Option` whose default is `None`, which matches reference types and nullable value types such as `int?`.
- ServiceResults.ServiceResult.Get: the exception type and text thrown on a missing value are not modelled; the throw is the precondition.
- The enumerators of `ResultStatusCode` other than `Ok` and `GenericFailure`: that enum is not part of this model, so they are the open case `Other(tag)`.
- PassThroughAll: a chain of pass-throughs here keeps one value type throughout. In C# each step may change it, but the diagnostic fields the lemmas speak of do not depend on the value type (`PassThroughTwice` covers changing types for two steps).
