# GovUkMandatoryIntBinder in Dafny

A model of `GovUkMandatoryIntBinder.BindModelAsync`. This is the model binder for a required `int`
form field, following the GOV.UK Design System's error-message conventions. For one field it reads
the error texts from the field's `GovUkDataBindingIntErrorTextAttribute` and the raw values the
request supplied. It then runs an ordered, short-circuiting chain of checks: configuration,
presence, cardinality, emptiness, numeric, integral. The call ends in exactly one of three ways:

- it throws;
- it records one error message for the field in model state;
- it sets `Result` to the bound `int`.

Modules:

- `ModelBinding` (`model_binding.dfy`): the part of the framework's binding context the binder
  touches. `BindingContext` is a class. It holds the model name and the value provider as
  constants. Its fields are the model state's recorded raw values, its error lists per key, and
  `Result`. It also has `SetModelValue` and `TryAddModelError`.
- `Int32Parsing` (`int32_parsing.dfy`): a concrete stand-in for `int.TryParse` (`ParseInt`). It
  follows the default integer number style: surrounding white space U+0009–U+000D and U+0020, an
  optional `+` or `-`, ASCII digits, then a check that the value is in
  [-2147483648, 2147483647]. `FormatInt` (`int.ToString()`) is a right inverse:
  `ParseInt(FormatInt(n)) == Some(n)` for every `int`. The converse does not hold, because
  `int.TryParse` also accepts a `+` sign, leading zeros and surrounding white space.
- `GovUkMandatoryIntBinder` (`mandatory_int_binder.dfy`): `Decide`, the pure decision the check
  chain takes, and `BindModel`, the step-by-step method. `BindModel` is proved to leave the
  context in exactly the state `Decide` prescribes.
- `Wrappers` (`wrappers.dfy`): `Option`.

Inputs that the framework or other libraries supply become parameters:

- the error-text attribute is `errorText: Option<ErrorText>`;
- `double.TryParse` is `isNumber: string -> bool`, about which nothing is assumed;
- the value provider is a map from field name to the ordered raw values. A missing key or an
  empty sequence is `ValueProviderResult.None`.

Exceptions become the `Completion` result `Threw(...)`.

Besides reporting errors, the binder changes the caller's context in two more ways. It records the
raw value in model state (`SetModelValue`), and it assigns `Result`. The model does both, as the
code does.

## Model

| member | source | states |
|---|---|---|
| `GovUkMandatoryIntBinder.BindModel` | ModelBinders/GovUkMandatoryIntBinder.cs:16-70 | The whole new context is what `Decide` prescribes. It throws exactly on a `Fatal` decision. It records the raw values under the model name only when the decision records them. It appends the decision's one message only on `Invalid`. It sets `Result` only on `Bound`, and every other field is unchanged. A call that returns either adds exactly one error under the field and leaves `Result` alone, or adds none and sets `Result` to `int.TryParse` of the single raw value it recorded. |
| `GovUkMandatoryIntBinder.Decide` | ModelBinders/GovUkMandatoryIntBinder.cs:18-68 | No error-text attribute is fatal whatever the input. No value gives the missing-value message with nothing recorded. More than one value is fatal and never a field error, and these are the only fatal cases. A single value is recorded on every later path, success included. An empty value gives the same missing-value message. A non-number gives "<name> must be a number". A number that `int.TryParse` rejects gives "<name> must be a whole number". The decision is `Bound(v)` exactly when every check passes, and then `int.TryParse` gave `v`. |
| `GovUkMandatoryIntBinder.FormattedIntBinds` | ModelBinders/GovUkMandatoryIntBinder.cs:62-68 | Every `int`, written as `int.ToString()` writes it and accepted by `double.TryParse`, is bound to that same `int`. |
| `GovUkMandatoryIntBinder.OutOfRangeIsNotWhole` | ModelBinders/GovUkMandatoryIntBinder.cs:62-65 | The decimal text of a whole number outside the `int` range gets "must be a whole number" when `double.TryParse` accepts it. |
| `GovUkMandatoryIntBinder.BlankIsNotMissing` | ModelBinders/GovUkMandatoryIntBinder.cs:48-65 | A non-empty value made only of white space passes the emptiness check. It gets "must be a number" or "must be a whole number", never the missing-value message. |
| `GovUkMandatoryIntBinder.SampleNotANumber` | ModelBinders/GovUkMandatoryIntBinder.cs:55-58 | "abc", which `double.TryParse` rejects, gets "must be a number". |
| `GovUkMandatoryIntBinder.SampleFraction` | ModelBinders/GovUkMandatoryIntBinder.cs:62-65 | "3.7", which `double.TryParse` accepts, gets "must be a whole number". |
| `GovUkMandatoryIntBinder.SampleWholeNumber` | ModelBinders/GovUkMandatoryIntBinder.cs:62-68 | "42", which `double.TryParse` accepts, is bound to 42. |
| `ModelBinding.BindingContext.SetModelValue` | ModelBinders/GovUkMandatoryIntBinder.cs:43 | Records the raw values under the key, replacing what was there. Errors and `Result` are unchanged. |
| `ModelBinding.BindingContext.TryAddModelError` | ModelBinders/GovUkMandatoryIntBinder.cs:30 | Appends the message to the key's error list, so that key gains exactly one error and no other key changes. Recorded values and `Result` are unchanged. |
| `ModelBinding.AppendError` | ModelBinders/GovUkMandatoryIntBinder.cs:30 | The key's errors gain the message at the end. Every other key keeps its errors, and the key set grows by that key only. |
| `Int32Parsing.ParseFormatRoundTrip` | ModelBinders/GovUkMandatoryIntBinder.cs:62 | `int.TryParse` of the decimal text `int.ToString()` writes for any `int` gives back that `int`. |
| `Int32Parsing.ParseRejectsOutOfRange` | ModelBinders/GovUkMandatoryIntBinder.cs:62 | `int.TryParse` fails on the decimal text of any whole number outside [-2^31, 2^31-1]. |
| `Int32Parsing.ParseIgnoresSurroundingWhite` | ModelBinders/GovUkMandatoryIntBinder.cs:62 | Leading and trailing white space never changes the outcome of `int.TryParse`. |
| `Int32Parsing.ParseWhiteIsNone` | ModelBinders/GovUkMandatoryIntBinder.cs:62 | `int.TryParse` fails on text made only of white space, the empty string included. |
| `Int32Parsing.TrimStart` | ModelBinders/GovUkMandatoryIntBinder.cs:62 | The result is the suffix left after a prefix made only of white space, and it does not itself start with white space. |
| `Int32Parsing.TrimEnd` | ModelBinders/GovUkMandatoryIntBinder.cs:62 | The result is the prefix left before a suffix made only of white space, and it does not itself end with white space. |
| `Int32Parsing.DigitsValue` | ModelBinders/GovUkMandatoryIntBinder.cs:62 | The value of k decimal digits is below 10^k. |
| `Int32Parsing.ParseShortDigits` | ModelBinders/GovUkMandatoryIntBinder.cs:62 | An optional sign followed by one to nine digits always passes the range check: `int.TryParse` accepts it and gives the signed value of the digits. |
| `Int32Parsing.ParseSignedDigits` | ModelBinders/GovUkMandatoryIntBinder.cs:62 | After trimming, an optional `+` or `-` followed by digits whose value is at most 2147483647 parses to the signed value of those digits. |

## Left out

- The ASP.NET model-binding plumbing is replaced by a plain parameter and a small state class. This covers `ModelBindingContext`, `IValueProvider` and `ModelMetadata`. The attribute lookup `ValidatorMetadata.OfType<>().SingleOrDefault()` becomes the `errorText` parameter. So the exception `SingleOrDefault` throws when two such attributes are present is not modelled.
- The exception messages, including `ContainerType.FullName`, are not modelled. `TooManyValues` keeps the field name and the values the message reports.
- `Task` and async are left out: the method completes synchronously, so it is an ordinary method returning a `Completion`.
- `double.TryParse` is a parameter, `isNumber`. Its floating-point and culture-dependent parsing lives in a library outside this model, and no relation between it and `int.TryParse` is assumed.
- `Int32Parsing.ParseInt` models `int.TryParse` for the invariant culture only. Culture-specific sign symbols are not modelled. Nor are the trailing NUL characters the .NET parser also skips.
- A null string value is modelled as the empty string. `string.IsNullOrEmpty` treats them alike, and a value provider result built from a null string has no values.
- `ModelBinding.BindingContext.TryAddModelError` is an unconditional append. The framework's maximum error count, and its `false` return when that count is reached, are not modelled.
- `ModelBinding.BindingContext.SetModelValue` records the raw values only. The framework's separate attempted-value string is not modelled.
