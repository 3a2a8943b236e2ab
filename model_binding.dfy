/**
 * The part of the host framework's model-binding context that the binder
 * reads and writes: the name of the field being bound, the raw request
 * values per field name, the model state (recorded raw values and error
 * messages, both keyed by field name) and the binding result.
 */
module ModelBinding {
  import opened Int32Parsing

  /** `ModelBindingResult`: `Failed` is the default, not-set result. */
  datatype ModelBindingResult = Failed | Success(model: Int32)

  /** The error messages recorded under `key`, oldest first. */
  function ErrorsFor(errors: map<string, seq<string>>, key: string): seq<string> {
    if key in errors then errors[key] else []
  }

  /** Model-state errors after one more message for `key`. */
  function AppendError(errors: map<string, seq<string>>, key: string, message: string): (r: map<string, seq<string>>)
    ensures r.Keys == errors.Keys + {key}
    ensures ErrorsFor(r, key) == ErrorsFor(errors, key) + [message]
    ensures forall k :: k in errors && k != key ==> k in r && r[k] == errors[k]
  {
    errors[key := ErrorsFor(errors, key) + [message]]
  }

  /** `after` is `before` with exactly one more message under `key`, and no other change to any key's messages. */
  ghost predicate AddsOneError(before: map<string, seq<string>>, after: map<string, seq<string>>, key: string) {
    && |ErrorsFor(after, key)| == |ErrorsFor(before, key)| + 1
    && ErrorsFor(after, key)[..|ErrorsFor(before, key)|] == ErrorsFor(before, key)
    && forall k :: k != key ==> ErrorsFor(after, k) == ErrorsFor(before, k)
  }

  class BindingContext {
    /** `ModelName`: the field being bound. */
    const modelName: string
    /** `ValueProvider`: the raw request values per field name. */
    const valueProvider: map<string, seq<string>>
    /** The raw values recorded in model state (`SetModelValue`). */
    var modelValues: map<string, seq<string>>
    /** The error messages recorded in model state (`TryAddModelError`). */
    var modelErrors: map<string, seq<string>>
    /** `Result`. */
    var result: ModelBindingResult

    constructor (modelName: string, valueProvider: map<string, seq<string>>)
      ensures this.modelName == modelName && this.valueProvider == valueProvider
      ensures modelValues == map[] && modelErrors == map[] && result == Failed
    {
      this.modelName := modelName;
      this.valueProvider := valueProvider;
      modelValues := map[];
      modelErrors := map[];
      result := Failed;
    }

    /**
     * `ValueProvider.GetValue(key)`: the values supplied for `key`, in order;
     * the empty sequence is `ValueProviderResult.None`.
     */
    function GetValue(key: string): seq<string> {
      if key in valueProvider then valueProvider[key] else []
    }

    /** `ModelState.SetModelValue(key, values)`: records the raw values for `key`. */
    method SetModelValue(key: string, values: seq<string>)
      modifies this
      ensures modelValues == old(modelValues)[key := values]
      ensures modelErrors == old(modelErrors) && result == old(result)
    {
      modelValues := modelValues[key := values];
    }

    /** `ModelState.TryAddModelError(key, message)`, as an unconditional append. */
    method TryAddModelError(key: string, message: string)
      modifies this
      ensures modelErrors == AppendError(old(modelErrors), key, message)
      ensures AddsOneError(old(modelErrors), modelErrors, key)
      ensures modelValues == old(modelValues) && result == old(result)
    {
      modelErrors := AppendError(modelErrors, key, message);
    }
  }
}
