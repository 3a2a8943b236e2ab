/**
 * The model binder for a required `int` property: an ordered chain of checks
 * (configuration, presence, cardinality, emptiness, numeric, integral) that
 * either fails fatally, records one error message for the field, or sets
 * the binding result.
 */
module GovUkMandatoryIntBinder {
  import opened Wrappers
  import opened Int32Parsing
  import opened ModelBinding

  /** The error texts of the field's `GovUkDataBindingIntErrorTextAttribute`. */
  datatype ErrorText = ErrorText(errorMessageIfMissing: string, nameAtStartOfSentence: string)

  /** The exceptions the binder throws; their message text is not modelled. */
  datatype BinderException =
    | MissingErrorTextAttribute
    | TooManyValues(modelName: string, values: seq<string>)

  /** How a call ends: it returns, or it throws. */
  datatype Completion = Completed | Threw(exception: BinderException)

  /** What one call decides. `Invalid` names the error message and whether the raw value was recorded first. */
  datatype Decision =
    | Fatal(exception: BinderException)
    | Invalid(recordsValue: bool, message: string)
    | Bound(value: Int32)
  {
    predicate RecordsValue() {
      (Invalid? && recordsValue) || Bound?
    }
  }

  function MustBeNumber(text: ErrorText): string {
    text.nameAtStartOfSentence + " must be a number"
  }

  function MustBeWholeNumber(text: ErrorText): string {
    text.nameAtStartOfSentence + " must be a whole number"
  }

  /**
   * The decision the binder takes for the error texts, the field name and the
   * raw values supplied for it; `isNumber` stands for `double.TryParse`.
   */
  function Decide(errorText: Option<ErrorText>, modelName: string, values: seq<string>,
                  isNumber: string -> bool): (d: Decision)
    // A missing attribute is fatal whatever the input.
    ensures errorText.None? ==> d == Fatal(MissingErrorTextAttribute)
    // No value at all: the missing-value message, nothing recorded.
    ensures errorText.Some? && values == [] ==> d == Invalid(false, errorText.value.errorMessageIfMissing)
    // Several values: fatal, never a field error.
    ensures errorText.Some? && |values| > 1 ==> d == Fatal(TooManyValues(modelName, values))
    // Fatal exactly in those two cases.
    ensures d.Fatal? <==> errorText.None? || |values| > 1
    // With a single value, that value is recorded on every path, success included.
    ensures !d.Fatal? ==> (d.RecordsValue() <==> |values| == 1)
    // An empty value reads as a missing one.
    ensures errorText.Some? && values == [""] ==> d == Invalid(true, errorText.value.errorMessageIfMissing)
    ensures errorText.Some? && |values| == 1 && values[0] != "" && !isNumber(values[0])
            ==> d == Invalid(true, MustBeNumber(errorText.value))
    ensures errorText.Some? && |values| == 1 && values[0] != "" && isNumber(values[0]) && ParseInt(values[0]).None?
            ==> d == Invalid(true, MustBeWholeNumber(errorText.value))
    // Success only when every check passes, with the value `int.TryParse` gives.
    ensures d.Bound? <==> errorText.Some? && |values| == 1 && values[0] != ""
                          && isNumber(values[0]) && ParseInt(values[0]).Some?
    ensures d.Bound? ==> ParseInt(values[0]) == Some(d.value)
  {
    if errorText.None? then Fatal(MissingErrorTextAttribute)
    else if values == [] then Invalid(false, errorText.value.errorMessageIfMissing)
    else if |values| > 1 then Fatal(TooManyValues(modelName, values))
    else if values[0] == "" then Invalid(true, errorText.value.errorMessageIfMissing)
    else if !isNumber(values[0]) then Invalid(true, MustBeNumber(errorText.value))
    else match ParseInt(values[0])
      case None => Invalid(true, MustBeWholeNumber(errorText.value))
      case Some(v) => Bound(v)
  }

  /**
   * `BindModelAsync`: binds `bindingContext.modelName` from the context's value
   * provider. `errorText` is the field's error-text attribute, if it has one;
   * `isNumber` stands for `double.TryParse`.
   */
  method BindModel(bindingContext: BindingContext, errorText: Option<ErrorText>, isNumber: string -> bool)
    returns (c: Completion)
    modifies bindingContext
    ensures var name := bindingContext.modelName;
            var values := bindingContext.GetValue(name);
            var d := Decide(errorText, name, values, isNumber);
            && c == (if d.Fatal? then Threw(d.exception) else Completed)
            && bindingContext.modelValues
               == (if d.RecordsValue() then old(bindingContext.modelValues)[name := values]
                   else old(bindingContext.modelValues))
            && bindingContext.modelErrors
               == (if d.Invalid? then AppendError(old(bindingContext.modelErrors), name, d.message)
                   else old(bindingContext.modelErrors))
            && bindingContext.result == (if d.Bound? then Success(d.value) else old(bindingContext.result))
    // A call that returns either adds exactly one error under the field and leaves
    // `Result` alone, or adds none and sets `Result` to the value parsed from the
    // single raw value it recorded.
    ensures var name := bindingContext.modelName;
            c.Completed? ==>
              || (&& AddsOneError(old(bindingContext.modelErrors), bindingContext.modelErrors, name)
                  && bindingContext.result == old(bindingContext.result))
              || (&& bindingContext.modelErrors == old(bindingContext.modelErrors)
                  && name in bindingContext.modelValues
                  && bindingContext.modelValues[name] == bindingContext.GetValue(name)
                  && |bindingContext.modelValues[name]| == 1
                  && bindingContext.result.Success?
                  && ParseInt(bindingContext.modelValues[name][0]) == Some(bindingContext.result.model))
  {
    if errorText.None? {
      return Threw(MissingErrorTextAttribute);
    }
    var text := errorText.value;
    var modelName := bindingContext.modelName;
    var valueProviderResult := bindingContext.GetValue(modelName);
    ghost var d := Decide(errorText, modelName, valueProviderResult, isNumber);

    if valueProviderResult == [] {
      assert d == Invalid(false, text.errorMessageIfMissing);
      bindingContext.TryAddModelError(modelName, text.errorMessageIfMissing);
      return Completed;
    }

    if |valueProviderResult| > 1 {
      assert d == Fatal(TooManyValues(modelName, valueProviderResult));
      return Threw(TooManyValues(modelName, valueProviderResult));
    }

    bindingContext.SetModelValue(modelName, valueProviderResult);
    var value := valueProviderResult[0];

    if value == "" {
      assert d == Invalid(true, text.errorMessageIfMissing);
      bindingContext.TryAddModelError(modelName, text.errorMessageIfMissing);
      return Completed;
    }

    if !isNumber(value) {
      assert d == Invalid(true, MustBeNumber(text));
      bindingContext.TryAddModelError(modelName, MustBeNumber(text));
      return Completed;
    }

    var parsed := ParseInt(value);
    if parsed.None? {
      assert d == Invalid(true, MustBeWholeNumber(text));
      bindingContext.TryAddModelError(modelName, MustBeWholeNumber(text));
      return Completed;
    }

    assert d == Bound(parsed.value);
    bindingContext.result := Success(parsed.value);
    return Completed;
  }

  /** Every `int`, typed in the way `int.ToString()` writes it, is bound to itself. */
  lemma FormattedIntBinds(text: ErrorText, modelName: string, n: Int32, isNumber: string -> bool)
    requires isNumber(FormatInt(n))
    ensures Decide(Some(text), modelName, [FormatInt(n)], isNumber) == Bound(n)
  {
    ParseFormatRoundTrip(n);
  }

  /** A whole number outside the `int` range is a number but not a whole number to the binder. */
  lemma OutOfRangeIsNotWhole(text: ErrorText, modelName: string, n: int, isNumber: string -> bool)
    requires n < MinInt32 || MaxInt32 < n
    requires isNumber(FormatInt(n))
    ensures Decide(Some(text), modelName, [FormatInt(n)], isNumber) == Invalid(true, MustBeWholeNumber(text))
  {
    ParseRejectsOutOfRange(n);
  }

  /** A value made only of white space is not empty, so it gets a numeric error, never the missing-value one. */
  lemma BlankIsNotMissing(text: ErrorText, modelName: string, value: string, isNumber: string -> bool)
    requires value != [] && AllWhite(value)
    ensures Decide(Some(text), modelName, [value], isNumber)
            == Invalid(true, if isNumber(value) then MustBeWholeNumber(text) else MustBeNumber(text))
  {
    ParseWhiteIsNone(value);
  }

  /** The sample inputs "abc", "3.7" and "42", with the verdicts `double.TryParse` gives them. */
  lemma SampleNotANumber(text: ErrorText, modelName: string, isNumber: string -> bool)
    requires !isNumber("abc")
    ensures Decide(Some(text), modelName, ["abc"], isNumber) == Invalid(true, MustBeNumber(text))
  {
  }

  lemma SampleFraction(text: ErrorText, modelName: string, isNumber: string -> bool)
    requires isNumber("3.7")
    ensures Decide(Some(text), modelName, ["3.7"], isNumber) == Invalid(true, MustBeWholeNumber(text))
  {
    var s := "3.7";
    assert TrimStart(s) == s by { assert !IsWhite(s[0]); }
    assert TrimEnd(s) == s by { assert !IsWhite(s[|s| - 1]); }
    assert !AllDigits(s) by { assert !IsDigit(s[1]); }
    assert ParseInt(s) == None;
  }

  lemma SampleWholeNumber(text: ErrorText, modelName: string, isNumber: string -> bool)
    requires isNumber("42")
    ensures Decide(Some(text), modelName, ["42"], isNumber) == Bound(42)
  {
    assert FormatInt(42) == "42";
    FormattedIntBinds(text, modelName, 42, isNumber);
  }
}
