/** The `[DateTimeValidation(format)]` attribute that checks date strings on
    the wire records. */
module Validators {
  import opened Wrappers
  import opened Dates

  /** The value the validation framework hands to the attribute (`object?`). */
  datatype Value = Null | Str(s: string) | NonString

  datatype ValidationResult = Valid | Invalid(message: string)

  /** The expected format. The source passes "yyyy-MM-dd" everywhere, the only
      custom format modelled. */
  datatype DateFormat = YearMonthDay

  function FormatString(format: DateFormat): string {
    match format
    case YearMonthDay => IsoFormat
  }

  /** An attribute instance: the format given to its constructor, stored
      unchanged, and the optional `ErrorMessage` property. */
  datatype DateTimeValidationAttribute =
    DateTimeValidationAttribute(expectedFormat: DateFormat, errorMessage: Option<string>)

  function DefaultMessage(format: DateFormat): string {
    "Invalid date format. Expected format: " + FormatString(format)
  }

  /** `IsValid`: null passes; anything else passes only when it is a string
      that parses exactly in the expected format. */
  function IsValid(attribute: DateTimeValidationAttribute, value: Value): (r: ValidationResult)
    ensures value.Null? ==> r == Valid
    ensures value.NonString? ==> r.Invalid?
    ensures value.Str? ==> (r == Valid <==> exists d: CalendarDate :: value.s == Format(d))
    ensures r.Invalid? ==> r.message == attribute.errorMessage.GetOr(DefaultMessage(attribute.expectedFormat))
  {
    match value
    case Null => Valid
    case NonString => Invalid(attribute.errorMessage.GetOr(DefaultMessage(attribute.expectedFormat)))
    case Str(s) =>
      var parsed := Parse(s);
      if parsed.Some? then
        assert s == Format(parsed.value);
        Valid
      else
        NoFormattedDayIsRejected(s);
        Invalid(attribute.errorMessage.GetOr(DefaultMessage(attribute.expectedFormat)))
  }

  lemma NoFormattedDayIsRejected(s: string)
    requires Parse(s).None?
    ensures forall d: CalendarDate :: s != Format(d)
  {
    forall d: CalendarDate
      ensures s != Format(d)
    {
      FormatThenParse(d);
    }
  }
}
