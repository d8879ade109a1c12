/** The wire record (`CreditNoteDto`; `InvoiceDto` has the same shape) and the
    field constraints its annotations declare. */
module Dtos {
  import opened Wrappers
  import Text
  import opened Validators
  import Dates

  /** Dates are strings on the wire. A C# `string` field is a `string` here,
      a `string?` field an `Option<string>`. */
  datatype RecordDto = RecordDto(
    reference: string,
    currencyCode: string,
    issueDate: string,
    openingValue: real,
    paidValue: real,
    dueDate: string,
    closedDate: Option<string>,
    cancelled: Option<bool>,
    debtorName: string,
    debtorReference: string,
    debtorCountryCode: string,
    debtorAddress1: Option<string>,
    debtorAddress2: Option<string>,
    debtorTown: Option<string>,
    debtorState: Option<string>,
    debtorZip: Option<string>,
    debtorRegistrationNumber: Option<string>)

  /** The fields that carry a constraint. */
  datatype Field =
    | Reference | CurrencyCode | IssueDate | OpeningValue | PaidValue | DueDate
    | ClosedDate | DebtorName | DebtorReference | DebtorCountryCode

  /** `[Required]` on a string: not null, empty or whitespace only. */
  predicate Required(s: string) {
    !Text.IsNullOrWhiteSpace(Some(s))
  }

  /** `[MinLength(n), MaxLength(n)]`. */
  predicate HasLength(s: string, n: nat) {
    |s| == n
  }

  /** `[Range(0, double.MaxValue)]`. */
  predicate NonNegative(x: real) {
    0.0 <= x
  }

  /** `[DateTimeValidation("yyyy-MM-dd")]` applied to a field value. */
  predicate DateField(value: Value) {
    IsValid(DateTimeValidationAttribute(YearMonthDay, None), value) == Valid
  }

  function OptionalValue(s: Option<string>): Value {
    match s
    case None => Null
    case Some(t) => Str(t)
  }

  /** The annotations of each constrained field. */
  predicate FieldValid(dto: RecordDto, field: Field) {
    match field
    case Reference => Required(dto.reference)
    case CurrencyCode => Required(dto.currencyCode) && HasLength(dto.currencyCode, 3)
    case IssueDate => Required(dto.issueDate) && DateField(Str(dto.issueDate))
    case OpeningValue => NonNegative(dto.openingValue)
    case PaidValue => NonNegative(dto.paidValue)
    case DueDate => Required(dto.dueDate) && DateField(Str(dto.dueDate))
    case ClosedDate => DateField(OptionalValue(dto.closedDate))
    case DebtorName => Required(dto.debtorName)
    case DebtorReference => Required(dto.debtorReference)
    case DebtorCountryCode => Required(dto.debtorCountryCode) && HasLength(dto.debtorCountryCode, 2)
  }

  const AllFields: seq<Field> := [Reference, CurrencyCode, IssueDate, OpeningValue, PaidValue,
                                  DueDate, ClosedDate, DebtorName, DebtorReference, DebtorCountryCode]

  /** Model validation of one record: the fields whose annotations fail, in
      declaration order. */
  function FieldErrors(dto: RecordDto): (errors: seq<Field>)
    ensures forall f :: f in errors <==> !FieldValid(dto, f)
  {
    EveryFieldListed();
    FailedAmong(dto, AllFields)
  }

  lemma EveryFieldListed()
    ensures forall f: Field :: f in AllFields
  {
    forall f: Field
      ensures f in AllFields
    {
      match f
      case Reference => assert AllFields[0] == f;
      case CurrencyCode => assert AllFields[1] == f;
      case IssueDate => assert AllFields[2] == f;
      case OpeningValue => assert AllFields[3] == f;
      case PaidValue => assert AllFields[4] == f;
      case DueDate => assert AllFields[5] == f;
      case ClosedDate => assert AllFields[6] == f;
      case DebtorName => assert AllFields[7] == f;
      case DebtorReference => assert AllFields[8] == f;
      case DebtorCountryCode => assert AllFields[9] == f;
    }
  }

  function FailedAmong(dto: RecordDto, fields: seq<Field>): (errors: seq<Field>)
    ensures forall f :: f in errors <==> f in fields && !FieldValid(dto, f)
  {
    if fields == [] then []
    else (if FieldValid(dto, fields[0]) then [] else [fields[0]]) + FailedAmong(dto, fields[1..])
  }

  /** A record passes model validation. */
  predicate IsValidDto(dto: RecordDto) {
    FieldErrors(dto) == []
  }

  /** Every record of a list passes model validation (the framework validates
      the elements of a list body one by one). */
  predicate AllValidDtos(dtos: seq<RecordDto>) {
    forall i :: 0 <= i < |dtos| ==> IsValidDto(dtos[i])
  }

  /** The date fields accept exactly the `yyyy-MM-dd` spelling of a calendar
      day; ClosedDate may also be absent. */
  lemma DateFieldsAreCalendarDays(dto: RecordDto)
    ensures FieldValid(dto, IssueDate) <==> exists d: Dates.CalendarDate :: dto.issueDate == Dates.Format(d)
    ensures FieldValid(dto, DueDate) <==> exists d: Dates.CalendarDate :: dto.dueDate == Dates.Format(d)
    ensures FieldValid(dto, ClosedDate) <==>
      (dto.closedDate.None? || exists d: Dates.CalendarDate :: dto.closedDate.value == Dates.Format(d))
  {
    RequiredDateIsCalendarDay(dto.issueDate);
    RequiredDateIsCalendarDay(dto.dueDate);
  }

  lemma RequiredDateIsCalendarDay(s: string)
    ensures Required(s) && DateField(Str(s)) <==> exists d: Dates.CalendarDate :: s == Dates.Format(d)
  {
    if exists d: Dates.CalendarDate :: s == Dates.Format(d) {
      var d: Dates.CalendarDate :| s == Dates.Format(d);
      assert !Text.IsWhiteSpace(s[4]);
    }
  }
}
