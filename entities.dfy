/** The receivable record (Invoice or CreditNote; both have the same shape) and
    its business-rule validation. */
module Entities {
  import opened Wrappers
  import opened Dates
  import Text

  /** The two record kinds. They differ only in names and messages. */
  datatype Kind = Invoice | CreditNote

  function KindName(kind: Kind): string {
    match kind
    case Invoice => "Invoice"
    case CreditNote => "CreditNote"
  }

  /** The domain entity. Amounts are `real`; dates are calendar days. */
  datatype Record = Record(
    reference: string,
    currencyCode: string,
    issueDate: CalendarDate,
    openingValue: real,
    paidValue: real,
    dueDate: CalendarDate,
    closedDate: Option<CalendarDate>,
    cancelled: Option<bool>,
    debtorName: string,
    debtorReference: string,
    debtorAddress1: Option<string>,
    debtorAddress2: Option<string>,
    debtorTown: Option<string>,
    debtorState: Option<string>,
    debtorZip: Option<string>,
    debtorCountryCode: string,
    debtorRegistrationNumber: Option<string>)

  /** Open: no ClosedDate; closed: a ClosedDate is set. */
  predicate IsOpen(r: Record) {
    r.closedDate.None?
  }

  /** The lifted `<` of C# on `DateTimeOffset?`: false when the left side is null. */
  predicate LiftedBefore(a: Option<CalendarDate>, b: CalendarDate) {
    a.Some? && Before(a.value, b)
  }

  /** `Result.FailIf(condition, message)`: the errors of a FluentResults result. */
  function FailIf(condition: bool, message: string): (errors: seq<string>)
    ensures errors == [] <==> !condition
    ensures condition ==> errors == [message]
  {
    if condition then [message] else []
  }

  function DueDateMessage(kind: Kind, r: Record): string {
    KindName(kind) + ":" + r.reference + " - DueDate should not be lower than IssueDate"
  }

  function CloseDateMessage(kind: Kind, r: Record): string {
    KindName(kind) + ":" + r.reference + " - ClosedDate should not be lower than IssueDate"
  }

  function CheckDueDate(kind: Kind, r: Record): seq<string> {
    FailIf(Before(r.dueDate, r.issueDate), DueDateMessage(kind, r))
  }

  function CheckCloseDate(kind: Kind, r: Record): seq<string> {
    FailIf(LiftedBefore(r.closedDate, r.issueDate), CloseDateMessage(kind, r))
  }

  /** The record's date invariants: DueDate and ClosedDate (when set) are not
      earlier than IssueDate. */
  predicate DatesConsistent(r: Record) {
    && !Before(r.dueDate, r.issueDate)
    && (r.closedDate.Some? ==> !Before(r.closedDate.value, r.issueDate))
  }

  /** `Validate`: both checks run and their failures are merged; the result is
      a success exactly when the error list is empty. */
  function Validate(kind: Kind, r: Record): (errors: seq<string>)
    ensures errors == [] <==> DatesConsistent(r)
    ensures DueDateMessage(kind, r) in errors <==> Before(r.dueDate, r.issueDate)
    ensures CloseDateMessage(kind, r) in errors <==> r.closedDate.Some? && Before(r.closedDate.value, r.issueDate)
    ensures |errors| <= 2
    ensures forall m :: m in errors ==> m == DueDateMessage(kind, r) || m == CloseDateMessage(kind, r)
  {
    MessagesDiffer(kind, r);
    CheckDueDate(kind, r) + CheckCloseDate(kind, r)
  }

  lemma MessagesDiffer(kind: Kind, r: Record)
    ensures DueDateMessage(kind, r) != CloseDateMessage(kind, r)
  {
    assert |DueDateMessage(kind, r)| + 3 == |CloseDateMessage(kind, r)|;
  }

  /** Every failure message names the record's Reference. */
  lemma MessagesNameReference(kind: Kind, r: Record)
    ensures forall m :: m in Validate(kind, r) ==> Text.Embeds(m, r.reference)
  {
    Text.EmbedsMiddle(KindName(kind) + ":", r.reference, " - DueDate should not be lower than IssueDate");
    Text.EmbedsMiddle(KindName(kind) + ":", r.reference, " - ClosedDate should not be lower than IssueDate");
  }

  /** When both rules are broken both messages are reported, due date first. */
  lemma BothFailuresReported(kind: Kind, r: Record)
    requires Before(r.dueDate, r.issueDate)
    requires r.closedDate.Some? && Before(r.closedDate.value, r.issueDate)
    ensures Validate(kind, r) == [DueDateMessage(kind, r), CloseDateMessage(kind, r)]
  {
  }

  /** The comparisons are strict: dates equal to IssueDate pass, and an absent
      ClosedDate never fails. */
  lemma BoundaryDatesPass(kind: Kind, r: Record)
    requires r.dueDate == r.issueDate
    requires r.closedDate == None || r.closedDate == Some(r.issueDate)
    ensures Validate(kind, r) == []
  {
  }
}
