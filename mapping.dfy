/** Conversion between the wire record and the domain entity: fields are copied
    by name, dates are parsed from and formatted to `yyyy-MM-dd`. One pair of
    functions serves both kinds, whose mappings are declared identically. */
module Mapping {
  import opened Wrappers
  import opened Dates
  import opened Entities
  import opened Validators
  import opened Dtos

  /** Entity ClosedDate to wire: null stays null, a day becomes its string. */
  function FormatNullable(d: Option<CalendarDate>): (s: Option<string>)
    ensures s.None? <==> d.None?
    ensures s.Some? ==> Parse(s.value) == d
  {
    match d
    case None => None
    case Some(day) =>
      FormatThenParse(day);
      Some(Format(day))
  }

  /** Wire ClosedDate to entity: null stays null, a string must parse. */
  function ParseNullable(s: Option<string>): Option<Option<CalendarDate>> {
    match s
    case None => Some(None)
    case Some(t) =>
      var d := Parse(t);
      if d.Some? then Some(d) else None
  }

  /** Wire to entity. A date string that does not parse makes the mapper throw:
      that is the `Failure`. */
  function ToEntity(dto: RecordDto): (r: Result<Record>)
    ensures r.Success? <==>
      Parse(dto.issueDate).Some? && Parse(dto.dueDate).Some?
      && (dto.closedDate.Some? ==> Parse(dto.closedDate.value).Some?)
    ensures r.Success? ==> r.value.reference == dto.reference
    ensures r.Success? ==>
      && r.value.currencyCode == dto.currencyCode
      && r.value.openingValue == dto.openingValue
      && r.value.paidValue == dto.paidValue
      && r.value.cancelled == dto.cancelled
      && r.value.debtorName == dto.debtorName
      && r.value.debtorReference == dto.debtorReference
      && r.value.debtorAddress1 == dto.debtorAddress1
      && r.value.debtorAddress2 == dto.debtorAddress2
      && r.value.debtorTown == dto.debtorTown
      && r.value.debtorState == dto.debtorState
      && r.value.debtorZip == dto.debtorZip
      && r.value.debtorCountryCode == dto.debtorCountryCode
      && r.value.debtorRegistrationNumber == dto.debtorRegistrationNumber
    ensures r.Success? ==>
      && Parse(dto.issueDate) == Some(r.value.issueDate)
      && Parse(dto.dueDate) == Some(r.value.dueDate)
      && ParseNullable(dto.closedDate) == Some(r.value.closedDate)
  {
    var issue := Parse(dto.issueDate);
    var due := Parse(dto.dueDate);
    var closed := ParseNullable(dto.closedDate);
    if issue.None? || due.None? || closed.None? then
      Failure("cannot map " + dto.reference + ": a date is not in yyyy-MM-dd format")
    else
      Success(Record(
        dto.reference, dto.currencyCode, issue.value, dto.openingValue, dto.paidValue,
        due.value, closed.value, dto.cancelled, dto.debtorName, dto.debtorReference,
        dto.debtorAddress1, dto.debtorAddress2, dto.debtorTown, dto.debtorState,
        dto.debtorZip, dto.debtorCountryCode, dto.debtorRegistrationNumber))
  }

  /** Entity to wire: the three dates formatted, every other field copied.
      Converting back yields the same entity. */
  function ToDto(r: Record): (dto: RecordDto)
    ensures ToEntity(dto) == Success(r)
    ensures dto.reference == r.reference
  {
    FormatThenParse(r.issueDate);
    FormatThenParse(r.dueDate);
    RecordDto(
      r.reference, r.currencyCode, Format(r.issueDate), r.openingValue, r.paidValue,
      Format(r.dueDate), FormatNullable(r.closedDate), r.cancelled, r.debtorName,
      r.debtorReference, r.debtorCountryCode, r.debtorAddress1, r.debtorAddress2,
      r.debtorTown, r.debtorState, r.debtorZip, r.debtorRegistrationNumber)
  }

  /** Every wire record that converts comes back unchanged: its date strings
      were already in canonical form. */
  lemma WireRoundTrip(dto: RecordDto)
    requires ToEntity(dto).Success?
    ensures ToDto(ToEntity(dto).value) == dto
  {
    var r := ToEntity(dto).value;
    assert Format(r.issueDate) == dto.issueDate;
    assert Format(r.dueDate) == dto.dueDate;
  }

  /** A wire record that passes model validation always converts. */
  lemma ValidDtoConverts(dto: RecordDto)
    requires IsValidDto(dto)
    ensures ToEntity(dto).Success?
  {
    assert FieldValid(dto, IssueDate) && FieldValid(dto, DueDate) && FieldValid(dto, ClosedDate);
    DateFieldsAreCalendarDays(dto);
    ParseAcceptsFormatted(dto.issueDate);
    ParseAcceptsFormatted(dto.dueDate);
    if dto.closedDate.Some? {
      ParseAcceptsFormatted(dto.closedDate.value);
    }
  }

  lemma ParseAcceptsFormatted(s: string)
    requires exists d: CalendarDate :: s == Format(d)
    ensures Parse(s).Some?
  {
    var d: CalendarDate :| s == Format(d);
    FormatThenParse(d);
  }

  /** The dates of a converted entity always pass the wire date checks. */
  lemma ConvertedDatesValid(r: Record)
    ensures FieldValid(ToDto(r), IssueDate)
    ensures FieldValid(ToDto(r), DueDate)
    ensures FieldValid(ToDto(r), ClosedDate)
  {
    var dto := ToDto(r);
    DateFieldsAreCalendarDays(dto);
    assert dto.issueDate == Format(r.issueDate);
    assert dto.dueDate == Format(r.dueDate);
    if r.closedDate.Some? {
      assert dto.closedDate.value == Format(r.closedDate.value);
    }
  }

  /** A conversion applied to a whole list fails if any element fails, and
      otherwise converts element by element. */
  function MapResults<A, B>(f: A -> Result<B>, xs: seq<A>): (r: Result<seq<B>>)
    ensures r.Success? <==> forall i :: 0 <= i < |xs| ==> f(xs[i]).Success?
    ensures r.Success? ==> (|r.value| == |xs| && forall i :: 0 <= i < |xs| ==> r.value[i] == f(xs[i]).value)
  {
    if xs == [] then Success([])
    else
      var head := f(xs[0]);
      var tail := MapResults(f, xs[1..]);
      assert forall i :: 1 <= i < |xs| ==> xs[1..][i - 1] == xs[i];
      if head.Failure? then Failure(head.error)
      else if tail.Failure? then Failure(tail.error)
      else Success([head.value] + tail.value)
  }

  /** Whole lists: the mapper fails if any element fails. */
  function ToEntities(dtos: seq<RecordDto>): (r: Result<seq<Record>>)
    ensures r.Success? <==> forall i :: 0 <= i < |dtos| ==> ToEntity(dtos[i]).Success?
    ensures r.Success? ==>
      (|r.value| == |dtos| && forall i :: 0 <= i < |dtos| ==> r.value[i] == ToEntity(dtos[i]).value)
  {
    MapResults(ToEntity, dtos)
  }

  /** A list body that passes model validation always converts. */
  lemma ValidBatchConverts(dtos: seq<RecordDto>)
    requires AllValidDtos(dtos)
    ensures ToEntities(dtos).Success?
  {
    forall i | 0 <= i < |dtos|
      ensures ToEntity(dtos[i]).Success?
    {
      ValidDtoConverts(dtos[i]);
    }
  }

  function ToDtos(rs: seq<Record>): (dtos: seq<RecordDto>)
    ensures |dtos| == |rs|
    ensures ToEntities(dtos) == Success(rs)
  {
    var dtos := seq(|rs|, i requires 0 <= i < |rs| => ToDto(rs[i]));
    forall i | 0 <= i < |dtos|
      ensures ToEntity(dtos[i]) == Success(rs[i])
    {
      assert dtos[i] == ToDto(rs[i]);
    }
    AllSucceed(ToEntity, dtos, rs);
    dtos
  }

  /** When every element converts, the list converts to the converted elements. */
  lemma AllSucceed<A, B>(f: A -> Result<B>, xs: seq<A>, ys: seq<B>)
    requires |xs| == |ys|
    requires forall i :: 0 <= i < |xs| ==> f(xs[i]) == Success(ys[i])
    ensures MapResults(f, xs) == Success(ys)
  {
    var r := MapResults(f, xs);
    assert r.Success?;
    assert r.value == ys;
  }
}
