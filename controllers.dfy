/** The HTTP answers the controllers give. */
module Responses {
  import opened Wrappers

  /** `Ok(body)` is 200, `NotFound` 404, `BadRequest` 400 with an optional
      message, and `Fault` an exception that escapes the action (500). */
  datatype Response<+T> = Ok(body: T) | NotFound | BadRequest(message: Option<string>) | Fault(error: string)

  /** The title of the 400 answer the framework gives, before the action runs,
      when a request body fails its model validation annotations. */
  const ValidationProblemTitle: string := "One or more validation errors occurred."
}

/** The Analysis API controllers: argument checks in front of the Analysis
    record service. */
module AnalysisControllers {
  import opened Wrappers
  import opened Dates
  import opened Entities
  import Text
  import opened Responses
  import opened AnalysisServices

  const BlankReferenceMessage: string := "Reference can not be null or empty!"
  const InvertedRangeMessage: string := "Start date cannot be greater than end date."

  /** `Get()`: the service's list, or 404 when it is null. */
  function GetAll(table: seq<Record>): (resp: Response<seq<Record>>)
    ensures resp == Ok(table)
  {
    var all := Some(GetAllRecords(table));
    if all.None? then NotFound else Ok(all.value)
  }

  /** `Get(reference)`: 400 for a blank reference, 404 when no record has it,
      otherwise the first record that has it. */
  function GetByReference(table: seq<Record>, reference: Option<string>): (resp: Response<Record>)
    ensures resp.BadRequest? <==> Text.IsNullOrWhiteSpace(reference)
    ensures resp.BadRequest? ==> resp.message == Some(BlankReferenceMessage)
    ensures resp.NotFound? <==>
      !Text.IsNullOrWhiteSpace(reference) && forall x :: x in table ==> x.reference != reference.value
    ensures resp.Ok? ==> resp.body in table && resp.body.reference == reference.value
    ensures !resp.Fault?
  {
    if Text.IsNullOrWhiteSpace(reference) then BadRequest(Some(BlankReferenceMessage))
    else
      match GetRecordByReference(table, reference.value)
      case None => NotFound
      case Some(x) => Ok(x)
  }

  /** `Get(startDate, endDate, includeClosed, includeOpen)`: 400 when both
      dates are given and the start is after the end, otherwise the summary
      (which is never null, so the 404 branch is never taken). */
  function QuerySummary(table: seq<Record>, startDate: Option<CalendarDate>, endDate: Option<CalendarDate>,
                   includeClosed: Option<bool>, includeOpen: Option<bool>): (resp: Response<AnalysisServices.Summary>)
    ensures resp.BadRequest? <==> startDate.Some? && endDate.Some? && Before(endDate.value, startDate.value)
    ensures resp.BadRequest? ==> resp.message == Some(InvertedRangeMessage)
    ensures !resp.BadRequest? ==> resp == Ok(GetSummary(table, startDate, endDate, includeClosed, includeOpen))
  {
    if startDate.Some? && endDate.Some? && Before(endDate.value, startDate.value) then
      BadRequest(Some(InvertedRangeMessage))
    else
      var summary := Some(GetSummary(table, startDate, endDate, includeClosed, includeOpen));
      if summary.None? then NotFound else Ok(summary.value)
  }

  /** Rejecting an inverted range loses nothing: such a query would select no
      record at all. */
  lemma InvertedRangeSelectsNothing(table: seq<Record>, startDate: CalendarDate, endDate: CalendarDate,
                                    includeClosed: Option<bool>, includeOpen: Option<bool>)
    requires Before(endDate, startDate)
    ensures GetSummary(table, Some(startDate), Some(endDate), includeClosed, includeOpen).records == []
    ensures GetSummary(table, Some(startDate), Some(endDate), includeClosed, includeOpen).totalAmount == 0.0
  {
    var dated := ByDates(table, Some(startDate), Some(endDate));
    forall x: Record
      ensures x !in dated
    {
      OutsideInvertedRange(x.issueDate, startDate, endDate);
    }
    NoMemberMeansEmpty(dated);
    assert Where(dated, Open()) == [] && Where(dated, Closed()) == [];
  }

  /** No day is both on or after the start and on or before an earlier end. */
  lemma OutsideInvertedRange(day: CalendarDate, startDate: CalendarDate, endDate: CalendarDate)
    requires Before(endDate, startDate)
    ensures Before(day, startDate) || Before(endDate, day)
  {
  }

  lemma NoMemberMeansEmpty(rs: seq<Record>)
    requires forall x :: x !in rs
    ensures rs == []
  {
    forall x
      ensures multiset(rs)[x] == 0
    {
      assert x !in rs;
    }
    assert multiset(rs) == multiset{};
  }

  /** Every record in an accepted summary answer lies inside the requested
      range. */
  lemma AcceptedSummaryWithinRange(table: seq<Record>, startDate: CalendarDate, endDate: CalendarDate,
                                   includeClosed: Option<bool>, includeOpen: Option<bool>, x: Record)
    requires QuerySummary(table, Some(startDate), Some(endDate), includeClosed, includeOpen).Ok?
    requires x in QuerySummary(table, Some(startDate), Some(endDate), includeClosed, includeOpen).body.records
    ensures x in table && !Before(x.issueDate, startDate) && !Before(endDate, x.issueDate)
  {
    SummarySelects(table, Some(startDate), Some(endDate), includeClosed, includeOpen);
  }
}

/** The Ingestion API controllers: argument checks in front of the Ingestion
    record service of one record kind. */
module IngestionControllers {
  import opened Wrappers
  import opened Entities
  import Text
  import opened Dtos
  import opened Mapping
  import opened Repositories
  import opened IngestionServices
  import opened Responses

  function NullPayloadMessage(kind: Kind): string {
    KindName(kind) + " payload cannot be null!"
  }

  function InvalidPayloadMessage(kind: Kind): string {
    KindName(kind) + " payload is invalid!"
  }

  /** `InvoiceController` / `CreditNoteController` of the Ingestion API. */
  class RecordController {
    const service: RecordService

    ghost predicate Valid()
      reads this, service, service.repository
    {
      service.Valid()
    }

    constructor (service: RecordService)
      requires service.Valid()
      ensures Valid() && this.service == service
    {
      this.service := service;
    }

    /** `Get()`: every stored record, or 404 when none is stored. */
    method Get() returns (resp: Response<seq<RecordDto>>)
      requires Valid()
      ensures resp.NotFound? <==> service.repository.rows == map[]
      ensures resp.Ok? ==> |resp.body| == |service.repository.rows|
      ensures resp.Ok? ==> ToEntities(resp.body).Success?
      ensures resp.Ok? ==> forall x :: x in ToEntities(resp.body).value <==> x in service.repository.rows.Values
      ensures resp.Ok? || resp.NotFound?
    {
      var all := service.GetAllAsync();
      if all.None? {
        return NotFound;
      }
      resp := Ok(all.value);
    }

    /** `Get(reference)`: 400 for a blank reference, 404 when nothing is
        stored under it, otherwise the stored record. The service look-up is
        the corrected `ByReference`; with the look-up as written every
        non-blank reference gets 404. */
    method GetByReference(reference: Option<string>) returns (resp: Response<RecordDto>)
      requires Valid()
      ensures resp == BadRequest(None) <==> Text.IsNullOrWhiteSpace(reference)
      ensures resp.NotFound? <==> !Text.IsNullOrWhiteSpace(reference) && reference.value !in service.repository.rows
      ensures resp.Ok? <==> !Text.IsNullOrWhiteSpace(reference) && reference.value in service.repository.rows
      ensures resp.Ok? ==> ToEntity(resp.body) == Success(service.repository.rows[reference.value])
      ensures !resp.Fault?
    {
      if Text.IsNullOrWhiteSpace(reference) {
        return BadRequest(None);
      }
      var found := service.GetByReferenceAsync(reference.value);
      if found.None? {
        return NotFound;
      }
      resp := Ok(found.value);
    }

    /** `Post(records)`: 400 for a null body, 400 from the framework when a
        record fails its annotations, the service's answer otherwise; an
        empty answer (every record rejected, or an empty batch) is 400 as
        well, and an exception from the service (a duplicate key) is a fault. */
    method Post(body: Option<seq<RecordDto>>) returns (resp: Response<seq<RecordDto>>)
      requires Valid()
      modifies service, service.repository
      ensures Valid()
      ensures body.None? ==>
        resp == BadRequest(Some(NullPayloadMessage(service.kind))) && service.repository.rows == old(service.repository.rows)
      ensures body.Some? && !AllValidDtos(body.value) ==>
        resp == BadRequest(Some(ValidationProblemTitle)) && service.repository.rows == old(service.repository.rows)
      ensures body.Some? && AllValidDtos(body.value) ==> ToEntities(body.value).Success?
      ensures body.Some? && AllValidDtos(body.value) && ValidSubset(ToEntities(body.value).value) == [] ==>
        resp == BadRequest(Some(InvalidPayloadMessage(service.kind)))
        && service.repository.rows == old(service.repository.rows)
      ensures body.Some? && AllValidDtos(body.value) ==>
        var accepted := ValidSubset(ToEntities(body.value).value);
        accepted != [] && CanInsertAll(old(service.repository.rows), accepted) ==>
          && resp == Ok(ToDtos(accepted))
          && service.repository.rows == old(service.repository.rows) + Keyed(accepted)
      ensures body.Some? && AllValidDtos(body.value) ==>
        var accepted := ValidSubset(ToEntities(body.value).value);
        !CanInsertAll(old(service.repository.rows), accepted) ==>
          resp.Fault? && service.repository.rows == old(service.repository.rows)
      ensures resp.Ok? ==>
        && body.Some? && AllValidDtos(body.value) && ToEntities(body.value).Success?
        && var accepted := ValidSubset(ToEntities(body.value).value);
           && accepted != []
           && resp.body == ToDtos(accepted)
           && service.repository.rows == old(service.repository.rows) + Keyed(accepted)
    {
      if body.None? {
        return BadRequest(Some(NullPayloadMessage(service.kind)));
      }
      if !AllValidDtos(body.value) {
        return BadRequest(Some(ValidationProblemTitle));
      }
      ValidBatchConverts(body.value);
      var inserted := service.InsertAsync(body.value);
      if inserted.Failure? {
        return Fault(inserted.error);
      }
      if |inserted.value| == 0 {
        return BadRequest(Some(InvalidPayloadMessage(service.kind)));
      }
      resp := Ok(inserted.value);
    }

    /** `Update(record)`: 400 for a null body, 400 from the framework when
        the record fails its annotations, otherwise the service's answer (an
        exception from it, for a Reference that is not stored, is a fault). */
    method Update(dto: Option<RecordDto>) returns (resp: Response<RecordDto>)
      requires Valid()
      modifies service.repository
      ensures Valid()
      ensures dto.None? ==> resp == BadRequest(None) && service.repository.rows == old(service.repository.rows)
      ensures dto.Some? && !IsValidDto(dto.value) ==>
        resp == BadRequest(Some(ValidationProblemTitle)) && service.repository.rows == old(service.repository.rows)
      ensures dto.Some? && IsValidDto(dto.value) ==>
        (resp.Ok? <==> dto.value.reference in old(service.repository.rows))
      ensures dto.Some? && IsValidDto(dto.value) && !resp.Ok? ==>
        resp.Fault? && service.repository.rows == old(service.repository.rows)
      ensures resp.Ok? ==> dto.Some? && resp.body == dto.value && ToEntity(dto.value).Success?
      ensures resp.Ok? ==>
        service.repository.rows == old(service.repository.rows)[dto.value.reference := ToEntity(dto.value).value]
    {
      if dto.None? {
        return BadRequest(None);
      }
      if !IsValidDto(dto.value) {
        return BadRequest(Some(ValidationProblemTitle));
      }
      ValidDtoConverts(dto.value);
      var updated := service.UpdateAsync(dto.value);
      if updated.Failure? {
        return Fault(updated.error);
      }
      resp := Ok(updated.value);
    }

    /** `Delete(reference)`: 400 for a blank reference, 200 with `true` when a
        record was removed, 404 otherwise. */
    method Delete(reference: Option<string>) returns (resp: Response<bool>)
      requires Valid()
      modifies service.repository
      ensures Valid()
      ensures resp == BadRequest(None) <==> Text.IsNullOrWhiteSpace(reference)
      ensures resp == Ok(true) <==>
        !Text.IsNullOrWhiteSpace(reference) && reference.value in old(service.repository.rows)
      ensures resp.NotFound? <==>
        !Text.IsNullOrWhiteSpace(reference) && reference.value !in old(service.repository.rows)
      ensures Text.IsNullOrWhiteSpace(reference) ==> service.repository.rows == old(service.repository.rows)
      ensures !Text.IsNullOrWhiteSpace(reference) ==>
        service.repository.rows == old(service.repository.rows) - {reference.value}
    {
      if Text.IsNullOrWhiteSpace(reference) {
        return BadRequest(None);
      }
      var deleted := service.DeleteAsync(reference.value);
      if deleted {
        return Ok(deleted);
      }
      resp := NotFound;
    }
  }
}
