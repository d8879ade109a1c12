/** The Ingestion record service: converts wire records, validates them,
    bulk-inserts the valid ones and reports the invalid ones as a warning. */
module IngestionServices {
  import opened Wrappers
  import Text
  import Dates
  import opened Entities
  import opened Dtos
  import opened Mapping
  import opened Repositories

  /** A record whose validation result is a success (see `Validate`). */
  predicate Accepted(r: Record) {
    DatesConsistent(r)
  }

  /** The records that pass validation, in input order. */
  function ValidSubset(rs: seq<Record>): (valid: seq<Record>)
    ensures |valid| <= |rs|
    ensures forall x :: x in valid ==> x in rs && Accepted(x)
    ensures forall x :: x in rs && Accepted(x) ==> x in valid
  {
    if rs == [] then []
    else
      var last := rs[|rs| - 1];
      ValidSubset(rs[..|rs| - 1]) + (if Accepted(last) then [last] else [])
  }

  /** The records that fail validation, in input order. */
  function Rejected(rs: seq<Record>): (invalid: seq<Record>)
    ensures forall x :: x in invalid ==> x in rs && !Accepted(x)
    ensures forall x :: x in rs && !Accepted(x) ==> x in invalid
  {
    if rs == [] then []
    else
      var last := rs[|rs| - 1];
      Rejected(rs[..|rs| - 1]) + (if Accepted(last) then [] else [last])
  }

  /** `Result.Merge` over the failed results: every error, in input order. */
  function MergedErrors(kind: Kind, rs: seq<Record>): seq<string> {
    if rs == [] then []
    else
      var last := rs[|rs| - 1];
      MergedErrors(kind, rs[..|rs| - 1]) + (if Accepted(last) then [] else Validate(kind, last))
  }

  /** The warning written after the bulk insert: the invoice service logs only
      when some record failed, the credit-note service logs every time. */
  function InsertWarnings(kind: Kind, errors: seq<string>): (logged: seq<string>)
    ensures kind == Invoice ==> (logged == [] <==> errors == [])
    ensures kind == CreditNote ==> |logged| == 1
    ensures forall m :: m in logged ==> m == Text.Join(",", errors)
  {
    if kind == Invoice && errors == [] then [] else [Text.Join(",", errors)]
  }

  /** Every record is either accepted or rejected. */
  lemma {:induction false} PartitionCount(rs: seq<Record>)
    ensures |ValidSubset(rs)| + |Rejected(rs)| == |rs|
  {
    if rs != [] {
      PartitionCount(rs[..|rs| - 1]);
    }
  }

  /** Filtering is done element by element, so it keeps the input order. */
  lemma {:induction false} ValidSubsetAppend(a: seq<Record>, b: seq<Record>)
    ensures ValidSubset(a + b) == ValidSubset(a) + ValidSubset(b)
  {
    if b != [] {
      var last := b[|b| - 1];
      assert (a + b)[..|a + b| - 1] == a + b[..|b| - 1];
      ValidSubsetAppend(a, b[..|b| - 1]);
    } else {
      assert a + b == a;
    }
  }

  /** The merged result is a success exactly when every record is valid. */
  lemma {:induction false} NoErrorsIffAllAccepted(kind: Kind, rs: seq<Record>)
    ensures MergedErrors(kind, rs) == [] <==> ValidSubset(rs) == rs
  {
    if rs != [] {
      NoErrorsIffAllAccepted(kind, rs[..|rs| - 1]);
      if Accepted(rs[|rs| - 1]) {
        AcceptedLast(kind, rs);
      } else {
        RejectedLast(kind, rs);
      }
    }
  }

  lemma AcceptedLast(kind: Kind, rs: seq<Record>)
    requires rs != [] && Accepted(rs[|rs| - 1])
    ensures MergedErrors(kind, rs) == MergedErrors(kind, rs[..|rs| - 1])
    ensures ValidSubset(rs) == rs <==> ValidSubset(rs[..|rs| - 1]) == rs[..|rs| - 1]
  {
    var init, last := rs[..|rs| - 1], rs[|rs| - 1];
    assert rs == init + [last];
    SnocCancel(ValidSubset(init), init, last);
  }

  lemma RejectedLast(kind: Kind, rs: seq<Record>)
    requires rs != [] && !Accepted(rs[|rs| - 1])
    ensures MergedErrors(kind, rs) != []
    ensures ValidSubset(rs) != rs
  {
    var init, last := rs[..|rs| - 1], rs[|rs| - 1];
    assert |ValidSubset(rs)| < |rs|;
    assert Validate(kind, last) != [];
  }

  lemma SnocCancel(a: seq<Record>, b: seq<Record>, x: Record)
    ensures a + [x] == b + [x] <==> a == b
  {
    if a + [x] == b + [x] {
      assert a == (a + [x])[..|a|];
      assert b == (b + [x])[..|b|];
    }
  }

  /** Every error of every rejected record is in the merged result. */
  lemma {:induction false} RejectedErrorsMerged(kind: Kind, rs: seq<Record>, x: Record)
    requires x in Rejected(rs)
    ensures forall m :: m in Validate(kind, x) ==> m in MergedErrors(kind, rs)
  {
    var init, last := rs[..|rs| - 1], rs[|rs| - 1];
    if x != last || Accepted(last) {
      assert x in Rejected(init);
      RejectedErrorsMerged(kind, init, x);
    }
  }

  lemma SnocStep(kind: Kind, rs: seq<Record>, x: Record)
    ensures ValidSubset(rs + [x]) == ValidSubset(rs) + (if Accepted(x) then [x] else [])
    ensures MergedErrors(kind, rs + [x]) == MergedErrors(kind, rs) + (if Accepted(x) then [] else Validate(kind, x))
  {
    assert (rs + [x])[..|rs|] == rs;
  }

  /** One turn of the partition loop. */
  lemma PartitionStep(kind: Kind, records: seq<Record>, i: nat)
    requires i < |records|
    ensures ValidSubset(records[..i + 1]) == ValidSubset(records[..i]) + (if Accepted(records[i]) then [records[i]] else [])
    ensures MergedErrors(kind, records[..i + 1]) ==
            MergedErrors(kind, records[..i]) + (if Accepted(records[i]) then [] else Validate(kind, records[i]))
  {
    assert records[..i + 1] == records[..i] + [records[i]];
    SnocStep(kind, records[..i], records[i]);
  }

  /** The `foreach` of `InsertAsync`: valid records are appended to a list,
      the results of the others merged. */
  method Partition(kind: Kind, records: seq<Record>) returns (valid: seq<Record>, errors: seq<string>)
    ensures valid == ValidSubset(records)
    ensures errors == MergedErrors(kind, records)
  {
    valid, errors := [], [];
    var i := 0;
    while i < |records|
      invariant 0 <= i <= |records|
      invariant valid == ValidSubset(records[..i])
      invariant errors == MergedErrors(kind, records[..i])
    {
      var result := Validate(kind, records[i]);
      assert result == [] <==> Accepted(records[i]);
      PartitionStep(kind, records, i);
      if result == [] {
        valid := valid + [records[i]];
      } else {
        errors := errors + result;
      }
      i := i + 1;
    }
    assert records[..i] == records;
  }

  class RecordService {
    const kind: Kind
    const repository: Table
    /** The warnings written to the logger. */
    ghost var warnings: seq<string>

    ghost predicate Valid()
      reads this, repository
    {
      repository.Valid() && repository.kind == kind
    }

    constructor (repository: Table)
      requires repository.Valid()
      ensures Valid() && this.repository == repository && kind == repository.kind && warnings == []
    {
      this.kind := repository.kind;
      this.repository := repository;
      warnings := [];
    }

    /** `InsertAsync`: converts the batch, keeps the records that validate,
        stores exactly those in one bulk insert and returns them converted
        back; the errors of the others are merged into one warning. */
    method InsertAsync(dtos: seq<RecordDto>) returns (r: Result<seq<RecordDto>>)
      requires Valid()
      modifies this, repository
      ensures Valid()
      ensures ToEntities(dtos).Failure? ==>
        r.Failure? && repository.rows == old(repository.rows) && warnings == old(warnings)
      ensures ToEntities(dtos).Success? ==>
        var records := ToEntities(dtos).value;
        var accepted := ValidSubset(records);
        if CanInsertAll(old(repository.rows), accepted) then
          && r == Success(ToDtos(accepted))
          && repository.rows == old(repository.rows) + Keyed(accepted)
          && warnings == old(warnings) + InsertWarnings(kind, MergedErrors(kind, records))
        else
          r.Failure? && repository.rows == old(repository.rows) && warnings == old(warnings)
      ensures ToEntities(dtos).Success? && ValidSubset(ToEntities(dtos).value) == [] ==>
        r == Success([]) && repository.rows == old(repository.rows)
    {
      var mapped := ToEntities(dtos);
      if mapped.Failure? {
        return Failure(mapped.error);
      }
      var valid, errors := Partition(kind, mapped.value);
      if valid == [] {
        InsertNothing(repository.rows);
      }
      var stored := repository.InsertBulkAsync(valid);
      if stored.Failure? {
        return Failure(stored.error);
      }
      warnings := warnings + InsertWarnings(kind, errors);
      r := Success(ToDtos(valid));
    }

    /** `GetAllAsync`: every stored record converted, or null when there is none. */
    method GetAllAsync() returns (r: Option<seq<RecordDto>>)
      requires Valid()
      ensures r.None? <==> repository.rows == map[]
      ensures r.Some? ==> ToEntities(r.value).Success? && |r.value| == |repository.rows|
      ensures r.Some? ==> forall x :: x in ToEntities(r.value).value <==> x in repository.rows.Values
    {
      var all := repository.GetAllAsync();
      r := AllOrNull(Some(all));
      if r.None? {
        assert |repository.rows| == 0;
      }
    }

    /** `GetByReferenceAsync`, with the null check the right way round. */
    method GetByReferenceAsync(reference: string) returns (r: Option<RecordDto>)
      requires Valid()
      ensures r.Some? <==> reference in repository.rows
      ensures r.Some? ==> ToEntity(r.value) == Success(repository.rows[reference])
    {
      var found := repository.GetByReferenceAsync(reference);
      r := ByReference(found);
    }

    /** `UpdateAsync`: converts and overwrites the stored record, then returns
        its input unchanged. */
    method UpdateAsync(dto: RecordDto) returns (r: Result<RecordDto>)
      requires Valid()
      modifies repository
      ensures Valid()
      ensures r.Success? <==> ToEntity(dto).Success? && dto.reference in old(repository.rows)
      ensures r.Success? ==>
        (r.value == dto && repository.rows == old(repository.rows)[dto.reference := ToEntity(dto).value])
      ensures r.Failure? ==> repository.rows == old(repository.rows)
    {
      var entity := ToEntity(dto);
      if entity.Failure? {
        return Failure(entity.error);
      }
      var updated := repository.UpdateAsync(entity.value);
      if updated.Failure? {
        return Failure(updated.error);
      }
      r := Success(dto);
    }

    /** `DeleteAsync`: the repository's answer. */
    method DeleteAsync(reference: string) returns (deleted: bool)
      requires Valid()
      modifies repository
      ensures Valid()
      ensures deleted <==> reference in old(repository.rows)
      ensures repository.rows == old(repository.rows) - {reference}
    {
      deleted := repository.DeleteAsync(reference);
    }
  }

  /** The service's answer to a fetch of all records: null when the repository
      yields null or nothing, else every record converted. */
  function AllOrNull(fetched: Option<seq<Record>>): (r: Option<seq<RecordDto>>)
    ensures r.None? <==> fetched.None? || fetched.value == []
    ensures r.Some? ==> ToEntities(r.value) == Success(fetched.value)
  {
    if fetched.Some? && |fetched.value| > 0 then Some(ToDtos(fetched.value)) else None
  }

  /** The mapper on a possibly null entity: null maps to null. */
  function MapNullable(found: Option<Record>): Option<RecordDto> {
    match found
    case None => None
    case Some(x) => Some(ToDto(x))
  }

  /** `GetByReferenceAsync` as written: it maps only when nothing was found, so
      it answers null whatever the repository returns. */
  function ByReferenceAsWritten(found: Option<Record>): (r: Option<RecordDto>)
    ensures r == None
  {
    if found.None? then MapNullable(found) else None
  }

  /** `GetByReferenceAsync` as intended: the found record converted, or null. */
  function ByReference(found: Option<Record>): (r: Option<RecordDto>)
    ensures r.Some? <==> found.Some?
    ensures r.Some? ==> ToEntity(r.value) == Success(found.value)
  {
    if found.Some? then MapNullable(found) else None
  }

  /** The inverted check loses every record the repository finds. */
  lemma FoundRecordLostAsWritten(x: Record)
    ensures ByReferenceAsWritten(Some(x)) == None
    ensures ByReference(Some(x)) == Some(ToDto(x))
  {
  }

  /** The mixed batch of the service tests: a consistent record followed by
      one whose DueDate precedes its IssueDate. Only the first is kept, and
      the warning carries only the second's error. */
  lemma MixedBatch(kind: Kind, good: Record, bad: Record)
    requires DatesConsistent(good) && Dates.Before(bad.dueDate, bad.issueDate)
    ensures ValidSubset([good, bad]) == [good]
    ensures Rejected([good, bad]) == [bad]
    ensures MergedErrors(kind, [good, bad]) == Validate(kind, bad)
    ensures DueDateMessage(kind, bad) in MergedErrors(kind, [good, bad])
  {
    assert [good, bad][..1] == [good];
    assert [good][..0] == [];
    assert Rejected([good]) == [] && MergedErrors(kind, [good]) == [];
  }
}
