# Receivables ingestion and analysis, modelled in Dafny

ReceivablesAnalyzer keeps two kinds of receivable records, invoices and credit
notes, which have the same shape. The Ingestion API accepts batches of wire
records. It checks their annotated field constraints, converts them to
entities, validates each entity's dates and bulk-inserts the valid ones into a
table keyed by Reference. It also reads, updates and deletes single records.
The Analysis API reads the same tables. It answers look-ups and builds a
summary: the records issued between an optional start and end date,
optionally only the open or only the closed ones, with the total of their
OpeningValue.

The model has one module per component:

- `Wrappers`: `Option` and `Result`.
- `Text`: `char.IsWhiteSpace`, `string.IsNullOrWhiteSpace` and `string.Join`.
- `Dates`: calendar days (years 1 to 9999, Gregorian leap years), the strict `yyyy-MM-dd` parser that `DateTime.TryParseExact` applies, and the formatter that `ToString("yyyy-MM-dd")` applies.
- `Entities`: the record, shared by both kinds, and `Validate`.
- `Validators`: the `yyyy-MM-dd` validation attribute.
- `Dtos`: the wire record and its field constraints.
- `Mapping`: the wire-to-entity and entity-to-wire conversions.
- `Repositories`: the Ingestion table. It is a class whose `rows` map is updated in place and whose `pending` counter stands for the change tracker's pending writes.
- `IngestionServices`: the Ingestion service. It is a class over a table, and its batch partition is a loop proved against the specification functions `ValidSubset` and `MergedErrors`.
- `AnalysisServices`: the Analysis look-ups and the summary query.
- `AnalysisExamples`: worked summaries taken from the documentation and tests.
- `Responses`, `AnalysisControllers`, `IngestionControllers`: the HTTP decisions of both APIs.

The two record kinds differ in only four places, and a `Kind` parameter carries
those differences:

- the prefix of the validation messages;
- the messages of the Post 400 answers;
- the repository's `DeleteAsync` branch for a missing reference;
- whether the insert logs a warning when no record failed.

Dates are calendar days. Amounts are `real`.

## Model

| member | source | states |
|---|---|---|
| Entities.Validate | Ingestion.Domain/Entities/Invoice.cs:26-41 | The error list is empty iff DueDate is not before IssueDate and ClosedDate is absent or not before IssueDate. The due-date message is present iff DueDate < IssueDate. The close-date message is present iff ClosedDate is present and < IssueDate. No other message can appear, and there are at most two. |
| Entities.FailIf | Ingestion.Domain/Entities/Invoice.cs:35 | `Result.FailIf`: no error iff the condition is false, and a true condition gives exactly the one given message. |
| Entities.MessagesNameReference | Ingestion.Domain/Entities/Invoice.cs:35-40 | Every failure message contains the record's Reference. |
| Entities.BothFailuresReported | Ingestion.Domain/Entities/Invoice.cs:28-30 | When both checks fail, the merged result holds both messages, due date first. |
| Entities.BoundaryDatesPass | Ingestion.Domain/Entities/Invoice.cs:35-40 | The comparisons are strict. A DueDate or ClosedDate equal to IssueDate passes, and an absent ClosedDate passes. |
| Dates.DaysInMonth | Ingestion.Application/Validators/DateTimeValidationAttribute.cs:21 | Month lengths are 28 to 31 days, with 29 exactly for February of a leap year. |
| Dates.Format | Ingestion.Application/AutoMapperProfile.cs:13-14 | `ToString("yyyy-MM-dd")` gives 10 characters: four digits, a dash, two digits, a dash, two digits. |
| Dates.Parse | Ingestion.Application/Validators/DateTimeValidationAttribute.cs:21 | A string that parses has the exact 4-2-2 digit shape, and formatting the parsed day gives the string back. |
| Dates.FormatThenParse | Ingestion.Application/AutoMapperProfile.cs:13-15 | Parsing the formatted text of any calendar day gives that day back. |
| Dates.ParseAcceptsExactlyFormatted | Ingestion.Application/Validators/DateTimeValidationAttribute.cs:21 | A string parses to a day iff it is that day's `yyyy-MM-dd` text. Surrounding whitespace, single-digit fields and impossible days are all rejected. |
| Validators.IsValid | Ingestion.Application/Validators/DateTimeValidationAttribute.cs:14-27 | Null is valid. A non-string value is invalid. A string is valid iff it spells a calendar day as `yyyy-MM-dd`. An invalid result carries ErrorMessage if set, else "Invalid date format. Expected format: " followed by the stored format. |
| Validators.NoFormattedDayIsRejected | Ingestion.Application/Validators/DateTimeValidationAttribute.cs:21 | A string that fails to parse is not the formatted text of any calendar day. |
| Dtos.FieldErrors | Ingestion.Application/Dtos/CreditNoteDto.cs:8-44 | A field is listed iff its annotations fail. Those annotations are: Required for Reference, CurrencyCode, IssueDate, DueDate, DebtorName and DebtorReference; lengths of exactly 3 and 2; non-negative amounts; and the date format on the three date fields. |
| Dtos.DateFieldsAreCalendarDays | Ingestion.Application/Dtos/CreditNoteDto.cs:15-32 | IssueDate and DueDate are valid iff they spell a calendar day. ClosedDate is valid iff it is absent or spells one. |
| Dtos.RequiredDateIsCalendarDay | Ingestion.Application/Dtos/CreditNoteDto.cs:15-17 | For a date field, Required together with the date format means exactly "the text of a calendar day". |
| Mapping.FormatNullable | Ingestion.Application/AutoMapperProfile.cs:25-28 | Null maps to null, and a present date maps to text that parses back to it. |
| Mapping.ToEntity | Ingestion.Application/AutoMapperProfile.cs:11 | Conversion succeeds iff IssueDate, DueDate and any ClosedDate parse. Every non-date field is copied by name unchanged, and each date is the day its text parses to. |
| Mapping.ToDto | Ingestion.Application/AutoMapperProfile.cs:12-15 | Converting an entity to the wire record and back gives the entity unchanged. |
| Mapping.WireRoundTrip | Ingestion.Application/AutoMapperProfile.cs:11-15 | A wire record that converts comes back unchanged from wire to entity to wire. |
| Mapping.ValidDtoConverts | Ingestion.Application/AutoMapperProfile.cs:11 | A wire record that passes model validation always converts. |
| Mapping.ValidBatchConverts | Ingestion.Api/Controllers/InvoiceController.cs:7 | A list body in which every record passes model validation always converts, so the mapper cannot throw once the framework has let the body through. |
| Mapping.ConvertedDatesValid | Ingestion.Application/AutoMapperProfile.cs:13-15 | The dates of any entity, written to the wire, pass the wire date checks. |
| Mapping.ToEntities | Ingestion.Application/Services/InvoiceService.cs:49 | A list converts iff every element converts. The result has the same length and is converted element by element. |
| Mapping.ToDtos | Ingestion.Application/Services/InvoiceService.cs:69 | The same length, and converting the result back gives the entities. |
| Repositories.Table.SaveChanges | Ingestion.Infrastructure/Repositories/InvoiceRepository.cs:55 | Reports how many changes were pending and clears them. |
| Repositories.Table.GetAllAsync | Ingestion.Infrastructure/Repositories/InvoiceRepository.cs:16-19 | Every stored record, each exactly once (the same count as the table). |
| Repositories.Table.GetByReferenceAsync | Ingestion.Infrastructure/Repositories/InvoiceRepository.cs:21-24 | The stored record with that Reference, or null iff there is none. |
| Repositories.Table.InsertAsync | Ingestion.Infrastructure/Repositories/InvoiceRepository.cs:26-31 | Adds the entity and returns it. A duplicate key fails and changes nothing. |
| Repositories.Table.InsertBulkAsync | Ingestion.Infrastructure/Repositories/InvoiceRepository.cs:33-39 | Succeeds iff no Reference is stored or repeated. The table becomes the old rows plus the batch keyed by Reference, and the batch is returned. |
| Repositories.Table.UpdateAsync | Ingestion.Infrastructure/Repositories/InvoiceRepository.cs:41-46 | Overwrites the record with the same Reference. A missing key fails and changes nothing. |
| Repositories.Table.DeleteAsync | Ingestion.Infrastructure/Repositories/InvoiceRepository.cs:48-56 | Returns true iff the Reference was stored, and the table loses exactly that key. In Ingestion.Infrastructure/Repositories/CreditNoteRepository.cs:48-56, on a miss the credit-note table returns "saved changes > 0", which is false because nothing is pending. |
| IngestionServices.ValidSubset | Ingestion.Application/Services/InvoiceService.cs:50-56 | The records that validate, in input order. Every listed record validates, and every validating record is listed. |
| IngestionServices.Rejected | Ingestion.Application/Services/InvoiceService.cs:57-60 | The records that fail validation, and only those. |
| IngestionServices.PartitionCount | Ingestion.Application/Services/InvoiceService.cs:50-61 | The valid count plus the invalid count is the input count. |
| IngestionServices.ValidSubsetAppend | Ingestion.Application/Services/InvoiceService.cs:50-56 | Filtering a concatenation is the concatenation of the filtered parts, so input order is kept. |
| IngestionServices.NoErrorsIffAllAccepted | Ingestion.Application/Services/InvoiceService.cs:59-64 | The merged result has no error iff every record is kept. |
| IngestionServices.RejectedErrorsMerged | Ingestion.Application/Services/InvoiceService.cs:59 | Every message of every rejected record is in the merged result. |
| IngestionServices.InsertWarnings | Ingestion.Application/Services/InvoiceService.cs:64-67 | The invoice service logs a warning iff some record failed. The warning joins all messages with ",". In Ingestion.Application/Services/CreditNoteService.cs:64, the credit-note service logs exactly one warning, even when nothing failed. |
| IngestionServices.Partition | Ingestion.Application/Services/InvoiceService.cs:46-61 | The loop yields exactly `ValidSubset` and `MergedErrors` of the converted batch. Ingestion.Application/Services/CreditNoteService.cs:46-61 behaves the same loop for credit notes. |
| IngestionServices.RecordService.InsertAsync | Ingestion.Application/Services/InvoiceService.cs:44-70 | A batch that does not convert fails before any write. Otherwise exactly the valid subset is bulk-inserted (the table gains exactly those rows) and returned converted, and the warnings log grows by the merged errors. An empty or all-invalid batch returns an empty list and stores nothing. Ingestion.Application/Services/CreditNoteService.cs:44-67 behaves the same, with the credit-note logging rule. |
| IngestionServices.RecordService.GetAllAsync | Ingestion.Application/Services/InvoiceService.cs:23-32 | Null iff the table is empty. Otherwise every stored record, converted, with the table's count. |
| IngestionServices.RecordService.GetByReferenceAsync | Ingestion.Application/Services/InvoiceService.cs:34-42 | The corrected look-up (see Findings): the stored record converted, or null iff the Reference is not stored. |
| IngestionServices.RecordService.UpdateAsync | Ingestion.Application/Services/CreditNoteService.cs:69-74 | Succeeds iff the record converts and its Reference is stored. It returns its input unchanged, and the stored row becomes the converted record. |
| IngestionServices.RecordService.DeleteAsync | Ingestion.Application/Services/InvoiceService.cs:79-82 | The repository's answer: true iff the Reference was stored, and only that key is removed. |
| IngestionServices.AllOrNull | Ingestion.Application/Services/InvoiceService.cs:25-31 | Null iff the repository yields null or an empty list. Otherwise a list that converts back to exactly the fetched records. |
| IngestionServices.ByReferenceAsWritten | Ingestion.Application/Services/InvoiceService.cs:36-41 | The look-up as written returns null whatever the repository finds. |
| IngestionServices.ByReference | Ingestion.Application/Services/InvoiceService.cs:36-41 | The intended look-up is present iff the repository found a record, and it is that record converted. |
| IngestionServices.FoundRecordLostAsWritten | Ingestion.Application/Services/CreditNoteService.cs:36-41 | For any found record, the as-written look-up gives null and the corrected one gives the record. |
| IngestionServices.MixedBatch | Ingestion.Tests/Unit/Services/InvoiceServiceTests.cs:269-274 | Take a valid record followed by one whose DueDate precedes its IssueDate. Only the first is kept and only the second is rejected. The merged errors are exactly the second record's own validation errors, which include its due-date message. |
| AnalysisServices.BucketFor | Analysis.Application/Services/InvoiceService.cs:41-54 | Open-only iff includeOpen is true and includeClosed is not true. Closed-only iff includeClosed is true and includeOpen is not true. Every other combination (both true, both false, both absent, one false with the other absent) applies no stage. |
| AnalysisServices.Where | Analysis.Application/Services/InvoiceService.cs:33 | LINQ `Where`: keeps exactly the elements that satisfy the filter, each as many times as it occurs. |
| AnalysisServices.ByDates | Analysis.Application/Services/InvoiceService.cs:31-39 | Keeps exactly the records with IssueDate >= start (when given) and <= end (when given), with their multiplicities. |
| AnalysisServices.GetSummary | Analysis.Application/Services/InvoiceService.cs:27-71 | The summary is never null. It echoes startDate, endDate, includeClosed and includeOpen unchanged, and its total is the sum of OpeningValue over exactly the returned records (0 when none). Analysis.Application/Services/CreditNoteService.cs:27-71 behaves the same for credit notes. |
| AnalysisServices.SummarySelects | Analysis.Application/Services/InvoiceService.cs:29-67 | The summary lists exactly the stored records that meet every active filter, each as many times as it is stored. This makes it both sound and complete. |
| AnalysisServices.SummaryIdempotent | Analysis.Application/Services/CreditNoteService.cs:29-67 | Running the same query on a summary's own records gives the same summary. |
| AnalysisServices.OpenClosedSplit | Analysis.Application/Services/InvoiceService.cs:46-51 | The open records' total plus the closed records' total is the whole total. |
| AnalysisServices.OpenAndClosedTotalsAdd | Analysis.Application/Services/InvoiceService.cs:41-57 | Over the same dates, the open-only total plus the closed-only total equals the total with no flags. |
| AnalysisServices.TotalBounded | Analysis.Application/Services/InvoiceService.cs:57 | With non-negative amounts, the total is between 0 and the total of the whole table. |
| AnalysisServices.NoFiltersSelectAll | Analysis.Application/Services/CreditNoteService.cs:41-54 | With no dates and a flag combination that applies no stage, the whole table is listed and totalled. |
| AnalysisServices.SingleRecordTotal | Analysis.Tests/Integration/IntegrationTests.cs:110-137 | One stored record and no query give that record, with its OpeningValue as the total and all inputs echoed as null. |
| AnalysisServices.GetAllRecords | Analysis.Application/Services/InvoiceService.cs:17-20 | The repository's records, unchanged. |
| AnalysisServices.GetRecordByReference | Analysis.Application/Services/CreditNoteService.cs:22-25 | `FirstOrDefault` by Reference returns null iff no record has that Reference. Otherwise it returns the first such record. |
| AnalysisExamples.NovemberOpenOnly | Analysis.Application/Services/InvoiceService.cs:41-47 | Take two records issued in November 2023, each with opening value 500, one open and one closed, and query 2023-11-01 to 2023-11-30 with open only. The summary lists the open one and totals 500. |
| AnalysisExamples.NovemberBoth | Analysis.Api/Controllers/InvoiceController.cs:69-77 | Take the same two records and range with both flags true. The summary lists both and totals 1000. |
| AnalysisExamples.ClosedOnTheDay | Analysis.Tests/Unit/Services/InvoiceServiceTests.cs:121-152 | Two closed records issued on the queried day are both listed when closed=true and open=false, and the total is their sum. |
| AnalysisControllers.GetAll | Analysis.Api/Controllers/InvoiceController.cs:25-34 | The service's list is never null, so the answer is always 200 with the whole table. |
| AnalysisControllers.GetByReference | Analysis.Api/Controllers/InvoiceController.cs:44-58 | 400 "Reference can not be null or empty!" iff the reference is null or blank. 404 iff no record has it. Otherwise 200 with a stored record that has it. Analysis.Api/Controllers/CreditNoteController.cs:44-58 behaves the same for credit notes. |
| AnalysisControllers.QuerySummary | Analysis.Api/Controllers/InvoiceController.cs:83-99 | 400 "Start date cannot be greater than end date." iff both dates are given and the end is before the start. Equal dates or a single date are accepted. Otherwise 200 with the summary, because the summary is never null. Analysis.Api/Controllers/CreditNoteController.cs:83-99 behaves the same for credit notes. |
| AnalysisControllers.InvertedRangeSelectsNothing | Analysis.Api/Controllers/InvoiceController.cs:85-91 | Any query the controller rejects would have selected no record and totalled 0. |
| AnalysisControllers.AcceptedSummaryWithinRange | Analysis.Api/Controllers/CreditNoteController.cs:85-98 | Every record in an accepted summary answer is stored and issued within the requested range. |
| IngestionControllers.RecordController.Get | Ingestion.Api/Controllers/InvoiceController.cs:26-35 | 404 iff the table is empty. Otherwise 200 with every stored record converted. |
| IngestionControllers.RecordController.GetByReference | Ingestion.Api/Controllers/InvoiceController.cs:39-53 | 400 iff the reference is blank, 404 iff it is not stored, and 200 with that record iff it is stored. The action is composed with the corrected service look-up `IngestionServices.ByReference`. With the look-up as written (see Findings), every non-blank reference gets 404. |
| IngestionControllers.RecordController.Post | Ingestion.Api/Controllers/InvoiceController.cs:91-105 | A null body gives 400 "Invoice payload cannot be null!" and stores nothing. A body with any record that fails its annotations gets the framework's 400 (the controller carries `[ApiController]`, line 7) and stores nothing. Otherwise the batch converts. An all-invalid or empty batch gives 400 "... payload is invalid!" and stores nothing. A non-empty valid subset whose references are new and distinct gives 200 with exactly that subset, and the table gains exactly those rows. A valid subset that repeats a key is a fault and stores nothing. Ingestion.Api/Controllers/CreditNoteController.cs:91-105 behaves the same, with the "CreditNote ..." messages. |
| IngestionControllers.RecordController.Update | Ingestion.Api/Controllers/InvoiceController.cs:109-118 | A null body gives 400. A record that fails its annotations gets the framework's 400 and changes nothing. Otherwise 200 with the input iff its Reference is stored, and the stored row is replaced by the converted record. A Reference that is not stored is a fault and changes nothing. |
| IngestionControllers.RecordController.Delete | Ingestion.Api/Controllers/InvoiceController.cs:122-136 | A blank reference gives 400 and changes nothing. 200 true iff the reference was stored. 404 iff it was not. Only that key is removed. Ingestion.Api/Controllers/CreditNoteController.cs:122-136 behaves the same for credit notes. |

## Left out

- Hosting, dependency injection, routing, Swagger, async/await and logging other than a ghost log of warnings are not modelled.
- Entity Framework is not modelled: the database contexts, migrations and schema configuration, bulk-insert internals, transactions and concurrency between the two services. A write is modelled as all-or-nothing. A duplicate key on insert and a missing key on update become a `Failure`, which stands for the exception.
- The Analysis repositories are not part of this model. Their `GetAllQueryable()`, `GetAllAsync()` and `FirstOrDefaultAsync` are modelled as the table sequence given to the service functions.
- The Ingestion `CreditNote` entity is not part of this model. Its `Validate` is assumed to mirror `Invoice.Validate`, with the prefix "CreditNote:" in its messages.
- OpeningValue and PaidValue are `double` in the source and `real` here. Rounding, NaN, infinities and the `double.MaxValue` upper bound of `[Range]` are not modelled.
- `DateTimeOffset` times of day and offsets are not modelled: dates are calendar days. The Analysis range bounds compare whole days.
- The validation attribute is modelled for the one format the program uses, `yyyy-MM-dd`. Other format strings are not modelled.
- Mapping.ToEntity: the mapper's string-to-date conversion is more lenient than `yyyy-MM-dd`. The model accepts only strings that pass the wire check, and treats any other string as the mapper's exception.
- A JSON null in a non-nullable string field of the wire record is not modelled. Those fields are plain strings here.
- String lengths count characters, not UTF-16 code units.
- The service and repository interfaces have no behaviour and are not modelled. The older entity-level services outside `Services/` are not modelled either.
- The `Dates` parser and formatter assume a Gregorian current culture. The date attribute and the mapper pass no format provider, so another culture's calendar would change what parses and how days are written.
- References are compared as exact strings. The SQL Server default collation compares keys without regard to case or trailing spaces, so "INV1" and "inv1 " would clash as keys in the store but not in the model.
- The framework's automatic 400 for a body that fails model validation is modelled by its title only. The per-field error details it lists are not modelled.
- AnalysisControllers.GetAll: the 404 branch for a null list is kept in the body but cannot be reached, because the service returns a list.

## Findings

| source | as written | input that shows it | evidently intended | confidence | as-written member | corrected member |
|---|---|---|---|---|---|---|
| Ingestion.Application/Services/InvoiceService.cs:37-41 (and Ingestion.Application/Services/CreditNoteService.cs:37-41) | `GetByReferenceAsync` maps the entity only when it is null, and returns null otherwise | any Reference that is stored, such as a record just inserted: the service returns null, so `GET /Invoice/{reference}` answers 404 | map and return the found entity; return null only when nothing is found | not executed | IngestionServices.ByReferenceAsWritten, IngestionServices.FoundRecordLostAsWritten | IngestionServices.ByReference |
