/** The Analysis record service: read pass-throughs and the filtered summary.
    The table is the sequence of stored records the repository's query starts
    from. */
module AnalysisServices {
  import opened Wrappers
  import opened Dates
  import opened Entities

  /** The open/closed stage of the summary query. */
  datatype Bucket = OnlyOpen | OnlyClosed | NoFilter

  /** The flag decision table: a flag counts as set only when it is `true`
      (`GetValueOrDefault`), so "both true", "both false", "both absent" and
      "one false, the other absent" all leave the stage out. */
  function BucketFor(includeClosed: Option<bool>, includeOpen: Option<bool>): (b: Bucket)
    ensures b == OnlyOpen <==> includeOpen == Some(true) && includeClosed != Some(true)
    ensures b == OnlyClosed <==> includeClosed == Some(true) && includeOpen != Some(true)
  {
    if includeOpen.Some? || includeClosed.Some? then
      if includeOpen.GetOr(false) && !includeClosed.GetOr(false) then OnlyOpen
      else if !includeOpen.GetOr(false) && includeClosed.GetOr(false) then OnlyClosed
      else NoFilter
    else NoFilter
  }

  /** `SummaryInvoice` / `SummaryCreditNote`. */
  datatype Summary = Summary(
    startDate: Option<CalendarDate>,
    endDate: Option<CalendarDate>,
    includeOpen: Option<bool>,
    includeClosed: Option<bool>,
    totalAmount: real,
    records: seq<Record>)

  /** LINQ `Where`: the elements that satisfy `keep`, in order. */
  function Where(rs: seq<Record>, keep: Record -> bool): (out: seq<Record>)
    ensures |out| <= |rs|
    ensures forall x :: x in out <==> x in rs && keep(x)
    ensures forall x :: multiset(out)[x] == if keep(x) then multiset(rs)[x] else 0
  {
    if rs == [] then []
    else
      assert rs == [rs[0]] + rs[1..];
      var rest := Where(rs[1..], keep);
      if keep(rs[0]) then [rs[0]] + rest else rest
  }

  function IssuedOnOrAfter(start: CalendarDate): Record -> bool {
    (x: Record) => !Before(x.issueDate, start)
  }

  function IssuedOnOrBefore(end: CalendarDate): Record -> bool {
    (x: Record) => !Before(end, x.issueDate)
  }

  function Open(): Record -> bool {
    (x: Record) => x.closedDate.None?
  }

  function Closed(): Record -> bool {
    (x: Record) => x.closedDate.Some?
  }

  /** The sum of OpeningValue, as `SumAsync(i => i.OpeningValue)`. */
  function SumOpening(rs: seq<Record>): real {
    if rs == [] then 0.0 else rs[0].openingValue + SumOpening(rs[1..])
  }

  lemma SumCons(x: Record, rs: seq<Record>)
    ensures SumOpening([x] + rs) == x.openingValue + SumOpening(rs)
  {
    assert ([x] + rs)[1..] == rs;
  }

  /** What the summary keeps, stated field by field. */
  ghost predicate Matches(startDate: Option<CalendarDate>, endDate: Option<CalendarDate>,
                          includeClosed: Option<bool>, includeOpen: Option<bool>, x: Record)
  {
    && (startDate.Some? ==> !Before(x.issueDate, startDate.value))
    && (endDate.Some? ==> !Before(endDate.value, x.issueDate))
    && (includeOpen == Some(true) && includeClosed != Some(true) ==> IsOpen(x))
    && (includeClosed == Some(true) && includeOpen != Some(true) ==> !IsOpen(x))
  }

  /** `GetSummaryInvoiceAsync` / `GetSummaryCreditNoteAsync`: the filters are
      composed on the query in order, then the total and the list are read
      from the same query. The result echoes the inputs and is never null. */
  function GetSummary(table: seq<Record>, startDate: Option<CalendarDate>, endDate: Option<CalendarDate>,
                      includeClosed: Option<bool>, includeOpen: Option<bool>): (s: Summary)
    ensures s.startDate == startDate && s.endDate == endDate
    ensures s.includeClosed == includeClosed && s.includeOpen == includeOpen
    ensures s.totalAmount == SumOpening(s.records)
  {
    var selected := ByBucket(ByDates(table, startDate, endDate), BucketFor(includeClosed, includeOpen));
    Summary(startDate, endDate, includeOpen, includeClosed, SumOpening(selected), selected)
  }

  /** The IssueDate stages of the query: on or after the start, on or before
      the end, each only when given. */
  function ByDates(table: seq<Record>, startDate: Option<CalendarDate>, endDate: Option<CalendarDate>): (out: seq<Record>)
    ensures forall x :: x in out <==> x in table && Matches(startDate, endDate, None, None, x)
    ensures forall x :: multiset(out)[x] ==
                        (if Matches(startDate, endDate, None, None, x) then multiset(table)[x] else 0)
  {
    var afterStart := if startDate.Some? then Where(table, IssuedOnOrAfter(startDate.value)) else table;
    if endDate.Some? then Where(afterStart, IssuedOnOrBefore(endDate.value)) else afterStart
  }

  /** The open/closed stage of the query. */
  function ByBucket(rs: seq<Record>, bucket: Bucket): seq<Record> {
    match bucket
    case OnlyOpen => Where(rs, Open())
    case OnlyClosed => Where(rs, Closed())
    case NoFilter => rs
  }

  /** The summary lists exactly the stored records that match the query, each
      as many times as it is stored. */
  lemma SummarySelects(table: seq<Record>, startDate: Option<CalendarDate>, endDate: Option<CalendarDate>,
                       includeClosed: Option<bool>, includeOpen: Option<bool>)
    ensures var s := GetSummary(table, startDate, endDate, includeClosed, includeOpen);
      && (forall x :: x in s.records <==> x in table && Matches(startDate, endDate, includeClosed, includeOpen, x))
      && (forall x :: multiset(s.records)[x] ==
                      (if Matches(startDate, endDate, includeClosed, includeOpen, x) then multiset(table)[x] else 0))
  {
    var afterEnd := ByDates(table, startDate, endDate);
    var bucket := BucketFor(includeClosed, includeOpen);
    assert GetSummary(table, startDate, endDate, includeClosed, includeOpen).records == ByBucket(afterEnd, bucket);
  }

  /** `GetAllInvoicesAsync` / `GetAllCreditNotesAsync`: the table, unchanged. */
  function GetAllRecords(table: seq<Record>): (all: seq<Record>)
    ensures all == table
  {
    table
  }

  /** `GetInvoiceByReferenceAsync` / `GetCreditNoteByReferenceAsync`
      (`FirstOrDefaultAsync`): the first record with that Reference, or null. */
  function GetRecordByReference(table: seq<Record>, reference: string): (r: Option<Record>)
    ensures r.None? <==> forall x :: x in table ==> x.reference != reference
    ensures r.Some? ==> r.value.reference == reference
    ensures r.Some? ==> exists i :: 0 <= i < |table| && table[i] == r.value &&
                          forall j :: 0 <= j < i ==> table[j].reference != reference
  {
    if table == [] then None
    else if table[0].reference == reference then Some(table[0])
    else
      var rest := GetRecordByReference(table[1..], reference);
      assert forall x :: x in table[1..] ==> x in table;
      if rest.Some? then
        var i :| 0 <= i < |table[1..]| && table[1..][i] == rest.value
                 && forall j :: 0 <= j < i ==> table[1..][j].reference != reference;
        assert table[i + 1] == rest.value;
        rest
      else rest
  }

  /** Filtering what already passed a filter changes nothing. */
  lemma {:induction false} WhereKeepsAll(rs: seq<Record>, keep: Record -> bool)
    requires forall x :: x in rs ==> keep(x)
    ensures Where(rs, keep) == rs
  {
    if rs != [] {
      WhereKeepsAll(rs[1..], keep);
    }
  }

  /** Running the summary again on its own records gives the same summary. */
  lemma SummaryIdempotent(table: seq<Record>, startDate: Option<CalendarDate>, endDate: Option<CalendarDate>,
                          includeClosed: Option<bool>, includeOpen: Option<bool>)
    ensures var s := GetSummary(table, startDate, endDate, includeClosed, includeOpen);
      GetSummary(s.records, startDate, endDate, includeClosed, includeOpen) == s
  {
    var out := GetSummary(table, startDate, endDate, includeClosed, includeOpen).records;
    if startDate.Some? {
      WhereKeepsAll(out, IssuedOnOrAfter(startDate.value));
    }
    if endDate.Some? {
      WhereKeepsAll(out, IssuedOnOrBefore(endDate.value));
    }
    assert ByDates(out, startDate, endDate) == out;
    match BucketFor(includeClosed, includeOpen)
    case OnlyOpen => WhereKeepsAll(out, Open());
    case OnlyClosed => WhereKeepsAll(out, Closed());
    case NoFilter =>
  }

  /** The open part and the closed part of a set add up to its total. */
  lemma {:induction false} OpenClosedSplit(rs: seq<Record>)
    ensures SumOpening(Where(rs, Open())) + SumOpening(Where(rs, Closed())) == SumOpening(rs)
  {
    if rs != [] {
      OpenClosedSplit(rs[1..]);
      SumCons(rs[0], Where(rs[1..], Open()));
      SumCons(rs[0], Where(rs[1..], Closed()));
    }
  }

  /** Over the same dates, the open-only total plus the closed-only total is
      the unfiltered total. */
  lemma OpenAndClosedTotalsAdd(table: seq<Record>, startDate: Option<CalendarDate>, endDate: Option<CalendarDate>)
    ensures GetSummary(table, startDate, endDate, Some(false), Some(true)).totalAmount
          + GetSummary(table, startDate, endDate, Some(true), Some(false)).totalAmount
         == GetSummary(table, startDate, endDate, None, None).totalAmount
  {
    OpenClosedSplit(ByDates(table, startDate, endDate));
  }

  /** With non-negative amounts, a filter never increases the total. */
  lemma {:induction false} WhereSumBounded(rs: seq<Record>, keep: Record -> bool)
    requires forall x :: x in rs ==> 0.0 <= x.openingValue
    ensures 0.0 <= SumOpening(Where(rs, keep)) <= SumOpening(rs)
  {
    if rs != [] {
      WhereSumBounded(rs[1..], keep);
      SumCons(rs[0], Where(rs[1..], keep));
    }
  }

  /** With non-negative amounts the summary total lies between zero and the
      total of the whole table. */
  lemma TotalBounded(table: seq<Record>, startDate: Option<CalendarDate>, endDate: Option<CalendarDate>,
                     includeClosed: Option<bool>, includeOpen: Option<bool>)
    requires forall x :: x in table ==> 0.0 <= x.openingValue
    ensures var s := GetSummary(table, startDate, endDate, includeClosed, includeOpen);
      0.0 <= s.totalAmount <= SumOpening(table)
  {
    var afterStart := if startDate.Some? then Where(table, IssuedOnOrAfter(startDate.value)) else table;
    if startDate.Some? {
      WhereSumBounded(table, IssuedOnOrAfter(startDate.value));
    }
    var afterEnd := ByDates(table, startDate, endDate);
    if endDate.Some? {
      WhereSumBounded(afterStart, IssuedOnOrBefore(endDate.value));
    }
    assert SumOpening(afterEnd) <= SumOpening(table);
    match BucketFor(includeClosed, includeOpen)
    case OnlyOpen => WhereSumBounded(afterEnd, Open());
    case OnlyClosed => WhereSumBounded(afterEnd, Closed());
    case NoFilter => NonNegativeSum(afterEnd);
  }

  lemma {:induction false} NonNegativeSum(rs: seq<Record>)
    requires forall x :: x in rs ==> 0.0 <= x.openingValue
    ensures 0.0 <= SumOpening(rs)
  {
    if rs != [] {
      NonNegativeSum(rs[1..]);
    }
  }

  /** Without dates, and with a flag combination that applies no open/closed
      stage, the summary lists the whole table and totals all of it. */
  lemma NoFiltersSelectAll(table: seq<Record>, includeClosed: Option<bool>, includeOpen: Option<bool>)
    requires BucketFor(includeClosed, includeOpen) == NoFilter
    ensures GetSummary(table, None, None, includeClosed, includeOpen).records == table
    ensures GetSummary(table, None, None, includeClosed, includeOpen).totalAmount == SumOpening(table)
  {
    assert ByDates(table, None, None) == table;
  }

  /** One stored record and no query: its OpeningValue is the total. */
  lemma SingleRecordTotal(x: Record)
    ensures GetSummary([x], None, None, None, None) == Summary(None, None, None, None, x.openingValue, [x])
  {
    NoFiltersSelectAll([x], None, None);
    assert [x][1..] == [];
  }
}

/** Worked examples of the summary over two records of 500 each issued in
    November 2023, one still open and one closed. */
module AnalysisExamples {
  import opened Wrappers
  import opened Dates
  import opened Entities
  import opened AnalysisServices

  lemma WherePair(a: Record, b: Record, keep: Record -> bool)
    ensures Where([a, b], keep) == (if keep(a) then [a] else []) + (if keep(b) then [b] else [])
  {
    assert [a, b][1..] == [b];
    assert [b][1..] == [];
  }

  lemma SumPair(a: Record, b: Record)
    ensures SumOpening([a, b]) == a.openingValue + b.openingValue
    ensures SumOpening([a]) == a.openingValue
  {
    assert [a, b][1..] == [b];
    assert [a][1..] == [];
    assert SumOpening([b]) == b.openingValue by {
      assert [b][1..] == [];
    }
  }

  /** Asking for open records only over November keeps the open one. */
  lemma NovemberOpenOnly(open: Record, closed: Record)
    requires open.issueDate == Date(2023, 11, 10) && open.closedDate.None? && open.openingValue == 500.0
    requires closed.issueDate == Date(2023, 11, 12) && closed.closedDate == Some(Date(2023, 11, 20))
    requires closed.openingValue == 500.0
    ensures var s := GetSummary([open, closed], Some(Date(2023, 11, 1)), Some(Date(2023, 11, 30)), Some(false), Some(true));
            s.records == [open] && s.totalAmount == 500.0
  {
    NovemberDates(open, closed);
    WherePair(open, closed, Open());
    SumPair(open, closed);
  }

  /** Asking for both over November keeps both and totals 1000. */
  lemma NovemberBoth(open: Record, closed: Record)
    requires open.issueDate == Date(2023, 11, 10) && open.closedDate.None? && open.openingValue == 500.0
    requires closed.issueDate == Date(2023, 11, 12) && closed.closedDate == Some(Date(2023, 11, 20))
    requires closed.openingValue == 500.0
    ensures var s := GetSummary([open, closed], Some(Date(2023, 11, 1)), Some(Date(2023, 11, 30)), Some(true), Some(true));
            s.records == [open, closed] && s.totalAmount == 1000.0
  {
    NovemberDates(open, closed);
    SumPair(open, closed);
  }

  lemma NovemberDates(open: Record, closed: Record)
    requires open.issueDate == Date(2023, 11, 10) && closed.issueDate == Date(2023, 11, 12)
    ensures ByDates([open, closed], Some(Date(2023, 11, 1)), Some(Date(2023, 11, 30))) == [open, closed]
  {
    assert !Before(open.issueDate, Date(2023, 11, 1)) && !Before(closed.issueDate, Date(2023, 11, 1));
    assert !Before(Date(2023, 11, 30), open.issueDate) && !Before(Date(2023, 11, 30), closed.issueDate);
    BothInRange(open, closed, Date(2023, 11, 1), Date(2023, 11, 30));
  }

  /** Two records issued inside a range are both kept by the date stage. */
  lemma BothInRange(first: Record, second: Record, startDate: CalendarDate, endDate: CalendarDate)
    requires !Before(first.issueDate, startDate) && !Before(second.issueDate, startDate)
    requires !Before(endDate, first.issueDate) && !Before(endDate, second.issueDate)
    ensures ByDates([first, second], Some(startDate), Some(endDate)) == [first, second]
  {
    WherePair(first, second, IssuedOnOrAfter(startDate));
    WherePair(first, second, IssuedOnOrBefore(endDate));
  }

  /** Two closed records issued on the queried day are both listed when only
      closed records are asked for. */
  lemma ClosedOnTheDay(first: Record, second: Record)
    requires first.issueDate == Date(2024, 2, 29) && first.closedDate.Some?
    requires second.issueDate == Date(2024, 2, 29) && second.closedDate.Some?
    ensures var s := GetSummary([first, second], Some(Date(2024, 2, 29)), Some(Date(2024, 2, 29)), Some(true), Some(false));
            s.records == [first, second] && s.totalAmount == first.openingValue + second.openingValue
  {
    SameDay(first, second, Date(2024, 2, 29));
    WherePair(first, second, Closed());
    SumPair(first, second);
  }

  /** A one-day range keeps the records issued on that day. */
  lemma SameDay(first: Record, second: Record, day: CalendarDate)
    requires first.issueDate == day && second.issueDate == day
    ensures ByDates([first, second], Some(day), Some(day)) == [first, second]
  {
    BothInRange(first, second, day, day);
  }
}
