/** Worked rows: concrete header dates and rates and the spans the converter
    makes of them. Each one is derived from the general theorems: a candidate
    list of runs is shown to be the row's decomposition into maximal runs, and
    uniqueness of that decomposition pins down the spans. */
module Scenarios {
  import opened Wrappers
  import opened Dates
  import opened Cells
  import opened Runs
  import opened Spans
  import opened Converter

  const Codes99213: Codes := Codes("99213", "", "")

  /** The first days of January to April 2024. */
  const Months2024: seq<Date> := [Date(2024, 1, 1), Date(2024, 2, 1), Date(2024, 3, 1), Date(2024, 4, 1)]

  /** The spans of rates, given that runs is their decomposition. */
  lemma SpansFromRuns<R>(codes: Codes, dates: seq<Date>, rates: seq<Option<R>>, runs: seq<Run<R>>)
    requires |rates| <= |dates| && Decomposes(rates, runs)
    ensures Bounded(runs, |rates|)
    ensures Compact(codes, dates, rates) == SpansOf(codes, dates, |rates|, runs)
  {
    DecompositionUnique(rates, runs);
  }

  /** Two runs give two spans, in the same order. */
  lemma TwoSpans<R>(codes: Codes, dates: seq<Date>, n: nat, a: Run<R>, b: Run<R>)
    requires n <= |dates| && a.first <= a.last < n && b.first <= b.last < n
    ensures SpansOf(codes, dates, n, [a, b]) == [SpanOf(codes, dates, n, a), SpanOf(codes, dates, n, b)]
  {
    var spans := SpansOf(codes, dates, n, [a, b]);
    assert spans[0] == SpanOf(codes, dates, n, a);
    assert spans[1] == SpanOf(codes, dates, n, b);
  }

  lemma MergeGapRuns()
    ensures Decomposes([Some(10), Some(10), None, Some(12)], [Run(10, 0, 1), Run(12, 3, 3)])
  {
    var runs := [Run(10, 0, 1), Run(12, 3, 3)];
    assert InRun(runs[0], 0) && InRun(runs[0], 1) && InRun(runs[1], 3);
  }

  /** 10, 10, blank, 12: the two tens merge into one span that ends on the
      last day of February of a leap year, the blank closes it, and the twelve
      runs to the Sentinel. */
  lemma MergeGapAndOpenEnd()
    ensures Compact(Codes99213, Months2024, [Some(10), Some(10), None, Some(12)])
         == [Span("99213", "", "", 10, Date(2024, 1, 1), Date(2024, 2, 29)),
             Span("99213", "", "", 12, Date(2024, 4, 1), Sentinel)]
  {
    MergeGapRuns();
    SpansFromRuns(Codes99213, Months2024, [Some(10), Some(10), None, Some(12)], [Run(10, 0, 1), Run(12, 3, 3)]);
    TwoSpans(Codes99213, Months2024, 4, Run(10, 0, 1), Run(12, 3, 3));
    LeapFebruaryEnd();
  }

  /** A row without a rate has no spans. */
  lemma AllBlank()
    ensures Compact<int>(Codes99213, Months2024, [None, None, None, None]) == []
  {
    var rates: seq<Option<int>> := [None, None, None, None];
    SpansFromRuns(Codes99213, Months2024, rates, []);
  }

  /** A leading blank is skipped: the span opens in February. */
  lemma LeadingBlank()
    ensures Compact(Codes99213, Months2024[..2], [None, Some(75)])
         == [Span("99213", "", "", 75, Date(2024, 2, 1), Sentinel)]
  {
    var rates: seq<Option<int>> := [None, Some(75)];
    var runs := [Run(75, 1, 1)];
    assert InRun(runs[0], 1);
    SpansFromRuns(Codes99213, Months2024[..2], rates, runs);
  }

  lemma GapRuns()
    ensures Decomposes([Some(5), None, None, Some(5)], [Run(5, 0, 0), Run(5, 3, 3)])
  {
    var runs := [Run(5, 0, 0), Run(5, 3, 3)];
    assert InRun(runs[0], 0) && InRun(runs[1], 3);
  }

  /** The same rate either side of a gap gives two spans, not one. */
  lemma SameRateAcrossGap()
    ensures Compact(Codes99213, Months2024, [Some(5), None, None, Some(5)])
         == [Span("99213", "", "", 5, Date(2024, 1, 1), Date(2024, 1, 31)),
             Span("99213", "", "", 5, Date(2024, 4, 1), Sentinel)]
  {
    GapRuns();
    SpansFromRuns(Codes99213, Months2024, [Some(5), None, None, Some(5)], [Run(5, 0, 0), Run(5, 3, 3)]);
    TwoSpans(Codes99213, Months2024, 4, Run(5, 0, 0), Run(5, 3, 3));
    JanuaryEnd();
  }

  lemma JanuaryEnd()
    ensures PrevDay(Date(2024, 2, 1)) == Date(2024, 1, 31)
  {
  }

  /** A header cell holding a date as a number is rejected: only month names
      in a string cell are understood. */
  lemma NumericHeaderCellRejected(abbreviated: string -> Option<YearMonth>, full: string -> Option<YearMonth>)
    ensures ParseDateFromHeader(Some(Cell<int>.NumericCell(45292)), abbreviated, full) == Failure(InvalidHeaderCell)
  {
  }
}
