/** RateHistoryConverter: the header row is parsed into one date per month
    column (column D on), every data row is compacted into rate spans, and the
    spans are stored under a key built from the row's PROC, MOD and MOD2 cells. */
module Converter {
  import opened Wrappers
  import opened Dates
  import opened Text
  import opened Cells
  import opened Runs
  import opened Spans
  import opened KeyedTable

  /** Column D: the first month column, of the header and of every data row. */
  const StartColumn: nat := 3

  /** The cells of a row from the first month column on (none when the row is shorter). */
  function MonthCells<R>(row: Row<R>): (cells: seq<Option<Cell<R>>>)
    ensures |cells| == if |row| > StartColumn then |row| - StartColumn else 0
    ensures forall k :: 0 <= k < |cells| ==> cells[k] == row[StartColumn + k]
  {
    if |row| > StartColumn then row[StartColumn..] else []
  }

  /** The optional rate of each month column of a row (getRateFromCell per column). */
  function RatesOf<R>(row: Row<R>, parseNumber: string -> Option<R>): (rates: seq<Option<R>>)
    ensures |rates| == |MonthCells(row)|
    ensures forall k :: 0 <= k < |rates| ==> rates[k] == RateFromCell(MonthCells(row)[k], parseNumber)
  {
    var cells := MonthCells(row);
    seq(|cells|, k requires 0 <= k < |cells| => RateFromCell(cells[k], parseNumber))
  }

  /** rates holds the rate of each month column of row, as the loop reads it. */
  ghost predicate ColumnRates<R>(row: Row<R>, parseNumber: string -> Option<R>, rates: seq<Option<R>>) {
    && |rates| == |MonthCells(row)|
    && forall k :: 0 <= k < |rates| ==> rates[k] == RateFromCell(CellAt(row, StartColumn + k), parseNumber)
  }

  lemma RatesOfColumns<R>(row: Row<R>, parseNumber: string -> Option<R>)
    ensures ColumnRates(row, parseNumber, RatesOf(row, parseNumber))
  {
  }

  /** A MOD or MOD2 cell as a span carries it: "" when the row has no such cell,
      otherwise its trimmed string value (which fails on a numeric cell). */
  function ModifierOf<R>(c: Option<Cell<R>>): (r: Result<string, Error>)
    ensures r.Success? <==> c.None? || StringValue(c).Success?
    ensures c.None? ==> r == Success("")
    ensures c.Some? && r.Success? ==> r.value == Trim(StringValue(c).value)
  {
    if c.None? then Success("")
    else
      var s :- StringValue(c);
      Success(Trim(s))
  }

  /** The codes every span of a row carries (lines 123-125): the trimmed PROC
      string, which must be present, and the two modifiers. */
  function CodesOf<R>(row: Row<R>): (r: Result<Codes, Error>)
    ensures r.Success? <==> StringValue(CellAt(row, 0)).Success?
                            && ModifierOf(CellAt(row, 1)).Success? && ModifierOf(CellAt(row, 2)).Success?
    ensures |row| == 0 ==> r == Failure(NullCell)
    ensures r.Success? ==> r.value.proc == Trim(StringValue(CellAt(row, 0)).value)
    ensures r.Success? ==> r.value.mod == ModifierOf(CellAt(row, 1)).value
    ensures r.Success? ==> r.value.mod2 == ModifierOf(CellAt(row, 2)).value
  {
    var proc :- StringValue(CellAt(row, 0));
    var mod :- ModifierOf(CellAt(row, 1));
    var mod2 :- ModifierOf(CellAt(row, 2));
    Success(Codes(Trim(proc), mod, mod2))
  }

  /** Every code a row's spans carry is already trimmed. */
  lemma CodesTrimmed<R>(row: Row<R>)
    requires CodesOf(row).Success?
    ensures var codes := CodesOf(row).value;
            Trim(codes.proc) == codes.proc && Trim(codes.mod) == codes.mod && Trim(codes.mod2) == codes.mod2
  {
    TrimIdempotent(StringValue(CellAt(row, 0)).value);
    TrimModifier(CellAt(row, 1));
    TrimModifier(CellAt(row, 2));
  }

  lemma TrimModifier<R>(c: Option<Cell<R>>)
    requires ModifierOf(c).Success?
    ensures Trim(ModifierOf(c).value) == ModifierOf(c).value
  {
    if c.Some? {
      TrimIdempotent(StringValue(c).value);
    } else {
      assert Trim("") == "";
    }
  }

  /** The compaction of a row whose codes have been read: it fails when the
      row has a month column without a header date. */
  function CompactRow<R(==)>(codes: Codes, row: Row<R>, dates: seq<Date>, parseNumber: string -> Option<R>)
    : (r: Result<seq<Span<R>>, Error>)
    ensures r.Success? <==> |MonthCells(row)| <= |dates|
    ensures r.Failure? ==> r.error == DateIndexOutOfBounds(|dates|)
    ensures r.Success? ==> forall s :: s in r.value ==> s.proc == codes.proc && s.mod == codes.mod && s.mod2 == codes.mod2
  {
    var rates := RatesOf(row, parseNumber);
    if |rates| > |dates| then Failure(DateIndexOutOfBounds(|dates|)) else Success(Compact(codes, dates, rates))
  }

  /** generateRateSpansForRow as a function: the row's codes are read first, a
      row with more month columns than the header has dates fails (dates.get
      out of bounds), and otherwise the spans are the compaction of the row's
      rates against the header dates. */
  function RowSpans<R(==)>(row: Row<R>, dates: seq<Date>, parseNumber: string -> Option<R>): (r: Result<seq<Span<R>>, Error>)
    ensures r.Success? <==> CodesOf(row).Success? && |MonthCells(row)| <= |dates|
    ensures CodesOf(row).Failure? ==> r == Failure(CodesOf(row).error)
    ensures CodesOf(row).Success? && |MonthCells(row)| > |dates| ==> r == Failure(DateIndexOutOfBounds(|dates|))
    ensures r.Success? ==> forall s :: s in r.value ==>
              s.proc == CodesOf(row).value.proc && s.mod == CodesOf(row).value.mod && s.mod2 == CodesOf(row).value.mod2
  {
    var codes :- CodesOf(row);
    CompactRow(codes, row, dates, parseNumber)
  }

  /** The scan has reached column i in state st, having emitted runs: what is
      left to emit from there completes the decomposition of the row. */
  ghost predicate ScannedTo<R>(rates: seq<Option<R>>, runs: seq<Run<R>>, i: nat, st: Scan<R>) {
    && i <= |rates|
    && (st.Open? ==> st.first < i)
    && runs + RunsFrom(rates, i, st) == Decompose(rates)
  }

  /** The scan starts idle at the first column, with nothing emitted. */
  lemma ScanStarts<R>(rates: seq<Option<R>>)
    ensures ScannedTo(rates, [], 0, Idle)
  {
    assert [] + RunsFrom(rates, 0, Idle) == RunsFrom(rates, 0, Idle);
  }

  /** After the last column, a run still open is emitted and ends there. */
  lemma ScanEnds<R>(rates: seq<Option<R>>, runs: seq<Run<R>>, st: Scan<R>)
    requires ScannedTo(rates, runs, |rates|, st)
    ensures st.Idle? ==> runs == Decompose(rates)
    ensures st.Open? ==> runs + [Run(st.rate, st.first, |rates| - 1)] == Decompose(rates)
  {
    if st.Idle? {
      assert runs + [] == runs;
    }
  }

  /** One column that does not end the open run: the scan moves on without
      emitting, to its next state. */
  lemma ScanKeeps<R>(rates: seq<Option<R>>, runs: seq<Run<R>>, i: nat, st: Scan<R>)
    requires i < |rates| && !Closes(st, rates[i]) && ScannedTo(rates, runs, i, st)
    ensures ScannedTo(rates, runs, i + 1, NextScan(st, rates[i], i))
  {
  }

  /** One column that ends the open run (a blank or another rate): the run is
      emitted, ending at the previous column. */
  lemma ScanCloses<R>(rates: seq<Option<R>>, runs: seq<Run<R>>, i: nat, st: Scan<R>)
    requires i < |rates| && Closes(st, rates[i]) && ScannedTo(rates, runs, i, st)
    ensures ScannedTo(rates, runs + [Run(st.rate, st.first, i - 1)], i + 1, NextScan(st, rates[i], i))
  {
    assert runs + RunsFrom(rates, i, st)
        == (runs + [Run(st.rate, st.first, i - 1)]) + RunsFrom(rates, i + 1, NextScan(st, rates[i], i));
  }

  /** Adding a run adds its span. */
  lemma SpansOfSnoc<R>(codes: Codes, dates: seq<Date>, n: nat, runs: seq<Run<R>>, run: Run<R>)
    requires n <= |dates| && Bounded(runs, n) && run.first <= run.last < n
    ensures Bounded(runs + [run], n)
    ensures SpansOf(codes, dates, n, runs + [run]) == SpansOf(codes, dates, n, runs) + [SpanOf(codes, dates, n, run)]
  {
    var all := runs + [run];
    assert forall j :: 0 <= j < |runs| ==> all[j] == runs[j];
  }

  /** Runs that each end before column m, a column with a header date. */
  ghost predicate ClosedBefore<R>(runs: seq<Run<R>>, m: nat) {
    forall j :: 0 <= j < |runs| ==> runs[j].first <= runs[j].last && runs[j].last + 1 < m
  }

  /** The span of a run closed by the column after it: it ends on the day
      before that column's header date. */
  function ClosedSpan<R>(codes: Codes, dates: seq<Date>, run: Run<R>): Span<R>
    requires run.first <= run.last && run.last + 1 < |dates|
  {
    Span(codes.proc, codes.mod, codes.mod2, run.rate, dates[run.first], PrevDay(dates[run.last + 1]))
  }

  /** When the scan has passed the last column, the spans emitted so far,
      followed by the span of the run still open (ending on the Sentinel), are
      the compaction of the row. */
  lemma ScanFinishes<R>(codes: Codes, dates: seq<Date>, rates: seq<Option<R>>, runs: seq<Run<R>>, st: Scan<R>,
                        spans: seq<Span<R>>)
    requires |rates| <= |dates| && ScannedTo(rates, runs, |rates|, st)
    requires Emitted(codes, dates, runs, spans, |rates|)
    ensures st.Idle? ==> spans == Compact(codes, dates, rates)
    ensures st.Open? ==> spans + [Span(codes.proc, codes.mod, codes.mod2, st.rate, dates[st.first], Sentinel)]
                         == Compact(codes, dates, rates)
  {
    var n := |rates|;
    ClosedSpansAgree(codes, dates, n, runs, spans);
    ScanEnds(rates, runs, st);
    if st.Open? {
      SpansOfSnoc(codes, dates, n, runs, Run(st.rate, st.first, n - 1));
    }
  }

  /** spans are the spans of the runs closed before column m. */
  ghost predicate Emitted<R>(codes: Codes, dates: seq<Date>, runs: seq<Run<R>>, spans: seq<Span<R>>, m: nat) {
    && m <= |dates|
    && ClosedBefore(runs, m)
    && |spans| == |runs|
    && forall j :: 0 <= j < |runs| ==> spans[j] == ClosedSpan(codes, dates, runs[j])
  }

  /** Closing a run at column m emits its span. */
  lemma EmitClosed<R>(codes: Codes, dates: seq<Date>, runs: seq<Run<R>>, spans: seq<Span<R>>, m: nat, run: Run<R>)
    requires Emitted(codes, dates, runs, spans, m) && m < |dates|
    requires run.first <= run.last && run.last + 1 == m
    ensures Emitted(codes, dates, runs + [run], spans + [ClosedSpan(codes, dates, run)], m + 1)
  {
    var runs', spans' := runs + [run], spans + [ClosedSpan(codes, dates, run)];
    forall j | 0 <= j < |runs'|
      ensures runs'[j].first <= runs'[j].last && runs'[j].last + 1 < m + 1
      ensures spans'[j] == ClosedSpan(codes, dates, runs'[j])
    {
      if j < |runs| {
        assert runs'[j] == runs[j] && spans'[j] == spans[j];
      }
    }
  }

  /** Emitted spans stay emitted at the next column. */
  lemma EmittedNext<R>(codes: Codes, dates: seq<Date>, runs: seq<Run<R>>, spans: seq<Span<R>>, m: nat)
    requires Emitted(codes, dates, runs, spans, m) && m < |dates|
    ensures Emitted(codes, dates, runs, spans, m + 1)
  {
  }

  /** Closed runs give the same spans as in the whole row of n columns. */
  lemma ClosedSpansAgree<R>(codes: Codes, dates: seq<Date>, n: nat, runs: seq<Run<R>>, spans: seq<Span<R>>)
    requires n <= |dates| && ClosedBefore(runs, n) && |spans| == |runs|
    requires forall j :: 0 <= j < |runs| ==> spans[j] == ClosedSpan(codes, dates, runs[j])
    ensures Bounded(runs, n) && spans == SpansOf(codes, dates, n, runs)
  {
  }

  /** generateRateSpansForRow (lines 121-170), statement by statement: the
      codes, then the pass over the month columns. It computes exactly RowSpans. */
  method GenerateRateSpansForRow<R(==)>(row: Row<R>, dates: seq<Date>, parseNumber: string -> Option<R>)
    returns (res: Result<seq<Span<R>>, Error>)
    ensures res == RowSpans(row, dates, parseNumber)
  {
    var procCell := StringValue(CellAt(row, 0));
    if procCell.Failure? {
      return Failure(procCell.error);
    }
    var procCode := Trim(procCell.value);
    var mod :- ModifierOf(CellAt(row, 1));
    var mod2 :- ModifierOf(CellAt(row, 2));
    var codes := Codes(procCode, mod, mod2);
    assert codes == CodesOf(row).value;
    RatesOfColumns(row, parseNumber);
    res := ScanColumns(codes, row, dates, parseNumber, RatesOf(row, parseNumber));
  }

  /** The loop state of lines 130-162 before month column i: runs and spans
      are what has been closed and emitted, st is the scan state, and the
      Java variables lastRate and spanStart hold its rate and start date. */
  ghost predicate Scanning<R>(codes: Codes, dates: seq<Date>, rates: seq<Option<R>>, i: nat,
                              runs: seq<Run<R>>, st: Scan<R>, spans: seq<Span<R>>,
                              lastRate: Option<R>, spanStart: Option<Date>) {
    && ScannedTo(rates, runs, i, st)
    && Emitted(codes, dates, runs, spans, i)
    && (st.Idle? <==> lastRate.None?)
    && (st.Open? ==> lastRate == Some(st.rate) && spanStart == Some(dates[st.first]))
  }

  lemma ScanBegins<R>(codes: Codes, dates: seq<Date>, rates: seq<Option<R>>)
    ensures Scanning(codes, dates, rates, 0, [], Idle, [], None, None)
  {
    ScanStarts(rates);
  }

  /** Lines 136-138: a blank before any rate is skipped. */
  lemma StepSkip<R>(codes: Codes, dates: seq<Date>, rates: seq<Option<R>>, i: nat,
                    runs: seq<Run<R>>, st: Scan<R>, spans: seq<Span<R>>,
                    lastRate: Option<R>, spanStart: Option<Date>)
    requires Scanning(codes, dates, rates, i, runs, st, spans, lastRate, spanStart)
    requires i < |rates| && i < |dates| && lastRate.None? && rates[i].None?
    ensures Scanning(codes, dates, rates, i + 1, runs, NextScan(st, rates[i], i), spans, lastRate, spanStart)
  {
    ScanKeeps(rates, runs, i, st);
    EmittedNext(codes, dates, runs, spans, i);
  }

  /** Lines 141-145: the first rate after a blank opens a span on this month. */
  lemma StepStart<R>(codes: Codes, dates: seq<Date>, rates: seq<Option<R>>, i: nat,
                     runs: seq<Run<R>>, st: Scan<R>, spans: seq<Span<R>>,
                     lastRate: Option<R>, spanStart: Option<Date>)
    requires Scanning(codes, dates, rates, i, runs, st, spans, lastRate, spanStart)
    requires i < |rates| && i < |dates| && lastRate.None? && rates[i].Some?
    ensures Scanning(codes, dates, rates, i + 1, runs, NextScan(st, rates[i], i), spans, rates[i], Some(dates[i]))
  {
    ScanKeeps(rates, runs, i, st);
    EmittedNext(codes, dates, runs, spans, i);
  }

  /** Lines 148-160: a blank or another rate emits the open span, ending the
      day before this month, and opens a new one when there is a rate. */
  lemma StepClose<R>(codes: Codes, dates: seq<Date>, rates: seq<Option<R>>, i: nat,
                     runs: seq<Run<R>>, st: Scan<R>, spans: seq<Span<R>>,
                     lastRate: Option<R>, spanStart: Option<Date>)
    requires Scanning(codes, dates, rates, i, runs, st, spans, lastRate, spanStart)
    requires i < |rates| && i < |dates| && lastRate.Some? && rates[i] != lastRate
    ensures st.Open? && spanStart.Some?
    ensures var runs', spans' := runs + [Run(st.rate, st.first, i - 1)],
              spans + [Span(codes.proc, codes.mod, codes.mod2, lastRate.value, spanStart.value, PrevDay(dates[i]))];
            && (rates[i].Some? ==>
                  Scanning(codes, dates, rates, i + 1, runs', NextScan(st, rates[i], i), spans', rates[i], Some(dates[i])))
            && (rates[i].None? ==>
                  Scanning(codes, dates, rates, i + 1, runs', NextScan(st, rates[i], i), spans', None, None))
  {
    var closed := Run(st.rate, st.first, i - 1);
    ScanCloses(rates, runs, i, st);
    EmitClosed(codes, dates, runs, spans, i, closed);
    assert ClosedSpan(codes, dates, closed)
        == Span(codes.proc, codes.mod, codes.mod2, lastRate.value, spanStart.value, PrevDay(dates[i]));
  }

  /** The same rate again: the open span goes on. */
  lemma StepExtend<R>(codes: Codes, dates: seq<Date>, rates: seq<Option<R>>, i: nat,
                      runs: seq<Run<R>>, st: Scan<R>, spans: seq<Span<R>>,
                      lastRate: Option<R>, spanStart: Option<Date>)
    requires Scanning(codes, dates, rates, i, runs, st, spans, lastRate, spanStart)
    requires i < |rates| && i < |dates| && lastRate.Some? && rates[i] == lastRate
    ensures Scanning(codes, dates, rates, i + 1, runs, NextScan(st, rates[i], i), spans, lastRate, spanStart)
  {
    ScanKeeps(rates, runs, i, st);
    EmittedNext(codes, dates, runs, spans, i);
  }

  /** What one month column does to the Java variables, whatever came before:
      lastRate becomes the column's rate; spanStart becomes the column's date
      when a different rate starts, stays when the rate continues, is cleared
      by a blank that ends a span and left alone by a blank after a blank; one
      span is appended, and none removed, exactly when an open span ends. */
  ghost predicate ColumnStep<R>(currentRate: Option<R>, currentDate: Date,
                          spans: seq<Span<R>>, lastRate: Option<R>, spanStart: Option<Date>,
                          spans': seq<Span<R>>, lastRate': Option<R>, spanStart': Option<Date>)
  {
    && lastRate' == currentRate
    && (currentRate.None? && lastRate.Some? ==> spanStart' == None)
    && (currentRate.None? && lastRate.None? ==> spanStart' == spanStart)
    && (currentRate.Some? && currentRate != lastRate ==> spanStart' == Some(currentDate))
    && (currentRate.Some? && currentRate == lastRate ==> spanStart' == spanStart)
    && |spans'| == |spans| + (if lastRate.Some? && currentRate != lastRate then 1 else 0)
    && spans'[..|spans|] == spans
  }

  /** Lines 135-160, the body of the loop over the month columns: month column
      i, sheet column StartColumn + i, is read with the header date dates[i]
      and updates the spans emitted so far, lastRate and spanStart. */
  method ScanColumn<R(==)>(codes: Codes, row: Row<R>, dates: seq<Date>, parseNumber: string -> Option<R>,
                           ghost rates: seq<Option<R>>, i: nat,
                           spans: seq<Span<R>>, lastRate: Option<R>, spanStart: Option<Date>,
                           ghost runs: seq<Run<R>>, ghost st: Scan<R>)
    returns (spans': seq<Span<R>>, lastRate': Option<R>, spanStart': Option<Date>, ghost runs': seq<Run<R>>)
    requires ColumnRates(row, parseNumber, rates)
    requires Scanning(codes, dates, rates, i, runs, st, spans, lastRate, spanStart)
    requires i < |rates| && i < |dates|
    ensures Scanning(codes, dates, rates, i + 1, runs', NextScan(st, rates[i], i), spans', lastRate', spanStart')
    ensures ColumnStep(rates[i], dates[i], spans, lastRate, spanStart, spans', lastRate', spanStart')
    ensures (lastRate.None? ==> spanStart.None?) ==> (lastRate'.None? ==> spanStart'.None?)
  {
    var currentRate := RateFromCell(CellAt(row, StartColumn + i), parseNumber);
    var currentDate := dates[i];
    assert currentRate == rates[i];
    spans', lastRate', spanStart', runs' := spans, lastRate, spanStart, runs;
    if lastRate.None? && currentRate.None? {
      // still before the first rate
      StepSkip(codes, dates, rates, i, runs, st, spans, lastRate, spanStart);
    } else if lastRate.None? && currentRate.Some? {
      StepStart(codes, dates, rates, i, runs, st, spans, lastRate, spanStart);
      lastRate' := currentRate;
      spanStart' := Some(currentDate);
    } else if currentRate.None? || currentRate != lastRate {
      StepClose(codes, dates, rates, i, runs, st, spans, lastRate, spanStart);
      var spanEnd := PrevDay(currentDate);
      spans' := spans + [Span(codes.proc, codes.mod, codes.mod2, lastRate.value, spanStart.value, spanEnd)];
      runs' := runs + [Run(st.rate, st.first, i - 1)];
      if currentRate.Some? {
        lastRate' := currentRate;
        spanStart' := Some(currentDate);
      } else {
        lastRate' := None;
        spanStart' := None;
      }
    } else {
      StepExtend(codes, dates, rates, i, runs, st, spans, lastRate, spanStart);
    }
  }

  /** Lines 127-162: one pass over the month columns with lastRate and
      spanStart. Month column i is sheet column StartColumn + i, and its header
      date is dates[i]; the pass stops, out of bounds, at the first month column
      without a header date. Otherwise it ends with the runs of the row closed,
      the spans of those runs emitted, and lastRate and spanStart describing
      the run still open. */
  method ScanMonths<R(==)>(codes: Codes, row: Row<R>, dates: seq<Date>, parseNumber: string -> Option<R>,
                           ghost rates: seq<Option<R>>)
    returns (inBounds: bool, spans: seq<Span<R>>, lastRate: Option<R>, spanStart: Option<Date>,
             ghost runs: seq<Run<R>>, ghost st: Scan<R>)
    requires ColumnRates(row, parseNumber, rates)
    ensures inBounds <==> |rates| <= |dates|
    ensures inBounds ==> Scanning(codes, dates, rates, |rates|, runs, st, spans, lastRate, spanStart)
  {
    runs, st := [], Idle;
    spans, lastRate, spanStart := [], None, None;

    ScanBegins(codes, dates, rates);
    var i: nat := 0;
    while StartColumn + i < |row|
      invariant Scanning(codes, dates, rates, i, runs, st, spans, lastRate, spanStart)
      decreases |row| - i
    {
      if i >= |dates| {
        return false, spans, lastRate, spanStart, runs, st;
      }
      spans, lastRate, spanStart, runs := ScanColumn(codes, row, dates, parseNumber, rates, i,
                                                     spans, lastRate, spanStart, runs, st);
      st := NextScan(st, rates[i], i);
      i := i + 1;
    }
    inBounds := true;
  }

  /** Lines 127-169: the pass over the month columns, then the span of the run
      still open after the last column, which runs to the Sentinel. */
  method ScanColumns<R(==)>(codes: Codes, row: Row<R>, dates: seq<Date>, parseNumber: string -> Option<R>,
                            ghost rates: seq<Option<R>>)
    returns (res: Result<seq<Span<R>>, Error>)
    requires ColumnRates(row, parseNumber, rates)
    ensures |rates| > |dates| ==> res == Failure(DateIndexOutOfBounds(|dates|))
    ensures |rates| <= |dates| ==> res == Success(Compact(codes, dates, rates))
  {
    var inBounds, spans, lastRate, spanStart, runs, st := ScanMonths(codes, row, dates, parseNumber, rates);
    if !inBounds {
      return Failure(DateIndexOutOfBounds(|dates|));
    }
    ScanFinishes(codes, dates, rates, runs, st, spans);
    if lastRate.Some? {
      spans := spans + [Span(codes.proc, codes.mod, codes.mod2, lastRate.value, spanStart.value, Sentinel)];
    }
    res := Success(spans);
  }
}
