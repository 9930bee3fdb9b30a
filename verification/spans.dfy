/** Rate spans: the compacted runs of a row placed on the calendar. A run that
    starts at column f opens its span on that column's header date; a run
    closed by the column after it ends on the day before that column's date; a
    run still open after the last column ends on the far-future Sentinel. */
module Spans {
  import opened Wrappers
  import opened Dates
  import opened Runs

  /** The three code columns of a row (PROC, MOD, MOD2), as a span carries them. */
  datatype Codes = Codes(proc: string, mod: string, mod2: string)

  /** One output record (RateSpan): a rate in effect from start to end, both inclusive. */
  datatype Span<R> = Span(proc: string, mod: string, mod2: string, rate: R, start: Date, end: Date)

  /** The end date of a run whose last column is last, in a row with n rate columns. */
  function EndDate(dates: seq<Date>, n: nat, last: nat): (d: Date)
    requires last < n <= |dates|
    ensures last + 1 < n ==> Before(d, dates[last + 1])
    ensures last + 1 == n ==> d == Sentinel
  {
    if last + 1 < n then PrevDay(dates[last + 1]) else Sentinel
  }

  function SpanOf<R>(codes: Codes, dates: seq<Date>, n: nat, run: Run<R>): Span<R>
    requires run.first <= run.last < n <= |dates|
  {
    Span(codes.proc, codes.mod, codes.mod2, run.rate, dates[run.first], EndDate(dates, n, run.last))
  }

  ghost predicate Bounded<R>(runs: seq<Run<R>>, n: nat) {
    forall j :: 0 <= j < |runs| ==> runs[j].first <= runs[j].last < n
  }

  function SpansOf<R>(codes: Codes, dates: seq<Date>, n: nat, runs: seq<Run<R>>): (spans: seq<Span<R>>)
    requires n <= |dates| && Bounded(runs, n)
    ensures |spans| == |runs|
    ensures forall j :: 0 <= j < |runs| ==> spans[j] == SpanOf(codes, dates, n, runs[j])
  {
    seq(|runs|, j requires 0 <= j < |runs| => SpanOf(codes, dates, n, runs[j]))
  }

  /** generateRateSpansForRow on a row whose rate columns give rates, aligned
      with the header dates. Every span carries the row's codes, and starts on
      the header date of a column whose rate is the span's rate. */
  function Compact<R(==)>(codes: Codes, dates: seq<Date>, rates: seq<Option<R>>): (spans: seq<Span<R>>)
    requires |rates| <= |dates|
    ensures |spans| <= |rates|
    ensures forall j :: 0 <= j < |spans| ==>
              spans[j].proc == codes.proc && spans[j].mod == codes.mod && spans[j].mod2 == codes.mod2
    ensures forall j :: 0 <= j < |spans| ==> StartsOnRate(dates, rates, spans[j])
  {
    var runs := Decompose(rates);
    RunsDecompose(rates);
    RunsFewerThanColumns(runs, |rates|);
    SpansStartOnRates(codes, dates, rates, runs);
    SpansOf(codes, dates, |rates|, runs)
  }

  /** The span starts on the header date of a column whose rate is the span's rate. */
  ghost predicate StartsOnRate<R>(dates: seq<Date>, rates: seq<Option<R>>, s: Span<R>) {
    exists k :: 0 <= k < |rates| && k < |dates| && rates[k] == Some(s.rate) && s.start == dates[k]
  }

  /** Each span of a decomposition starts on the date of a column with its rate. */
  lemma SpansStartOnRates<R>(codes: Codes, dates: seq<Date>, rates: seq<Option<R>>, runs: seq<Run<R>>)
    requires |rates| <= |dates| && Decomposes(rates, runs) && Bounded(runs, |rates|)
    ensures forall j :: 0 <= j < |SpansOf(codes, dates, |rates|, runs)| ==>
              StartsOnRate(dates, rates, SpansOf(codes, dates, |rates|, runs)[j])
  {
    var spans := SpansOf(codes, dates, |rates|, runs);
    forall j | 0 <= j < |spans|
      ensures StartsOnRate(dates, rates, spans[j])
    {
      assert Maximal(rates, runs[j]);
      assert rates[runs[j].first] == Some(spans[j].rate) && spans[j].start == dates[runs[j].first];
    }
  }

  /** Compact is the spans of the row's decomposition into maximal runs. */
  lemma CompactIsSpansOf<R>(codes: Codes, dates: seq<Date>, rates: seq<Option<R>>)
    requires |rates| <= |dates|
    ensures Decomposes(rates, Decompose(rates)) && Bounded(Decompose(rates), |rates|)
    ensures Compact(codes, dates, rates) == SpansOf(codes, dates, |rates|, Decompose(rates))
  {
    RunsDecompose(rates);
  }

  /** Ordered runs inside n columns number at most n. */
  lemma {:induction false} RunsFewerThanColumns<R>(runs: seq<Run<R>>, n: nat)
    requires Ordered(runs) && Bounded(runs, n)
    ensures |runs| <= n
    decreases |runs|
  {
    if |runs| > 0 {
      var init := runs[..|runs| - 1];
      assert Ordered(init) && Bounded(init, runs[|runs| - 1].first) by {
        forall j | 0 <= j < |init|
          ensures init[j].last < runs[|runs| - 1].first
        {
          assert init[j] == runs[j];
        }
      }
      RunsFewerThanColumns(init, runs[|runs| - 1].first);
    }
  }

  /** The header the compaction's date guarantees rely on: valid dates no later
      than the Sentinel, strictly increasing from column to column. */
  ghost predicate WellFormedHeader(dates: seq<Date>) {
    && (forall i :: 0 <= i < |dates| ==> ValidDate(dates[i]) && NotAfter(dates[i], Sentinel))
    && (forall i, j :: 0 <= i < j < |dates| ==> Before(dates[i], dates[j]))
  }

  /** The span is in effect on day d. */
  predicate InEffect<R>(s: Span<R>, d: Date) {
    NotAfter(s.start, d) && NotAfter(d, s.end)
  }

  /** A run's span is in effect on the header date of a column exactly when the
      column belongs to the run. */
  lemma SpanInEffectIffInRun<R>(codes: Codes, dates: seq<Date>, n: nat, run: Run<R>, k: nat)
    requires WellFormedHeader(dates)
    requires run.first <= run.last < n <= |dates| && k < n
    ensures InEffect(SpanOf(codes, dates, n, run), dates[k]) <==> InRun(run, k)
  {
    if run.first < k {
      assert Before(dates[run.first], dates[k]);
    } else if k < run.first {
      assert Before(dates[k], dates[run.first]);
    }
    if run.last + 1 < n {
      PrevDayIsPredecessor(dates[run.last + 1], dates[k]);
      if k <= run.last {
        assert Before(dates[k], dates[run.last + 1]);
      } else if k > run.last + 1 {
        assert Before(dates[run.last + 1], dates[k]);
      }
    }
  }

  /** A row without a single rate yields no span, and a row with a rate yields one. */
  lemma CompactEmptyIffAllAbsent<R>(codes: Codes, dates: seq<Date>, rates: seq<Option<R>>)
    requires |rates| <= |dates|
    ensures Compact(codes, dates, rates) == [] <==> forall k :: 0 <= k < |rates| ==> rates[k].None?
  {
    var runs := Decompose(rates);
    RunsDecompose(rates);
    if |runs| > 0 {
      assert InRun(runs[0], runs[0].first);
      assert rates[runs[0].first].Some?;
    } else {
      forall k | 0 <= k < |rates|
        ensures rates[k].None?
      {
        assert !Covered(runs, k);
      }
    }
  }

  /** Leading blanks are skipped: the first span starts on the header date of
      the first column with a rate, and carries that rate. */
  lemma CompactFirstSpan<R>(codes: Codes, dates: seq<Date>, rates: seq<Option<R>>, p: nat)
    requires p < |rates| <= |dates|
    requires rates[p].Some? && forall q :: 0 <= q < p ==> rates[q].None?
    ensures |Compact(codes, dates, rates)| > 0
    ensures Compact(codes, dates, rates)[0].start == dates[p]
    ensures Compact(codes, dates, rates)[0].rate == rates[p].value
  {
    CompactIsSpansOf(codes, dates, rates);
    FirstRun(rates, Decompose(rates), p);
  }

  /** In any decomposition the first run starts at the first column with a rate. */
  lemma FirstRun<R>(rates: seq<Option<R>>, runs: seq<Run<R>>, p: nat)
    requires Decomposes(rates, runs) && p < |rates|
    requires rates[p].Some? && forall q :: 0 <= q < p ==> rates[q].None?
    ensures |runs| > 0 && runs[0].first == p && rates[p] == Some(runs[0].rate)
  {
    assert Covered(runs, p);
    var m :| 0 <= m < |runs| && InRun(runs[m], p);
    OrderedFirst(runs, m);
    assert Maximal(rates, runs[0]);
    assert rates[runs[0].first].Some?;
  }

  /** On a well-formed header every span starts no later than it ends, and the
      spans follow one another in time without overlapping. */
  lemma CompactSpansOrdered<R>(codes: Codes, dates: seq<Date>, rates: seq<Option<R>>)
    requires |rates| <= |dates| && WellFormedHeader(dates)
    ensures forall j :: 0 <= j < |Compact(codes, dates, rates)| ==>
              NotAfter(Compact(codes, dates, rates)[j].start, Compact(codes, dates, rates)[j].end)
    ensures forall i, j :: 0 <= i < j < |Compact(codes, dates, rates)| ==>
              Before(Compact(codes, dates, rates)[i].end, Compact(codes, dates, rates)[j].start)
  {
    CompactIsSpansOf(codes, dates, rates);
    SpansOrderedOf(codes, dates, |rates|, Decompose(rates));
  }

  lemma SpansOrderedOf<R>(codes: Codes, dates: seq<Date>, n: nat, runs: seq<Run<R>>)
    requires n <= |dates| && WellFormedHeader(dates) && Bounded(runs, n) && Ordered(runs)
    ensures forall j :: 0 <= j < |SpansOf(codes, dates, n, runs)| ==>
              NotAfter(SpansOf(codes, dates, n, runs)[j].start, SpansOf(codes, dates, n, runs)[j].end)
    ensures forall i, j :: 0 <= i < j < |SpansOf(codes, dates, n, runs)| ==>
              Before(SpansOf(codes, dates, n, runs)[i].end, SpansOf(codes, dates, n, runs)[j].start)
  {
    var spans := SpansOf(codes, dates, n, runs);
    forall j | 0 <= j < |spans|
      ensures NotAfter(spans[j].start, spans[j].end)
    {
      SpanInEffectIffInRun(codes, dates, n, runs[j], runs[j].first);
    }
    forall i, j | 0 <= i < j < |spans|
      ensures Before(spans[i].end, spans[j].start)
    {
      SpansApart(codes, dates, n, runs[i], runs[j]);
    }
  }

  /** The span of a run ends before the span of a later run starts. */
  lemma SpansApart<R>(codes: Codes, dates: seq<Date>, n: nat, a: Run<R>, b: Run<R>)
    requires WellFormedHeader(dates)
    requires a.first <= a.last < b.first <= b.last < n <= |dates|
    ensures Before(SpanOf(codes, dates, n, a).end, SpanOf(codes, dates, n, b).start)
  {
    if a.last + 1 < b.first {
      assert Before(dates[a.last + 1], dates[b.first]);
      BeforeTransitive(SpanOf(codes, dates, n, a).end, dates[a.last + 1], dates[b.first]);
    }
  }

  /** The facts of the lemmas below, for any decomposition runs of the row and its spans. */
  lemma CoverageOf<R>(codes: Codes, dates: seq<Date>, rates: seq<Option<R>>, runs: seq<Run<R>>)
    requires |rates| <= |dates| && WellFormedHeader(dates)
    requires Decomposes(rates, runs) && Bounded(runs, |rates|)
    ensures forall k :: 0 <= k < |rates| ==>
              (rates[k].Some? <==> exists j :: 0 <= j < |runs| && InEffect(SpansOf(codes, dates, |rates|, runs)[j], dates[k]))
    ensures forall k, j :: 0 <= k < |rates| && 0 <= j < |runs| && InEffect(SpansOf(codes, dates, |rates|, runs)[j], dates[k]) ==>
              rates[k] == Some(runs[j].rate)
  {
    var n := |rates|;
    var spans := SpansOf(codes, dates, n, runs);
    forall k, j | 0 <= k < n && 0 <= j < |spans|
      ensures InEffect(spans[j], dates[k]) <==> InRun(runs[j], k)
    {
      SpanInEffectIffInRun(codes, dates, n, runs[j], k);
    }
    forall k | 0 <= k < n
      ensures rates[k].Some? <==> exists j :: 0 <= j < |runs| && InEffect(spans[j], dates[k])
    {
      if rates[k].Some? {
        assert Covered(runs, k);
        var m :| 0 <= m < |runs| && InRun(runs[m], k);
        assert InEffect(spans[m], dates[k]);
      }
    }
    forall k, j | 0 <= k < n && 0 <= j < |runs| && InEffect(spans[j], dates[k])
      ensures rates[k] == Some(runs[j].rate)
    {
      assert InRun(runs[j], k);
      assert Maximal(rates, runs[j]);
    }
  }

  /** On a well-formed header the spans are in effect on the header date of a
      column exactly when that column has a rate, and then with that rate. */
  lemma CompactCoverage<R>(codes: Codes, dates: seq<Date>, rates: seq<Option<R>>)
    requires |rates| <= |dates| && WellFormedHeader(dates)
    ensures forall k :: 0 <= k < |rates| ==>
              (rates[k].Some? <==> exists j :: 0 <= j < |Compact(codes, dates, rates)| && InEffect(Compact(codes, dates, rates)[j], dates[k]))
    ensures forall k, j :: 0 <= k < |rates| && 0 <= j < |Compact(codes, dates, rates)| && InEffect(Compact(codes, dates, rates)[j], dates[k]) ==>
              rates[k] == Some(Compact(codes, dates, rates)[j].rate)
  {
    RunsDecompose(rates);
    assert Compact(codes, dates, rates) == SpansOf(codes, dates, |rates|, Decompose(rates));
    CoverageOf(codes, dates, rates, Decompose(rates));
  }

  /** The columns after the last run have no rate. */
  lemma NothingAfterLastRun<R>(rates: seq<Option<R>>, runs: seq<Run<R>>)
    requires Decomposes(rates, runs) && |runs| > 0
    ensures forall k :: runs[|runs| - 1].last < k < |rates| ==> rates[k].None?
  {
    var last := runs[|runs| - 1];
    forall k | last.last < k < |rates|
      ensures rates[k].None?
    {
      forall m | 0 <= m < |runs|
        ensures !InRun(runs[m], k)
      {
        if m < |runs| - 1 {
          assert runs[m].last < last.first;
        }
      }
      assert !Covered(runs, k);
    }
  }

  lemma OpenEndOf<R>(codes: Codes, dates: seq<Date>, rates: seq<Option<R>>, runs: seq<Run<R>>, j: nat)
    requires |rates| <= |dates| && WellFormedHeader(dates)
    requires Decomposes(rates, runs) && Bounded(runs, |rates|) && j < |runs|
    ensures SpansOf(codes, dates, |rates|, runs)[j].end == Sentinel <==> j == |runs| - 1 && rates[|rates| - 1].Some?
  {
    var n := |rates|;
    var r := runs[j];
    var end := SpansOf(codes, dates, n, runs)[j].end;
    if j + 1 < |runs| {
      assert r.last < runs[j + 1].first;
      assert Before(end, dates[r.last + 1]);
      assert NotAfter(dates[r.last + 1], Sentinel);
    } else if r.last + 1 < n {
      assert Before(end, dates[r.last + 1]);
      assert NotAfter(dates[r.last + 1], Sentinel);
      NothingAfterLastRun(rates, runs);
    } else {
      assert Maximal(rates, r);
      assert rates[n - 1] == Some(r.rate);
    }
  }

  /** Only a run still open after the last column ends on the Sentinel: the last
      span does exactly when the last column has a rate, and no other span does. */
  lemma CompactOpenEnd<R>(codes: Codes, dates: seq<Date>, rates: seq<Option<R>>)
    requires |rates| <= |dates| && WellFormedHeader(dates)
    ensures forall j :: 0 <= j < |Compact(codes, dates, rates)| ==>
              (Compact(codes, dates, rates)[j].end == Sentinel <==>
                 j == |Compact(codes, dates, rates)| - 1 && rates[|rates| - 1].Some?)
  {
    var runs := Decompose(rates);
    RunsDecompose(rates);
    forall j | 0 <= j < |runs|
      ensures Compact(codes, dates, rates)[j].end == Sentinel <==> j == |runs| - 1 && rates[|rates| - 1].Some?
    {
      OpenEndOf(codes, dates, rates, runs, j);
    }
  }

  /** The span of every maximal run of equal rates is among the spans: a run of
      equal rates is merged into one span, from its first month to the day
      before the month after it, or to the Sentinel when it reaches the end. */
  lemma CompactMaximalRun<R>(codes: Codes, dates: seq<Date>, rates: seq<Option<R>>, run: Run<R>)
    requires |rates| <= |dates| && Maximal(rates, run)
    ensures exists j :: 0 <= j < |Compact(codes, dates, rates)| &&
                        Compact(codes, dates, rates)[j] == SpanOf(codes, dates, |rates|, run)
  {
    var runs := Decompose(rates);
    RunsDecompose(rates);
    assert InRun(run, run.first);
    assert Covered(runs, run.first);
    var m :| 0 <= m < |runs| && InRun(runs[m], run.first);
    MaximalRunsMeet(rates, run, runs[m], run.first);
    assert Compact(codes, dates, rates)[m] == SpanOf(codes, dates, |rates|, run);
  }

  /** The spans of two maximal runs with nothing but blank columns between them. */
  lemma NeighbourSpans<R>(codes: Codes, dates: seq<Date>, rates: seq<Option<R>>, a: Run<R>, b: Run<R>)
    requires |rates| <= |dates| && WellFormedHeader(dates)
    requires Maximal(rates, a) && Maximal(rates, b) && a.last < b.first
    requires a.last + 1 < b.first ==> rates[a.last + 1].None?
    ensures SpanOf(codes, dates, |rates|, a).end == PrevDay(SpanOf(codes, dates, |rates|, b).start) ==>
              a.rate != b.rate
    ensures SpanOf(codes, dates, |rates|, a).end != PrevDay(SpanOf(codes, dates, |rates|, b).start) ==>
              exists k :: 0 <= k < |rates| && rates[k].None? &&
                          Before(SpanOf(codes, dates, |rates|, a).end, dates[k]) &&
                          Before(dates[k], SpanOf(codes, dates, |rates|, b).start)
  {
    if a.last + 1 == b.first {
      assert rates[b.first] == Some(b.rate);
    } else {
      NeighboursApart(codes, dates, |rates|, a, b);
    }
  }

  /** A column strictly between two neighbouring runs has no rate. */
  lemma GapUncovered<R>(rates: seq<Option<R>>, runs: seq<Run<R>>, j: nat, k: nat)
    requires Decomposes(rates, runs) && j + 1 < |runs|
    requires runs[j].last < k < runs[j + 1].first
    ensures k < |rates| && rates[k].None?
  {
    assert Maximal(rates, runs[j + 1]);
    forall m | 0 <= m < |runs|
      ensures !InRun(runs[m], k)
    {
      if m < j {
        assert runs[m].last < runs[j].first;
        assert Maximal(rates, runs[j]);
      } else if m > j + 1 {
        assert runs[j + 1].last < runs[m].first;
      }
    }
    assert !Covered(runs, k);
  }

  /** The spans of two runs with a column between them neither meet nor touch
      that column's date. */
  lemma NeighboursApart<R>(codes: Codes, dates: seq<Date>, n: nat, a: Run<R>, b: Run<R>)
    requires WellFormedHeader(dates)
    requires a.first <= a.last && a.last + 1 < b.first <= b.last < n <= |dates|
    ensures SpanOf(codes, dates, n, a).end != PrevDay(SpanOf(codes, dates, n, b).start)
    ensures Before(SpanOf(codes, dates, n, a).end, dates[a.last + 1])
    ensures Before(dates[a.last + 1], SpanOf(codes, dates, n, b).start)
  {
    var k := a.last + 1;
    assert Before(dates[k], dates[b.first]);
    PrevDayIsPredecessor(dates[b.first], dates[k]);
    if PrevDay(dates[k]) == PrevDay(dates[b.first]) {
      PrevDayInjective(dates[k], dates[b.first]);
    }
  }

  /** Neighbouring spans that meet without a day between them carry different
      rates (equal rates would have been merged), and neighbouring spans that do
      not meet are separated by a header month without a rate. */
  lemma CompactNeighbours<R>(codes: Codes, dates: seq<Date>, rates: seq<Option<R>>, j: nat)
    requires |rates| <= |dates| && WellFormedHeader(dates)
    requires j + 1 < |Compact(codes, dates, rates)|
    ensures Compact(codes, dates, rates)[j].end == PrevDay(Compact(codes, dates, rates)[j + 1].start) ==>
              Compact(codes, dates, rates)[j].rate != Compact(codes, dates, rates)[j + 1].rate
    ensures Compact(codes, dates, rates)[j].end != PrevDay(Compact(codes, dates, rates)[j + 1].start) ==>
              exists k :: 0 <= k < |rates| && rates[k].None? &&
                          Before(Compact(codes, dates, rates)[j].end, dates[k]) &&
                          Before(dates[k], Compact(codes, dates, rates)[j + 1].start)
  {
    CompactIsSpansOf(codes, dates, rates);
    var runs := Decompose(rates);
    assert runs[j].last < runs[j + 1].first;
    if runs[j].last + 1 < runs[j + 1].first {
      GapUncovered(rates, runs, j, runs[j].last + 1);
    }
    NeighbourSpans(codes, dates, rates, runs[j], runs[j + 1]);
  }
}
