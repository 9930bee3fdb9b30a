/** The span compaction of generateRateSpansForRow at the level of column
    indices. A row is the sequence of its optional rates, one per month column;
    the compactor folds it left to right with the state (lastRate, spanStart)
    and emits one run per stretch of equal present rates. This module defines
    that fold (RunsFrom) and proves it produces exactly the decomposition of the
    row into maximal runs of equal present rates: every such run once, in
    column order, and nothing for absent rates. */
module Runs {
  import opened Wrappers

  /** Columns first..last (both inclusive) all carry rate. */
  datatype Run<R> = Run(rate: R, first: nat, last: nat)

  /** The compactor's state between two columns. Java keeps it in two nullable
      variables: lastRate is null exactly when the state is Idle, and spanStart
      is read only while lastRate is set (Open). Open records the rate of the
      current run and the column it started at. */
  datatype Scan<R> = Idle | Open(rate: R, first: nat)

  predicate InRun<R>(r: Run<R>, k: int) {
    r.first <= k <= r.last
  }

  /** Every column of r lies in the row and carries r's rate. */
  ghost predicate Constant<R>(rates: seq<Option<R>>, r: Run<R>) {
    && r.first <= r.last < |rates|
    && forall k :: r.first <= k <= r.last ==> rates[k] == Some(r.rate)
  }

  /** r cannot be extended by one column on either side. */
  ghost predicate Maximal<R>(rates: seq<Option<R>>, r: Run<R>) {
    && Constant(rates, r)
    && (r.first == 0 || rates[r.first - 1] != Some(r.rate))
    && (r.last + 1 == |rates| || rates[r.last + 1] != Some(r.rate))
  }

  /** Runs in strictly increasing column order, pairwise disjoint. */
  ghost predicate Ordered<R>(runs: seq<Run<R>>) {
    forall i, j :: 0 <= i < j < |runs| ==> runs[i].last < runs[j].first
  }

  ghost predicate Covered<R>(runs: seq<Run<R>>, k: int) {
    exists j :: 0 <= j < |runs| && InRun(runs[j], k)
  }

  /** runs is the decomposition of the row into maximal runs: each run is
      maximal, they are in column order, and a column is covered exactly when
      its rate is present. */
  ghost predicate Decomposes<R>(rates: seq<Option<R>>, runs: seq<Run<R>>) {
    && (forall j :: 0 <= j < |runs| ==> Maximal(rates, runs[j]))
    && Ordered(runs)
    && (forall k :: 0 <= k < |rates| ==> (rates[k].Some? <==> Covered(runs, k)))
  }

  /** Column i, with optional rate x, ends the open run: it is blank or has another rate. */
  predicate Closes<R(==)>(st: Scan<R>, x: Option<R>) {
    st.Open? && x != Some(st.rate)
  }

  /** The scan's state after column i with optional rate x: an equal rate keeps
      the open run, any other rate opens a run at i, and a blank leaves it idle. */
  function NextScan<R(==)>(st: Scan<R>, x: Option<R>, i: nat): Scan<R> {
    if st.Open? && x == Some(st.rate) then st
    else if x.Some? then Open(x.value, i)
    else Idle
  }

  /** The first column a run emitted from state st at column i can start at. */
  function Lowest<R>(st: Scan<R>, i: nat): nat {
    if st.Open? then st.first else i
  }

  /** The compaction loop from column i on, in state st (lines 130-167 of the
      converter): a blank keeps the scan idle or closes the open run, a rate
      opens a run or extends the open run when equal, and a different rate
      closes the open run and opens a new one at column i. A run still open
      after the last column is emitted as ending at the last column. */
  function RunsFrom<R(==)>(rates: seq<Option<R>>, i: nat, st: Scan<R>): (runs: seq<Run<R>>)
    requires i <= |rates|
    requires st.Open? ==> st.first < i
    ensures forall j :: 0 <= j < |runs| ==> Lowest(st, i) <= runs[j].first <= runs[j].last < |rates|
    ensures st.Open? ==> |runs| > 0 && runs[0].first == st.first && runs[0].rate == st.rate
                         && runs[0].last >= i - 1
    decreases |rates| - i
  {
    if i == |rates| then
      if st.Open? then [Run(st.rate, st.first, i - 1)] else []
    else if Closes(st, rates[i]) then
      [Run(st.rate, st.first, i - 1)] + RunsFrom(rates, i + 1, NextScan(st, rates[i], i))
    else
      RunsFrom(rates, i + 1, NextScan(st, rates[i], i))
  }

  /** The whole row, scanned from the first column in the idle state. */
  function Decompose<R(==)>(rates: seq<Option<R>>): (runs: seq<Run<R>>)
    ensures forall j :: 0 <= j < |runs| ==> runs[j].first <= runs[j].last < |rates|
  {
    RunsFrom(rates, 0, Idle)
  }

  /** Each run ends before the next one starts. */
  ghost predicate Chained<R>(runs: seq<Run<R>>) {
    forall j :: 0 < j < |runs| ==> runs[j - 1].last < runs[j].first
  }

  /** The scan emits its runs in column order. */
  lemma {:induction false} RunsFromChained<R>(rates: seq<Option<R>>, i: nat, st: Scan<R>)
    requires i <= |rates|
    requires st.Open? ==> st.first < i
    ensures Chained(RunsFrom(rates, i, st))
    decreases |rates| - i
  {
    if i < |rates| {
      var next := NextScan(st, rates[i], i);
      RunsFromChained(rates, i + 1, next);
      if Closes(st, rates[i]) {
        ChainedCons(Run(st.rate, st.first, i - 1), RunsFrom(rates, i + 1, next));
      }
    }
  }

  lemma ChainedCons<R>(h: Run<R>, t: seq<Run<R>>)
    requires Chained(t) && (|t| > 0 ==> h.last < t[0].first)
    ensures Chained([h] + t)
  {
    var s := [h] + t;
    forall j | 0 < j < |s|
      ensures s[j - 1].last < s[j].first
    {
      assert s[j] == t[j - 1];
      if j > 1 {
        assert s[j - 1] == t[j - 2];
      }
    }
  }

  /** Runs that each end before the next starts, and that each end no earlier
      than they start, are in column order pairwise. */
  lemma ChainedOrdered<R>(runs: seq<Run<R>>)
    requires WellFormed(runs) && Chained(runs)
    ensures Ordered(runs)
  {
    forall i, j | 0 <= i < j < |runs|
      ensures runs[i].last < runs[j].first
    {
      ChainedPair(runs, i, j);
    }
  }

  lemma {:induction false} ChainedPair<R>(runs: seq<Run<R>>, i: nat, j: nat)
    requires WellFormed(runs) && Chained(runs) && i < j < |runs|
    ensures runs[i].last < runs[j].first
    decreases j - i
  {
    if i + 1 < j {
      ChainedPair(runs, i, j - 1);
      assert runs[j - 1].first <= runs[j - 1].last < runs[j].first;
    }
  }

  /** What the scan state knows about the columns before i: idle follows a
      blank (or the row start); an open run started after a column with another
      value (or at the row start) and every column since carries its rate. */
  ghost predicate ScanInvariant<R>(rates: seq<Option<R>>, i: nat, st: Scan<R>) {
    && i <= |rates|
    && match st
       case Idle => i == 0 || rates[i - 1].None?
       case Open(r, f) =>
         && f < i
         && (f == 0 || rates[f - 1] != Some(r))
         && forall k :: f <= k < i ==> rates[k] == Some(r)
  }

  /** The scan invariant holds again after one more column. */
  lemma ScanInvariantNext<R>(rates: seq<Option<R>>, i: nat, st: Scan<R>)
    requires ScanInvariant(rates, i, st) && i < |rates|
    ensures ScanInvariant(rates, i + 1, NextScan(st, rates[i], i))
  {
  }

  lemma CoveredCons<R>(h: Run<R>, t: seq<Run<R>>, k: int)
    ensures Covered([h] + t, k) <==> InRun(h, k) || Covered(t, k)
  {
    var s := [h] + t;
    if Covered(t, k) {
      var j :| 0 <= j < |t| && InRun(t[j], k);
      assert s[j + 1] == t[j];
    }
    if Covered(s, k) {
      var j :| 0 <= j < |s| && InRun(s[j], k);
      if j > 0 {
        assert t[j - 1] == s[j];
      }
    }
    if InRun(h, k) {
      assert s[0] == h;
    }
  }

  ghost predicate AllMaximal<R>(rates: seq<Option<R>>, runs: seq<Run<R>>) {
    forall j :: 0 <= j < |runs| ==> Maximal(rates, runs[j])
  }

  /** Every run the scan emits is maximal. */
  lemma {:induction false} RunsFromMaximal<R>(rates: seq<Option<R>>, i: nat, st: Scan<R>)
    requires ScanInvariant(rates, i, st)
    ensures AllMaximal(rates, RunsFrom(rates, i, st))
    decreases |rates| - i
  {
    if i < |rates| {
      var next := NextScan(st, rates[i], i);
      ScanInvariantNext(rates, i, st);
      RunsFromMaximal(rates, i + 1, next);
      if Closes(st, rates[i]) {
        ClosedIsMaximal(rates, i, st);
        AllMaximalCons(rates, Run(st.rate, st.first, i - 1), RunsFrom(rates, i + 1, next));
      }
    }
  }

  /** The run an open scan closes at column i cannot be extended either way. */
  lemma ClosedIsMaximal<R>(rates: seq<Option<R>>, i: nat, st: Scan<R>)
    requires ScanInvariant(rates, i, st) && i < |rates| && Closes(st, rates[i])
    ensures Maximal(rates, Run(st.rate, st.first, i - 1))
  {
  }

  lemma AllMaximalCons<R>(rates: seq<Option<R>>, h: Run<R>, t: seq<Run<R>>)
    requires Maximal(rates, h) && AllMaximal(rates, t)
    ensures AllMaximal(rates, [h] + t)
  {
    var s := [h] + t;
    forall j | 0 <= j < |s|
      ensures Maximal(rates, s[j])
    {
      if j > 0 {
        assert s[j] == t[j - 1];
      }
    }
  }

  /** From column i on, runs cover exactly the columns with a rate. */
  ghost predicate CoversFrom<R>(rates: seq<Option<R>>, runs: seq<Run<R>>, i: nat) {
    forall k :: i <= k < |rates| ==> (rates[k].Some? <==> Covered(runs, k))
  }

  /** From column i on, the scan's runs cover exactly the columns with a rate. */
  lemma {:induction false} RunsFromCoverage<R>(rates: seq<Option<R>>, i: nat, st: Scan<R>)
    requires ScanInvariant(rates, i, st)
    ensures CoversFrom(rates, RunsFrom(rates, i, st), i)
    decreases |rates| - i
  {
    if i < |rates| {
      var next := NextScan(st, rates[i], i);
      ScanInvariantNext(rates, i, st);
      NextRunsStart(rates, i, st);
      RunsFromCoverage(rates, i + 1, next);
      if Closes(st, rates[i]) {
        CoverageClose(rates, i, Run(st.rate, st.first, i - 1), RunsFrom(rates, i + 1, next));
      } else {
        CoverageCarry(rates, i, RunsFrom(rates, i + 1, next));
      }
    }
  }

  /** The runs after column i cover column i exactly when it has a rate. */
  ghost predicate StartsAt<R>(rates: seq<Option<R>>, tail: seq<Run<R>>, i: nat)
    requires i < |rates|
  {
    && (rates[i].Some? ==> |tail| > 0 && InRun(tail[0], i))
    && (rates[i].None? ==> forall j :: 0 <= j < |tail| ==> i < tail[j].first)
  }

  /** After column i the scan's runs start with the run through i, if any. */
  lemma NextRunsStart<R>(rates: seq<Option<R>>, i: nat, st: Scan<R>)
    requires ScanInvariant(rates, i, st) && i < |rates|
    ensures StartsAt(rates, RunsFrom(rates, i + 1, NextScan(st, rates[i], i)), i)
  {
  }

  /** Runs covering the columns after i exactly, and column i exactly when it
      has a rate, cover columns i on exactly. */
  lemma CoverageCarry<R>(rates: seq<Option<R>>, i: nat, tail: seq<Run<R>>)
    requires i < |rates|
    requires CoversFrom(rates, tail, i + 1) && StartsAt(rates, tail, i)
    ensures CoversFrom(rates, tail, i)
  {
  }

  /** A run closed at column i, followed by runs covering the columns after i
      exactly and column i when it has a rate, covers columns i on exactly. */
  lemma CoverageClose<R>(rates: seq<Option<R>>, i: nat, closed: Run<R>, tail: seq<Run<R>>)
    requires i < |rates| && closed.last < i
    requires CoversFrom(rates, tail, i + 1) && StartsAt(rates, tail, i)
    ensures CoversFrom(rates, [closed] + tail, i)
  {
    forall k | i <= k < |rates|
      ensures rates[k].Some? <==> Covered([closed] + tail, k)
    {
      CoveredCons(closed, tail, k);
    }
  }

  /** The scan of a whole row is its decomposition into maximal runs. */
  lemma RunsDecompose<R>(rates: seq<Option<R>>)
    ensures Decomposes(rates, Decompose(rates))
  {
    RunsFromMaximal(rates, 0, Idle);
    RunsFromCoverage(rates, 0, Idle);
    RunsFromChained(rates, 0, Idle);
    ChainedOrdered(Decompose(rates));
  }

  /** Two maximal runs that share a column are the same run. */
  lemma MaximalRunsMeet<R>(rates: seq<Option<R>>, a: Run<R>, b: Run<R>, k: int)
    requires Maximal(rates, a) && Maximal(rates, b)
    requires InRun(a, k) && InRun(b, k)
    ensures a == b
  {
    assert rates[k] == Some(a.rate) == Some(b.rate);
  }

  /** Every run of one decomposition is a run of any other. */
  lemma DecompositionMembers<R>(rates: seq<Option<R>>, a: seq<Run<R>>, b: seq<Run<R>>)
    requires Decomposes(rates, a) && Decomposes(rates, b)
    ensures forall x :: x in a ==> x in b
  {
    forall x | x in a
      ensures x in b
    {
      var j :| 0 <= j < |a| && a[j] == x;
      assert Maximal(rates, x);
      assert InRun(x, x.first);
      assert Covered(b, x.first);
      var m :| 0 <= m < |b| && InRun(b[m], x.first);
      MaximalRunsMeet(rates, x, b[m], x.first);
    }
  }

  ghost predicate WellFormed<R>(runs: seq<Run<R>>) {
    forall j :: 0 <= j < |runs| ==> runs[j].first <= runs[j].last
  }

  lemma OrderedFirst<R>(a: seq<Run<R>>, i: int)
    requires WellFormed(a) && Ordered(a) && 0 <= i < |a|
    ensures a[0].first <= a[i].first
    ensures i > 0 ==> a[0].last < a[i].first
  {
  }

  ghost predicate SameMembers<R>(a: seq<Run<R>>, b: seq<Run<R>>) {
    && (forall i :: 0 <= i < |a| ==> a[i] in b)
    && (forall j :: 0 <= j < |b| ==> b[j] in a)
  }

  /** Two column-ordered lists of runs with the same members are equal. */
  lemma {:induction false} OrderedSameMembersEqual<R>(a: seq<Run<R>>, b: seq<Run<R>>)
    requires WellFormed(a) && WellFormed(b) && Ordered(a) && Ordered(b)
    requires SameMembers(a, b)
    ensures a == b
    decreases |a|
  {
    SameMembersEmpty(a, b);
    if |a| > 0 {
      HeadsAgree(a, b);
      TailsSameMembers(a, b);
      OrderedTail(a);
      OrderedTail(b);
      OrderedSameMembersEqual(a[1..], b[1..]);
      HeadTailEqual(a, b);
    }
  }

  lemma SameMembersEmpty<R>(a: seq<Run<R>>, b: seq<Run<R>>)
    requires SameMembers(a, b)
    ensures |a| == 0 <==> |b| == 0
  {
    if |a| > 0 {
      assert a[0] in b;
    }
    if |b| > 0 {
      assert b[0] in a;
    }
  }

  lemma HeadTailEqual<T>(a: seq<T>, b: seq<T>)
    requires |a| > 0 && |b| > 0 && a[0] == b[0] && a[1..] == b[1..]
    ensures a == b
  {
    assert a == [a[0]] + a[1..];
    assert b == [b[0]] + b[1..];
  }

  /** Of two column-ordered lists with the same members, the earliest runs agree. */
  lemma HeadsAgree<R>(a: seq<Run<R>>, b: seq<Run<R>>)
    requires WellFormed(a) && WellFormed(b) && Ordered(a) && Ordered(b)
    requires SameMembers(a, b) && |a| > 0 && |b| > 0
    ensures a[0] == b[0]
  {
    assert a[0] in b;
    var j :| 0 <= j < |b| && b[j] == a[0];
    assert b[0] in a;
    var i :| 0 <= i < |a| && a[i] == b[0];
    OrderedFirst(a, i);
    OrderedFirst(b, j);
  }

  lemma TailsSameMembers<R>(a: seq<Run<R>>, b: seq<Run<R>>)
    requires WellFormed(a) && WellFormed(b) && Ordered(a) && Ordered(b)
    requires SameMembers(a, b) && |a| > 0 && |b| > 0 && a[0] == b[0]
    ensures SameMembers(a[1..], b[1..])
  {
    forall i | 0 <= i < |a[1..]|
      ensures a[1..][i] in b[1..]
    {
      OnlyHeadFirst(a, b, a[1..][i]);
    }
    forall j | 0 <= j < |b[1..]|
      ensures b[1..][j] in a[1..]
    {
      OnlyHeadFirst(b, a, b[1..][j]);
    }
  }

  lemma OnlyHeadFirst<R>(a: seq<Run<R>>, b: seq<Run<R>>, x: Run<R>)
    requires WellFormed(a) && Ordered(a) && Ordered(b)
    requires SameMembers(a, b) && |a| > 0 && |b| > 0 && a[0] == b[0]
    requires x in a[1..]
    ensures x in b[1..]
  {
    var p :| 1 <= p < |a| && a[p] == x;
    OrderedFirst(a, p);
    var q :| 0 <= q < |b| && b[q] == x;
    assert b[q] == b[1..][q - 1];
  }

  lemma OrderedTail<R>(a: seq<Run<R>>)
    requires WellFormed(a) && Ordered(a) && |a| > 0
    ensures WellFormed(a[1..]) && Ordered(a[1..])
  {
  }

  /** The decomposition into maximal runs is unique, so the scan's output is the
      only list of runs with those properties: no fewer runs, no other boundaries. */
  lemma DecompositionUnique<R>(rates: seq<Option<R>>, runs: seq<Run<R>>)
    requires Decomposes(rates, runs)
    ensures runs == Decompose(rates)
  {
    var canon := Decompose(rates);
    RunsDecompose(rates);
    DecompositionMembers(rates, runs, canon);
    DecompositionMembers(rates, canon, runs);
    OrderedSameMembersEqual(runs, canon);
  }
}
