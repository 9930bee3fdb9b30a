/** The conversion of a whole sheet (main, lines 30-63): the header row gives
    one date per month column, every data row present is compacted into its
    spans, and the spans are put into the table under the row's key, a later
    row replacing an earlier one with the same key. */
module Conversion {
  import opened Wrappers
  import opened Dates
  import opened Text
  import opened Cells
  import opened Spans
  import opened KeyedTable
  import opened Converter

  /** A sheet by row index; None where getRow returns null. Its length is
      getLastRowNum() + 1, and row 0 is the header. */
  type Sheet<R> = seq<Option<Row<R>>>

  /** What a MOD or MOD2 cell adds to the key (lines 56-61): nothing when the
      row has no such cell, otherwise "-" and its trimmed string value. */
  function KeyPart<R>(c: Option<Cell<R>>): (r: Result<string, Error>)
    ensures r.Success? <==> ModifierOf(c).Success?
  {
    if c.None? then Success("")
    else
      var s :- StringValue(c);
      Success("-" + Trim(s))
  }

  /** The key of a data row (lines 54-61): the trimmed PROC string, then
      "-MOD" when the row has a MOD cell and "-MOD2" when it has a MOD2 cell.
      It is built from the same cells as the codes the row's spans carry, and
      a cell that is present but blank still adds its "-". */
  function KeyOf<R>(row: Row<R>): (r: Result<string, Error>)
    ensures r.Success? <==> CodesOf(row).Success?
    ensures r.Success? ==>
              r.value == CodesOf(row).value.proc
                         + (if CellAt(row, 1).Some? then "-" + CodesOf(row).value.mod else "")
                         + (if CellAt(row, 2).Some? then "-" + CodesOf(row).value.mod2 else "")
  {
    var proc :- StringValue(CellAt(row, 0));
    var part1 :- KeyPart(CellAt(row, 1));
    var part2 :- KeyPart(CellAt(row, 2));
    Success(Trim(proc) + part1 + part2)
  }

  /** Two rows alike but for their MOD cell, which one of them lacks and the
      other has blank, carry the same codes on their spans but are stored under
      different keys. */
  lemma AbsentAndBlankModifierKeys<R>(absent: Row<R>, blank: Row<R>)
    requires CellAt(absent, 0) == CellAt(blank, 0) && CellAt(absent, 2) == CellAt(blank, 2)
    requires CellAt(absent, 1) == None && CellAt(blank, 1) == Some(BlankCell)
    requires CodesOf(absent).Success?
    ensures CodesOf(blank) == CodesOf(absent)
    ensures KeyOf(blank).Success? && KeyOf(absent).Success? && KeyOf(blank) != KeyOf(absent)
  {
    assert Trim("") == "";
    assert |KeyOf(blank).value| == |KeyOf(absent).value| + 1;
  }

  /** Two rows with the same PROC cell, one with MOD cell c and no MOD2 cell,
      the other with no MOD cell and MOD2 cell c, carry different codes when c
      is not blank, but share one key: a later such row replaces the spans of
      an earlier one. */
  lemma ModifierKeysCollide<R>(first: Row<R>, second: Row<R>, c: Cell<R>)
    requires CellAt(first, 0) == CellAt(second, 0)
    requires CellAt(first, 1) == Some(c) && CellAt(first, 2) == None
    requires CellAt(second, 1) == None && CellAt(second, 2) == Some(c)
    requires CodesOf(first).Success? && CodesOf(first).value.mod != ""
    ensures CodesOf(second).Success? && CodesOf(first) != CodesOf(second)
    ensures KeyOf(first) == KeyOf(second)
  {
    KeyWithOneModifier(first);
    KeyWithOneModifier(second);
  }

  /** The key of a row with one modifier cell: PROC, "-" and that modifier. */
  lemma KeyWithOneModifier<R>(row: Row<R>)
    requires CodesOf(row).Success? && (CellAt(row, 1).None? || CellAt(row, 2).None?)
    ensures CellAt(row, 2).None? && CellAt(row, 1).Some? ==>
              KeyOf(row) == Success(CodesOf(row).value.proc + ("-" + CodesOf(row).value.mod))
    ensures CellAt(row, 1).None? && CellAt(row, 2).Some? ==>
              KeyOf(row) == Success(CodesOf(row).value.proc + ("-" + CodesOf(row).value.mod2))
  {
    var proc := CodesOf(row).value.proc;
    if CellAt(row, 2).None? && CellAt(row, 1).Some? {
      var part := "-" + CodesOf(row).value.mod;
      assert proc + part + "" == proc + part;
    }
    if CellAt(row, 1).None? && CellAt(row, 2).Some? {
      var part := "-" + CodesOf(row).value.mod2;
      assert proc + "" + part == proc + part;
    }
  }

  /** The header dates (lines 32-39): a missing header row fails like every
      other missing cell; otherwise the month cells are parsed left to right,
      the first cell that does not parse aborting with its error. */
  function HeaderDates<R>(header: Option<Row<R>>, abbreviated: string -> Option<YearMonth>,
                          full: string -> Option<YearMonth>): (r: Result<seq<Date>, Error>)
    ensures header.None? ==> r == Failure(NullCell)
    ensures header.Some? && r.Success? ==> |r.value| == |MonthCells(header.value)|
    ensures header.Some? ==>
              (r.Success? <==> forall k :: 0 <= k < |MonthCells(header.value)| ==>
                                 ParseDateFromHeader(MonthCells(header.value)[k], abbreviated, full).Success?)
    ensures header.Some? && r.Success? ==>
              forall k :: 0 <= k < |r.value| ==> r.value[k] == ParseDateFromHeader(MonthCells(header.value)[k], abbreviated, full).value
    ensures r.Success? ==> forall k :: 0 <= k < |r.value| ==> ValidDate(r.value[k]) && r.value[k].day == 1
  {
    if header.None? then Failure(NullCell)
    else MapAll(MonthCells(header.value), c => ParseDateFromHeader(c, abbreviated, full))
  }

  /** A header whose first unparseable month cell is k fails with that cell's error. */
  lemma HeaderFailsAtFirstBadCell<R>(header: Row<R>, abbreviated: string -> Option<YearMonth>,
                                     full: string -> Option<YearMonth>, k: nat)
    requires k < |MonthCells(header)|
    requires ParseDateFromHeader(MonthCells(header)[k], abbreviated, full).Failure?
    requires forall q :: 0 <= q < k ==> ParseDateFromHeader(MonthCells(header)[q], abbreviated, full).Success?
    ensures HeaderDates(Some(header), abbreviated, full)
         == Failure(ParseDateFromHeader(MonthCells(header)[k], abbreviated, full).error)
  {
    var f := c => ParseDateFromHeader(c, abbreviated, full);
    var cells := MonthCells(header);
    var r := MapAll(cells, f);
    var j :| 0 <= j < |cells| && FirstFailure(cells, f, j) && f(cells[j]).error == r.error;
    assert j == k;
  }

  /** What one sheet row contributes (lines 46-62): nothing for a missing row;
      otherwise its spans are generated first, then its key is built, and the
      pair is put into the table. */
  function RowEntry<R(==)>(row: Option<Row<R>>, dates: seq<Date>, parseNumber: string -> Option<R>)
    : (r: Result<Option<(string, seq<Span<R>>)>, Error>)
    ensures row.None? ==> r == Success(None)
    ensures row.Some? ==> (r.Success? <==> RowSpans(row.value, dates, parseNumber).Success?)
    ensures row.Some? && r.Failure? ==> r.error == RowSpans(row.value, dates, parseNumber).error
    ensures row.Some? && r.Success? ==>
              r.value == Some((KeyOf(row.value).value, RowSpans(row.value, dates, parseNumber).value))
  {
    if row.None? then Success(None)
    else
      var spans :- RowSpans(row.value, dates, parseNumber);
      var key := KeyOf(row.value).value;
      Success(Some((key, spans)))
  }

  /** The entries of the data rows in order; the first row that fails aborts
      the conversion with its error. */
  function RowEntries<R(==)>(rows: seq<Option<Row<R>>>, dates: seq<Date>, parseNumber: string -> Option<R>)
    : (r: Result<seq<Option<(string, seq<Span<R>>)>>, Error>)
    ensures r.Success? <==> forall k :: 0 <= k < |rows| ==> RowEntry(rows[k], dates, parseNumber).Success?
    ensures r.Success? ==> |r.value| == |rows|
    ensures r.Success? ==> forall k :: 0 <= k < |rows| ==> r.value[k] == RowEntry(rows[k], dates, parseNumber).value
    ensures r.Failure? ==> exists k :: 0 <= k < |rows| && FirstBadRow(rows, dates, parseNumber, k)
                                       && r.error == RowEntry(rows[k], dates, parseNumber).error
  {
    var f := row => RowEntry(row, dates, parseNumber);
    var r := MapAll(rows, f);
    assert r.Failure? ==> exists k :: 0 <= k < |rows| && FirstBadRow(rows, dates, parseNumber, k)
                                      && r.error == RowEntry(rows[k], dates, parseNumber).error by {
      if r.Failure? {
        var k :| 0 <= k < |rows| && FirstFailure(rows, f, k) && f(rows[k]).error == r.error;
        assert FirstBadRow(rows, dates, parseNumber, k);
      }
    }
    r
  }

  /** Data row k is the first whose entry fails. */
  ghost predicate FirstBadRow<R>(rows: seq<Option<Row<R>>>, dates: seq<Date>, parseNumber: string -> Option<R>, k: int)
    requires 0 <= k < |rows|
  {
    RowEntry(rows[k], dates, parseNumber).Failure?
    && forall q :: 0 <= q < k ==> RowEntry(rows[q], dates, parseNumber).Success?
  }

  /** The header row, or None for a sheet without one. */
  function Header<R>(sheet: Sheet<R>): Option<Row<R>> {
    if |sheet| > 0 then sheet[0] else None
  }

  /** The data rows, rows 1 to getLastRowNum(). */
  function DataRows<R>(sheet: Sheet<R>): seq<Option<Row<R>>> {
    if |sheet| > 0 then sheet[1..] else []
  }

  /** main without its I/O: the header is parsed before any data row, a failure
      anywhere aborts the whole conversion, and otherwise every entry is put
      into an empty HashMap in row order. */
  function Convert<R(==)>(sheet: Sheet<R>, abbreviated: string -> Option<YearMonth>,
                          full: string -> Option<YearMonth>, parseNumber: string -> Option<R>)
    : (r: Result<map<string, seq<Span<R>>>, Error>)
    ensures HeaderDates(Header(sheet), abbreviated, full).Failure? ==>
              r == Failure(HeaderDates(Header(sheet), abbreviated, full).error)
    ensures r.Success? <==> HeaderDates(Header(sheet), abbreviated, full).Success?
                            && RowEntries(DataRows(sheet), HeaderDates(Header(sheet), abbreviated, full).value, parseNumber).Success?
  {
    var dates :- HeaderDates(Header(sheet), abbreviated, full);
    var entries :- RowEntries(DataRows(sheet), dates, parseNumber);
    Success(PutAll(entries, map[]))
  }

  /** A sheet whose header parses and whose first data row to fail is row k
      fails with that row's error: the row loop stops at the first exception. */
  lemma ConvertFailsAtFirstBadRow<R>(sheet: Sheet<R>, abbreviated: string -> Option<YearMonth>,
                                     full: string -> Option<YearMonth>, parseNumber: string -> Option<R>, k: nat)
    requires 1 <= k < |sheet|
    ensures var dates := HeaderDates(Header(sheet), abbreviated, full);
            dates.Success? && sheet[k].Some? && RowSpans(sheet[k].value, dates.value, parseNumber).Failure?
            && (forall q :: 1 <= q < k && sheet[q].Some? ==> RowSpans(sheet[q].value, dates.value, parseNumber).Success?)
            ==> Convert(sheet, abbreviated, full, parseNumber) == Failure(RowSpans(sheet[k].value, dates.value, parseNumber).error)
  {
    var header := HeaderDates(Header(sheet), abbreviated, full);
    if header.Success? && sheet[k].Some? && RowSpans(sheet[k].value, header.value, parseNumber).Failure?
       && (forall q :: 1 <= q < k && sheet[q].Some? ==> RowSpans(sheet[q].value, header.value, parseNumber).Success?)
    {
      FirstBadDataRow(sheet, header.value, parseNumber, k);
    }
  }

  /** Row k of the sheet is the first data row whose entry fails. */
  lemma FirstBadDataRow<R>(sheet: Sheet<R>, dates: seq<Date>, parseNumber: string -> Option<R>, k: nat)
    requires 1 <= k < |sheet| && sheet[k].Some? && RowSpans(sheet[k].value, dates, parseNumber).Failure?
    requires forall q :: 1 <= q < k && sheet[q].Some? ==> RowSpans(sheet[q].value, dates, parseNumber).Success?
    ensures RowEntries(DataRows(sheet), dates, parseNumber)
         == Failure(RowSpans(sheet[k].value, dates, parseNumber).error)
  {
    var rows := DataRows(sheet);
    assert rows[k - 1] == sheet[k];
    assert RowEntry(rows[k - 1], dates, parseNumber).Failure?;
    var r := RowEntries(rows, dates, parseNumber);
    var j :| 0 <= j < |rows| && FirstBadRow(rows, dates, parseNumber, j)
             && r.error == RowEntry(rows[j], dates, parseNumber).error;
    assert j == k - 1;
  }

  /** Row k of the sheet has a key no later row has: that key is in the
      table, and it holds exactly the spans generated for row k. */
  ghost predicate LastRowWithKey<R>(sheet: Sheet<R>, k: int)
    requires 1 <= k < |sheet| && sheet[k].Some? && KeyOf(sheet[k].value).Success?
  {
    forall j :: k < j < |sheet| && sheet[j].Some? && KeyOf(sheet[j].value).Success? ==>
      KeyOf(sheet[j].value).value != KeyOf(sheet[k].value).value
  }

  /** The last row with a key wins: its spans are the key's spans in the
      result, whatever earlier rows with the same key produced. */
  lemma ConvertLastRowWins<R>(sheet: Sheet<R>, abbreviated: string -> Option<YearMonth>,
                              full: string -> Option<YearMonth>, parseNumber: string -> Option<R>, k: nat)
    requires Convert(sheet, abbreviated, full, parseNumber).Success?
    requires 1 <= k < |sheet|
    ensures sheet[k].Some? ==> KeyOf(sheet[k].value).Success?
    ensures var dates := HeaderDates(Header(sheet), abbreviated, full).value;
            var table := Convert(sheet, abbreviated, full, parseNumber).value;
            sheet[k].Some? && LastRowWithKey(sheet, k) ==>
              KeyOf(sheet[k].value).value in table
              && table[KeyOf(sheet[k].value).value] == RowSpans(sheet[k].value, dates, parseNumber).value
  {
    if sheet[k].Some? {
      var dates := HeaderDates(Header(sheet), abbreviated, full).value;
      ConvertIsPutAll(sheet, abbreviated, full, parseNumber);
      EntryOfRow(DataRows(sheet), dates, parseNumber, k - 1);
      if LastRowWithKey(sheet, k) {
        EntriesLastWins(DataRows(sheet), dates, parseNumber, k - 1);
      }
    }
  }

  /** A successful conversion is the entries of the data rows put into an empty table. */
  lemma ConvertIsPutAll<R>(sheet: Sheet<R>, abbreviated: string -> Option<YearMonth>,
                           full: string -> Option<YearMonth>, parseNumber: string -> Option<R>)
    requires Convert(sheet, abbreviated, full, parseNumber).Success?
    ensures HeaderDates(Header(sheet), abbreviated, full).Success?
    ensures RowEntries(DataRows(sheet), HeaderDates(Header(sheet), abbreviated, full).value, parseNumber).Success?
    ensures Convert(sheet, abbreviated, full, parseNumber).value
         == PutAll(RowEntries(DataRows(sheet), HeaderDates(Header(sheet), abbreviated, full).value, parseNumber).value, map[])
  {
  }

  /** The entry of a present data row is its key and its spans. */
  lemma EntryOfRow<R>(rows: seq<Option<Row<R>>>, dates: seq<Date>, parseNumber: string -> Option<R>, i: nat)
    requires RowEntries(rows, dates, parseNumber).Success? && i < |rows| && rows[i].Some?
    ensures KeyOf(rows[i].value).Success? && RowSpans(rows[i].value, dates, parseNumber).Success?
    ensures RowEntries(rows, dates, parseNumber).value[i]
         == Some((KeyOf(rows[i].value).value, RowSpans(rows[i].value, dates, parseNumber).value))
  {
    assert RowEntry(rows[i], dates, parseNumber).Success?;
  }

  /** Data row i, whose key no later data row has, decides its key's spans. */
  lemma EntriesLastWins<R>(rows: seq<Option<Row<R>>>, dates: seq<Date>, parseNumber: string -> Option<R>, i: nat)
    requires RowEntries(rows, dates, parseNumber).Success? && i < |rows| && rows[i].Some?
    requires KeyOf(rows[i].value).Success?
    requires forall j :: i < j < |rows| && rows[j].Some? && KeyOf(rows[j].value).Success? ==>
               KeyOf(rows[j].value).value != KeyOf(rows[i].value).value
    ensures var table := PutAll(RowEntries(rows, dates, parseNumber).value, map[]);
            KeyOf(rows[i].value).value in table
            && table[KeyOf(rows[i].value).value] == RowSpans(rows[i].value, dates, parseNumber).value
  {
    var entries := RowEntries(rows, dates, parseNumber).value;
    EntryOfRow(rows, dates, parseNumber, i);
    forall j | i < j < |entries| && entries[j].Some?
      ensures entries[j].value.0 != entries[i].value.0
    {
      EntryOfRow(rows, dates, parseNumber, j);
    }
    assert LastWithKey(entries, i);
  }

  /** The table's keys are the keys of the data rows present. */
  lemma ConvertKeys<R>(sheet: Sheet<R>, abbreviated: string -> Option<YearMonth>,
                       full: string -> Option<YearMonth>, parseNumber: string -> Option<R>, key: string)
    requires Convert(sheet, abbreviated, full, parseNumber).Success?
    ensures key in Convert(sheet, abbreviated, full, parseNumber).value <==>
              exists k :: 1 <= k < |sheet| && sheet[k].Some? && KeyOf(sheet[k].value) == Success(key)
  {
    var dates := HeaderDates(Header(sheet), abbreviated, full).value;
    var rows := DataRows(sheet);
    ConvertIsPutAll(sheet, abbreviated, full, parseNumber);
    EntriesKeys(rows, dates, parseNumber, key);
    if j :| 0 <= j < |rows| && rows[j].Some? && KeyOf(rows[j].value) == Success(key) {
      assert sheet[j + 1] == rows[j];
    } else {
      forall k | 1 <= k < |sheet| && sheet[k].Some?
        ensures KeyOf(sheet[k].value) != Success(key)
      {
        assert rows[k - 1] == sheet[k];
      }
    }
  }

  /** A key is among the entries' keys exactly when a present row has it. */
  lemma EntriesKeys<R>(rows: seq<Option<Row<R>>>, dates: seq<Date>, parseNumber: string -> Option<R>, key: string)
    requires RowEntries(rows, dates, parseNumber).Success?
    ensures key in KeysOf(RowEntries(rows, dates, parseNumber).value) <==>
              exists j :: 0 <= j < |rows| && rows[j].Some? && KeyOf(rows[j].value) == Success(key)
  {
    var entries := RowEntries(rows, dates, parseNumber).value;
    if key in KeysOf(entries) {
      var e :| e in entries && e.Some? && e.value.0 == key;
      var j :| 0 <= j < |entries| && entries[j] == e;
      EntryOfRow(rows, dates, parseNumber, j);
    }
    if j :| 0 <= j < |rows| && rows[j].Some? && KeyOf(rows[j].value) == Success(key) {
      EntryOfRow(rows, dates, parseNumber, j);
      assert entries[j] in entries;
    }
  }
}
