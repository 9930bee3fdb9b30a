/** Spreadsheet cells as the converter reads them, and the two cell
    classifiers: the rate of a data cell and the month of a header cell. */
module Cells {
  import opened Wrappers
  import opened Dates
  import opened Text

  /** The cell kinds the converter tells apart (Apache POI's CellType). Boolean,
      formula and error cells are never distinguished from each other, so they
      share OtherCell. R is the type of a numeric cell's value (a Java double). */
  datatype Cell<R> = BlankCell | NumericCell(number: R) | StringCell(text: string) | OtherCell

  /** A sheet row by column index; None where the row has no cell there
      (Row.getCell returns null). Its length is Row.getLastCellNum. */
  type Row<R> = seq<Option<Cell<R>>>

  /** The exceptions the converter can raise. */
  datatype Error =
    | NullCell                          // NullPointerException: a required cell is absent
    | NotAStringCell                    // getStringCellValue on a numeric or other cell
    | InvalidHeaderCell                 // a header cell that is not a string cell
    | InvalidHeaderDate(text: string)   // a header string neither month format accepts
    | DateIndexOutOfBounds(index: nat)  // a data column with no header date (dates.get)

  /** Row.getCell(col). */
  function CellAt<R>(row: Row<R>, col: nat): (c: Option<Cell<R>>)
    ensures col >= |row| ==> c == None
    ensures col < |row| ==> c == row[col]
  {
    if col < |row| then row[col] else None
  }

  /** Cell.getStringCellValue on a possibly absent cell: a blank cell reads as "",
      a string cell as its text, and any other kind of cell throws. */
  function StringValue<R>(c: Option<Cell<R>>): (r: Result<string, Error>)
    ensures r.Success? <==> c.Some? && (c.value.BlankCell? || c.value.StringCell?)
    ensures c == None ==> r == Failure(NullCell)
    ensures r.Success? && c.value.StringCell? ==> r.value == c.value.text
    ensures r.Success? && c.value.BlankCell? ==> r.value == ""
  {
    match c
    case None => Failure(NullCell)
    case Some(BlankCell) => Success("")
    case Some(StringCell(text)) => Success(text)
    case Some(_) => Failure(NotAStringCell)
  }

  /** getRateFromCell: the optional rate a data cell holds. A missing or blank cell,
      an unparseable string and an unsupported kind all give None; no cell content
      makes it fail. parseNumber stands for Double.parseDouble (None where it throws). */
  function RateFromCell<R>(c: Option<Cell<R>>, parseNumber: string -> Option<R>): (r: Option<R>)
    ensures r.Some? <==> c.Some? && (c.value.NumericCell? || (c.value.StringCell? && parseNumber(Trim(c.value.text)).Some?))
    ensures r.Some? && c.value.NumericCell? ==> r.value == c.value.number
    ensures r.Some? && c.value.StringCell? ==> r == parseNumber(Trim(c.value.text))
  {
    match c
    case None => None
    case Some(BlankCell) => None
    case Some(NumericCell(x)) => Some(x)
    case Some(StringCell(text)) => parseNumber(Trim(text))
    case Some(OtherCell) => None
  }

  /** parseDateFromHeader: a header cell names a month when it is a string cell
      whose trimmed text one of the two month-name formats accepts, the
      abbreviated one ("MMM yyyy") being tried first and the full one
      ("MMMM yyyy") second; the result is the first day of that month. The two
      formatters are parameters: None where YearMonth.parse throws. */
  function ParseDateFromHeader<R>(c: Option<Cell<R>>,
                                  abbreviated: string -> Option<YearMonth>,
                                  full: string -> Option<YearMonth>): (r: Result<Date, Error>)
    ensures r.Success? ==> ValidDate(r.value) && r.value.day == 1
    ensures r.Success? <==> c.Some? && c.value.StringCell?
                            && (abbreviated(Trim(c.value.text)).Some? || full(Trim(c.value.text)).Some?)
    ensures c.Some? && c.value.StringCell? && abbreviated(Trim(c.value.text)).Some? ==>
              r == Success(AtDay1(abbreviated(Trim(c.value.text)).value))
    ensures c.Some? && c.value.StringCell? && abbreviated(Trim(c.value.text)).None? && full(Trim(c.value.text)).Some? ==>
              r == Success(AtDay1(full(Trim(c.value.text)).value))
    ensures c.Some? && c.value.StringCell? && abbreviated(Trim(c.value.text)).None? && full(Trim(c.value.text)).None? ==>
              r == Failure(InvalidHeaderDate(Trim(c.value.text)))
    ensures c == None ==> r == Failure(NullCell)
    ensures c.Some? && !c.value.StringCell? ==> r == Failure(InvalidHeaderCell)
  {
    match c
    case None => Failure(NullCell)
    case Some(StringCell(text)) => ParseMonthLabel(Trim(text), abbreviated, full)
    case Some(_) => Failure(InvalidHeaderCell)
  }

  /** The two formats of a trimmed header name, tried in turn. */
  function ParseMonthLabel(name: string, abbreviated: string -> Option<YearMonth>,
                           full: string -> Option<YearMonth>): Result<Date, Error>
  {
    if abbreviated(name).Some? then Success(AtDay1(abbreviated(name).value))
    else if full(name).Some? then Success(AtDay1(full(name).value))
    else Failure(InvalidHeaderDate(name))
  }

  /** The rate of a string cell does not depend on white space around the number. */
  lemma RateIgnoresPadding<R>(text: string, parseNumber: string -> Option<R>)
    ensures RateFromCell(Some(Cell<R>.StringCell(text)), parseNumber)
         == RateFromCell(Some(Cell<R>.StringCell(Trim(text))), parseNumber)
  {
    TrimIdempotent(text);
  }

  /** The header month does not depend on white space around the name. */
  lemma HeaderIgnoresPadding<R>(text: string, abbreviated: string -> Option<YearMonth>,
                                full: string -> Option<YearMonth>)
    ensures ParseDateFromHeader(Some(Cell<R>.StringCell(text)), abbreviated, full)
         == ParseDateFromHeader(Some(Cell<R>.StringCell(Trim(text))), abbreviated, full)
  {
    TrimIdempotent(text);
  }
}
