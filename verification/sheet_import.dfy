/**
 * The row loop of `handleExcelImport`: each spreadsheet row is checked,
 * its category name resolved to a code, and a record under a fresh id
 * added to the catalog and the recent buffer; rows that fail count as
 * errors. Reading the file and turning the sheet into rows is not modelled:
 * the rows come in as a sequence.
 */
module SheetImport {
  import opened Wrappers
  import opened Seqs
  import opened Text
  import opened Records
  import opened Categories
  import opened RecentBuffer
  import opened Identifiers
  import opened Consistency
  import opened Operations

  /** A spreadsheet cell as the sheet reader hands it over: missing, text, or a number. */
  datatype Cell = Blank | Text(s: string) | Number(n: int)

  /** The three columns the import reads. */
  datatype SheetRow = SheetRow(title: Cell, author: Cell, category: Cell)

  /** The fields of the record a row turns into. */
  datatype Fields = Fields(title: string, author: string, code: string)

  /** What the import reports: rows imported, rows refused, and the resulting stores. */
  datatype Report = Report(imported: nat, errors: nat, catalog: Catalog)

  /** JavaScript falsiness of a cell: missing, the empty text, or zero. */
  predicate Falsy(c: Cell)
  {
    c.Blank? || c == Text("") || c == Number(0)
  }

  /**
   * The checks of the loop body exactly as written: a falsy column refuses,
   * the category must be one of the sixteen names, and title and author are
   * trimmed only after the falsiness test (a number there makes `trim` throw,
   * which the loop counts as an error).
   */
  function ParseRowAsWritten(row: SheetRow): (r: Option<Fields>)
    ensures r.Some? ==> row.title.Text? && row.author.Text? && row.category.Text?
  {
    if Falsy(row.title) || Falsy(row.author) || Falsy(row.category) then None
    else match CategoryCodeFromName(if row.category.Text? then row.category.s else [])
      case None => None
      case Some(code) =>
        if row.category.Number? || !row.title.Text? || !row.author.Text? then None
        else Some(Fields(Trim(row.title.s), Trim(row.author.s), code))
  }

  /**
   * What the loop's checks accept: three non-empty texts, the last one a
   * category name, read as the trimmed title and author and the name's code;
   * every other row is refused.
   */
  lemma RowChecksAsWritten(row: SheetRow)
    ensures Falsy(row.title) || Falsy(row.author) || Falsy(row.category) ==> ParseRowAsWritten(row).None?
    ensures row.title.Number? || row.author.Number? || row.category.Number? ==> ParseRowAsWritten(row).None?
    ensures ParseRowAsWritten(row).Some? ==>
      && ParseRowAsWritten(row).value.title == Trim(row.title.s) && ParseRowAsWritten(row).value.author == Trim(row.author.s)
      && CategoryCodeFromName(row.category.s) == Some(ParseRowAsWritten(row).value.code)
    ensures (row.title.Text? && row.author.Text? && row.category.Text? && row.title.s != [] && row.author.s != []
             && CategoryCodeFromName(row.category.s).Some?) ==> ParseRowAsWritten(row).Some?
  {
  }

  /**
   * The row checks with the blank test made after trimming, as `addBook`
   * does: a title or author of white space only is refused too.
   */
  function ParseRow(row: SheetRow): (r: Option<Fields>)
    ensures r.Some? ==> r.value.title != [] && r.value.author != []
  {
    match ParseRowAsWritten(row)
    case None => None
    case Some(f) => if f.title == [] || f.author == [] then None else Some(f)
  }

  /** The corrected checks accept exactly the rows the loop's checks accept with a non-blank trimmed title and author. */
  lemma ParseRowRefines(row: SheetRow)
    ensures ParseRow(row).Some? ==> ParseRowAsWritten(row) == ParseRow(row)
    ensures (ParseRowAsWritten(row).Some? && ParseRowAsWritten(row).value.title != []
             && ParseRowAsWritten(row).value.author != []) ==> ParseRow(row).Some?
  {
  }

  /** A row of non-blank trimmed title and author and a known category name is read field for field. */
  lemma ParsesTo(t: string, a: string, name: string, code: string)
    requires t != [] && a != [] && Trim(t) == t && Trim(a) == a && CategoryCodeFromName(name) == Some(code)
    ensures ParseRow(SheetRow(Text(t), Text(a), Text(name))) == Some(Fields(t, a, code))
  {
    RowChecksAsWritten(SheetRow(Text(t), Text(a), Text(name)));
    ParseRowRefines(SheetRow(Text(t), Text(a), Text(name)));
  }

  /**
   * A title of blanks only gets past the loop's checks and is filed with an
   * empty title, while the checks made after trimming refuse the row.
   */
  lemma BlankTitleImported(t: string, a: string, name: string, code: string)
    requires t != [] && Trim(t) == [] && Trim(a) != [] && CategoryCodeFromName(name) == Some(code)
    ensures ParseRowAsWritten(SheetRow(Text(t), Text(a), Text(name))) == Some(Fields([], Trim(a), code))
    ensures ParseRow(SheetRow(Text(t), Text(a), Text(name))).None?
  {
    var row := SheetRow(Text(t), Text(a), Text(name));
    RowChecksAsWritten(row);
  }

  /** A single blank is such a title: it is not empty, and trims to nothing. */
  lemma BlankTrimmed()
    ensures " " != [] && Trim(" ") == []
  {
    TrimBlank(" ");
  }

  /**
   * One pass of the loop body as written: the record is added under the next
   * id, or the row is an error and nothing changes.
   */
  function ImportRow(c: Catalog, row: SheetRow): (r: (bool, Catalog))
    ensures !r.0 <==> ParseRowAsWritten(row).None?
    ensures !r.0 ==> r.1 == c
  {
    match ParseRowAsWritten(row)
    case None => (false, c)
    case Some(f) => (true, Stored(c, NewRecord(NextId(c.books, f.code), f.title, f.author, f.code)))
  }

  /**
   * The loop body with the corrected checks: it refuses the rows whose title
   * or author is blank after trimming, and does what the loop body does on
   * every other row.
   */
  function ImportRowFixed(c: Catalog, row: SheetRow): (r: (bool, Catalog))
    ensures !r.0 <==> ParseRow(row).None?
    ensures !r.0 ==> r.1 == c
    ensures r.0 ==> r == ImportRow(c, row)
  {
    match ParseRow(row)
    case None => (false, c)
    case Some(f) =>
      ParseRowRefines(row);
      (true, Stored(c, NewRecord(NextId(c.books, f.code), f.title, f.author, f.code)))
  }

  /** An imported row appends its record under the next id of its code, last in the recent buffer too; the ledger is untouched. */
  lemma ImportRowAppends(c: Catalog, row: SheetRow)
    ensures var r := ImportRow(c, row);
      r.0 ==>
      var f := ParseRowAsWritten(row).value;
      && r.1.books == c.books + [NewRecord(NextId(c.books, f.code), f.title, f.author, f.code)]
      && r.1.ledger == c.ledger
      && r.1.recent != [] && r.1.recent[|r.1.recent| - 1] == r.1.books[|c.books|]
    ensures |c.recent| <= MaxSize ==> |ImportRow(c, row).1.recent| <= MaxSize
  {
    if ParseRowAsWritten(row).Some? {
      var f := ParseRowAsWritten(row).value;
      var b := NewRecord(NextId(c.books, f.code), f.title, f.author, f.code);
      var c' := Stored(c, b);
      assert ImportRow(c, row) == (true, c');
      assert c'.books[|c.books|] == b;
    }
  }

  /** With the corrected checks, an imported row is added exactly as `addBook` adds the same title, author and code. */
  lemma ImportRowIsAdd(c: Catalog, row: SheetRow)
    requires ParseRow(row).Some?
    ensures var f := ParseRow(row).value; Add(c, f.title, f.author, f.code) == (Succeeded, ImportRowFixed(c, row).1)
  {
    var f := ParseRow(row).value;
    TrimIdempotent(row.title.s);
    TrimIdempotent(row.author.s);
    assert Trim(f.title) == f.title && Trim(f.author) == f.author && f.code != [];
  }

  /**
   * The loop as written imports a row whose title is blanks only: it files a
   * record with an empty title and counts no error, although `addBook`
   * refuses the same fields and the corrected checks refuse the row.
   */
  lemma ImportBlankTitleRow(c: Catalog, t: string, a: string, name: string, code: string)
    requires t != [] && Trim(t) == [] && Trim(a) != [] && CategoryCodeFromName(name) == Some(code)
    ensures var row := SheetRow(Text(t), Text(a), Text(name));
      && Import(c, [row]) == Report(1, 0, Stored(c, NewRecord(NextId(c.books, code), [], Trim(a), code)))
      && Add(c, t, a, code).0 == Failed(MissingFields)
      && ImportRowFixed(c, row) == (false, c)
  {
    var row := SheetRow(Text(t), Text(a), Text(name));
    BlankTitleImported(t, a, name, code);
    ImportOneRow(c, row);
  }

  /** A sheet row with title " ", author "Herbert" and category "Fiction" is filed under 01 with an empty title. */
  lemma BlankTitleSheetExample(c: Catalog, row: SheetRow)
    requires row == SheetRow(Text(" "), Text("Herbert"), Text("Fiction"))
    ensures var r := Import(c, [row]);
      && r.imported == 1 && r.errors == 0
      && r.catalog.books == c.books + [NewRecord(NextId(c.books, "01"), "", "Herbert", "01")]
  {
    assert " " != [] && Trim(" ") == [] by { BlankTrimmed(); }
    assert Trim("Herbert") == "Herbert" by { HerbertTrimmed(); }
    assert CategoryCodeFromName("Fiction") == Some("01") by { FictionCode(); }
    ImportBlankTitleRow(c, " ", "Herbert", "Fiction", "01");
  }

  /** The loop body applied to the report so far: one more row imported, or one more error. */
  function Tally(before: Report, row: SheetRow): (r: Report)
    ensures r.imported + r.errors == before.imported + before.errors + 1
  {
    var step := ImportRow(before.catalog, row);
    if step.0 then Report(before.imported + 1, before.errors, step.1)
    else Report(before.imported, before.errors + 1, step.1)
  }

  /**
   * One row counts once, as an error exactly when the checks refuse it; an
   * imported row appends one record after those already there, and the
   * ledger and the bound on the recent buffer are kept.
   */
  lemma TallyStep(before: Report, row: SheetRow)
    ensures var r := Tally(before, row);
      && r.errors == before.errors + (if ParseRowAsWritten(row).None? then 1 else 0)
      && |r.catalog.books| == |before.catalog.books| + (r.imported - before.imported)
      && r.catalog.books[..|before.catalog.books|] == before.catalog.books
      && r.catalog.ledger == before.catalog.ledger
      && (|before.catalog.recent| <= MaxSize ==> |r.catalog.recent| <= MaxSize)
  {
    var step := ImportRow(before.catalog, row);
    ImportRowAppends(before.catalog, row);
    if step.0 {
      var f := ParseRowAsWritten(row).value;
      TakeConcat(before.catalog.books, [NewRecord(NextId(before.catalog.books, f.code), f.title, f.author, f.code)]);
    }
  }

  /** The whole loop over the rows, in order, counting imported rows and errors. */
  function Import(c: Catalog, rows: seq<SheetRow>): (r: Report)
    ensures r.imported + r.errors == |rows|
  {
    if rows == [] then Report(0, 0, c)
    else Tally(Import(c, rows[..|rows| - 1]), rows[|rows| - 1])
  }

  /** Importing one more row tallies that row onto the report of the rows before it. */
  lemma ImportSnoc(c: Catalog, rows: seq<SheetRow>, i: nat)
    requires i < |rows|
    ensures Import(c, rows[..i + 1]) == Tally(Import(c, rows[..i]), rows[i])
  {
    TakeTake(rows, i, i + 1);
    assert rows[..i + 1][i] == rows[i];
  }

  /** A row the checks accept adds one to the imported count, any other row one to the errors. */
  lemma TallyCounts(before: Report, row: SheetRow, imported: bool, c': Catalog)
    requires (imported, c') == ImportRow(before.catalog, row)
    ensures Tally(before, row)
      == Report(before.imported + (if imported then 1 else 0), before.errors + (if imported then 0 else 1), c')
  {
  }

  /**
   * One more row: a row the checks accept adds one to the imported count,
   * any other row one to the errors, and the catalog becomes the one the row
   * leaves.
   */
  lemma ImportStep(c: Catalog, rows: seq<SheetRow>, i: nat, imported: bool, c': Catalog)
    requires i < |rows| && (imported, c') == ImportRow(Import(c, rows[..i]).catalog, rows[i])
    ensures var before := Import(c, rows[..i]);
      Import(c, rows[..i + 1])
        == Report(before.imported + (if imported then 1 else 0), before.errors + (if imported then 0 else 1), c')
  {
    ImportSnoc(c, rows, i);
    TallyCounts(Import(c, rows[..i]), rows[i], imported, c');
  }

  /** The import only appends: one record per imported row, after the records already there. */
  lemma {:induction false} ImportAppends(c: Catalog, rows: seq<SheetRow>)
    ensures var r := Import(c, rows);
      |r.catalog.books| == |c.books| + r.imported && r.catalog.books[..|c.books|] == c.books
  {
    if rows != [] {
      var before := Import(c, rows[..|rows| - 1]);
      ImportAppends(c, rows[..|rows| - 1]);
      var r := Tally(before, rows[|rows| - 1]);
      TallyStep(before, rows[|rows| - 1]);
      TakeTake(r.catalog.books, |c.books|, |before.catalog.books|);
    }
  }

  /** The import never touches the borrow ledger. */
  lemma {:induction false} ImportKeepsLedger(c: Catalog, rows: seq<SheetRow>)
    ensures Import(c, rows).catalog.ledger == c.ledger
  {
    if rows != [] {
      ImportKeepsLedger(c, rows[..|rows| - 1]);
      TallyStep(Import(c, rows[..|rows| - 1]), rows[|rows| - 1]);
    }
  }

  /** However many rows are imported, the recent buffer stays within its five places. */
  lemma {:induction false} ImportKeepsRecentBounded(c: Catalog, rows: seq<SheetRow>)
    requires |c.recent| <= MaxSize
    ensures |Import(c, rows).catalog.recent| <= MaxSize
  {
    if rows != [] {
      ImportKeepsRecentBounded(c, rows[..|rows| - 1]);
      TallyStep(Import(c, rows[..|rows| - 1]), rows[|rows| - 1]);
    }
  }

  /** Every row that fails the checks is counted as an error, and every other row is imported. */
  lemma {:induction false} ImportCounts(c: Catalog, rows: seq<SheetRow>)
    ensures Import(c, rows).errors == |FailingRows(rows)|
  {
    if rows != [] {
      ImportCounts(c, rows[..|rows| - 1]);
      TallyStep(Import(c, rows[..|rows| - 1]), rows[|rows| - 1]);
    }
  }

  /** The rows the loop's checks refuse, in order. */
  function FailingRows(rows: seq<SheetRow>): (r: seq<SheetRow>)
    ensures forall row :: row in r <==> row in rows && ParseRowAsWritten(row).None?
  {
    if rows == [] then []
    else FailingRows(rows[..|rows| - 1]) + (if ParseRowAsWritten(rows[|rows| - 1]).None? then [rows[|rows| - 1]] else [])
  }

  /** Importing keeps the catalog and the ledger in agreement. */
  lemma {:induction false} ImportKeepsConsistent(c: Catalog, rows: seq<SheetRow>)
    requires Consistent(c.books, c.ledger)
    ensures var c' := Import(c, rows).catalog; Consistent(c'.books, c'.ledger)
  {
    if rows != [] {
      var before := Import(c, rows[..|rows| - 1]).catalog;
      ImportKeepsConsistent(c, rows[..|rows| - 1]);
      var step := ImportRow(before, rows[|rows| - 1]);
      ImportRowAppends(before, rows[|rows| - 1]);
      if step.0 {
        AppendAvailableKeepsConsistent(before.books, before.ledger, step.1.books[|before.books|]);
      }
    }
  }

  /** Importing into a well-numbered catalog keeps it well numbered: every code the import uses has two digits. */
  lemma {:induction false} ImportKeepsWellNumbered(c: Catalog, rows: seq<SheetRow>)
    requires WellNumbered(c.books)
    ensures WellNumbered(Import(c, rows).catalog.books)
  {
    if rows != [] {
      var before := Import(c, rows[..|rows| - 1]).catalog;
      ImportKeepsWellNumbered(c, rows[..|rows| - 1]);
      var step := ImportRow(before, rows[|rows| - 1]);
      ImportRowAppends(before, rows[|rows| - 1]);
      if step.0 {
        var f := ParseRowAsWritten(rows[|rows| - 1]).value;
        RowChecksAsWritten(rows[|rows| - 1]);
        NextIdKeepsWellNumbered(before.books, f.code, step.1.books[|before.books|]);
      }
    }
  }

  /**
   * A sheet with one complete row followed by a row without an author
   * imports one book, under the next id for its category, and reports one error.
   */
  lemma OneGoodRowOneMissingAuthor(c: Catalog, good: SheetRow, bad: SheetRow)
    requires ParseRowAsWritten(good).Some? && bad.author == Blank
    ensures var r := Import(c, [good, bad]); var f := ParseRowAsWritten(good).value;
      && r.imported == 1 && r.errors == 1
      && r.catalog.books == c.books + [NewRecord(NextId(c.books, f.code), f.title, f.author, f.code)]
  {
    var r1 := Import(c, [good]);
    var step := ImportRow(c, good);
    ImportOneRow(c, good);
    ImportRowAppends(c, good);
    assert r1 == Report(1, 0, step.1);
    MissingAuthorRefused(bad);
    ImportTwoRows(c, good, bad);
    assert Import(c, [good, bad]) == Report(1, 1, step.1);
  }

  lemma ImportOneRow(c: Catalog, row: SheetRow)
    ensures Import(c, [row]) == Tally(Report(0, 0, c), row)
  {
    assert [row][..0] == [] by { TakePair(row, row); }
  }

  lemma ImportTwoRows(c: Catalog, first: SheetRow, second: SheetRow)
    ensures Import(c, [first, second]) == Tally(Import(c, [first]), second)
  {
    TakePair(first, second);
  }

  /** A row without an author is refused. */
  lemma MissingAuthorRefused(row: SheetRow)
    requires row.author == Blank
    ensures ParseRowAsWritten(row).None? && ParseRow(row).None?
  {
    RowChecksAsWritten(row);
  }
}
