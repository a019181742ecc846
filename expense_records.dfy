/**
 * Expense records, the cleaning of an imported CSV table into records, and
 * the removal of one record by position.
 */
module ExpenseRecords {
  import opened Wrappers
  import opened Dates

  /**
   * A category: `None` is a missing value (NaN). In a CSV row it is the text
   * of the Category cell, and `None` when the file has no Category column.
   */
  type Category = Option<string>

  /** One ledger row: the Date, Category, Amount and Description columns. */
  datatype Record = Record(date: Date, category: Category, amount: real, description: string)

  predicate AllValidDates(rs: seq<Record>) {
    forall i :: 0 <= i < |rs| ==> ValidDate(rs[i].date)
  }

  /** The description given to imported rows when the file has no Description column. */
  const NoDescription: string := "No Description"

  /**
   * The cell texts `read_csv` reads as a missing value by default (pandas 2):
   * the empty cell and the usual spellings of "not available".
   */
  const NaStrings: set<string> := {
    "", "#N/A", "#N/A N/A", "#NA", "-1.#IND", "-1.#QNAN", "-NaN", "-nan", "1.#IND", "1.#QNAN",
    "<NA>", "N/A", "NA", "NULL", "NaN", "None", "n/a", "nan", "null"}

  /**
   * A Category cell as `read_csv` reads it, from an upload or from the saved
   * file: a text that is one of the missing-value spellings (the empty cell
   * among them) is read as missing.
   */
  function ReadCategory(c: Category): (r: Category)
    ensures r.None? <==> c.None? || c.value in NaStrings
    ensures r.Some? ==> r == c
  {
    if c.Some? && c.value in NaStrings then None else c
  }

  /** No record holds a category spelled as a missing value: `read_csv` has made all of those missing. */
  predicate NoNaCategory(rs: seq<Record>) {
    forall i :: 0 <= i < |rs| ==> rs[i].category.None? || rs[i].category.value !in NaStrings
  }

  /** A row of an uploaded CSV file, its Date column still text, its Category cell as written. */
  datatype CsvRow = CsvRow(date: string, category: Category, amount: real, description: string)

  /**
   * An uploaded CSV file. When it has no Description column, the rows'
   * `description` fields stand for nothing and are never read.
   */
  datatype CsvTable = CsvTable(hasDescription: bool, rows: seq<CsvRow>)

  /** A date parser in the manner of `to_datetime(errors='coerce')`: `None` where the text is not a date. */
  type DateParser = string -> Option<Date>

  /** The parser only ever produces real calendar days. */
  ghost predicate ParsesValidDates(parse: DateParser) {
    forall s :: parse(s).Some? ==> ValidDate(parse(s).value)
  }

  /** The record an imported row becomes once its date `d` is parsed and its category read. */
  function ImportedRecord(row: CsvRow, d: Date, hasDescription: bool): Record {
    Record(d, ReadCategory(row.category), row.amount, if hasDescription then row.description else NoDescription)
  }

  /**
   * The rows whose date parses, in file order, each turned into a record;
   * every other row is dropped.
   */
  function CleanRows(rows: seq<CsvRow>, hasDescription: bool, parse: DateParser): (r: seq<Record>)
    ensures |r| <= |rows|
  {
    if rows == [] then []
    else
      var init := CleanRows(rows[..|rows| - 1], hasDescription, parse);
      var last := rows[|rows| - 1];
      match parse(last.date)
      case None => init
      case Some(d) => init + [ImportedRecord(last, d, hasDescription)]
  }

  /**
   * Each kept record comes from a row whose date parses, and each such row is
   * kept: rows are dropped exactly when their date does not parse.
   */
  lemma {:induction false} CleanRowsMembers(rows: seq<CsvRow>, hasDescription: bool, parse: DateParser)
    ensures forall x :: x in CleanRows(rows, hasDescription, parse) ==>
              exists row :: row in rows && parse(row.date) == Some(x.date) && x == ImportedRecord(row, x.date, hasDescription)
    ensures forall row :: row in rows && parse(row.date).Some? ==>
              ImportedRecord(row, parse(row.date).value, hasDescription) in CleanRows(rows, hasDescription, parse)
  {
    if rows != [] {
      var init := rows[..|rows| - 1];
      CleanRowsMembers(init, hasDescription, parse);
      assert rows == init + [rows[|rows| - 1]];
    }
  }

  /** The records an upload contributes: parsed dates, the default description filled in. */
  function CleanImport(t: CsvTable, parse: DateParser): (r: seq<Record>)
    ensures |r| <= |t.rows|
    ensures NoNaCategory(r)
  {
    CleanRowsMembers(t.rows, t.hasDescription, parse);
    var r := CleanRows(t.rows, t.hasDescription, parse);
    assert forall i :: 0 <= i < |r| ==> r[i] in r;
    r
  }

  /** An uploaded row whose Category cell reads "N/A" is imported with a missing category. */
  lemma UploadNaCategoryExample(d: Date, parse: DateParser)
    requires parse("2024-01-05") == Some(d)
    ensures CleanImport(CsvTable(true, [CsvRow("2024-01-05", Some("N/A"), 5.0, "x")]), parse) == [Record(d, None, 5.0, "x")]
  {
    var rows := [CsvRow("2024-01-05", Some("N/A"), 5.0, "x")];
    assert rows[..0] == [];
  }

  /** Cleaning keeps file order: it distributes over a split of the file. */
  lemma {:induction false} CleanRowsAppend(a: seq<CsvRow>, b: seq<CsvRow>, hasDescription: bool, parse: DateParser)
    ensures CleanRows(a + b, hasDescription, parse) == CleanRows(a, hasDescription, parse) + CleanRows(b, hasDescription, parse)
    decreases |b|
  {
    if b != [] {
      var b' := b[..|b| - 1];
      assert (a + b)[..|a + b| - 1] == a + b';
      assert (a + b)[|a + b| - 1] == b[|b| - 1];
      CleanRowsAppend(a, b', hasDescription, parse);
    } else {
      assert a + b == a;
    }
  }

  /** Without a Description column every imported record reads "No Description"; with one, the file's text is kept. */
  lemma CleanImportDescriptions(t: CsvTable, parse: DateParser)
    ensures !t.hasDescription ==> forall x :: x in CleanImport(t, parse) ==> x.description == NoDescription
    ensures t.hasDescription ==> forall x :: x in CleanImport(t, parse) ==>
              exists row :: row in t.rows && parse(row.date) == Some(x.date) && x.description == row.description
  {
    CleanRowsMembers(t.rows, t.hasDescription, parse);
  }

  /** Every imported record carries a real calendar day. */
  lemma CleanImportValid(t: CsvTable, parse: DateParser)
    requires ParsesValidDates(parse)
    ensures AllValidDates(CleanImport(t, parse))
  {
    var r := CleanImport(t, parse);
    CleanRowsMembers(t.rows, t.hasDescription, parse);
    forall i | 0 <= i < |r| ensures ValidDate(r[i].date) {
      assert r[i] in r;
    }
  }

  /** A file none of whose dates parse contributes nothing; one whose dates all parse loses no row. */
  lemma {:induction false} CleanRowsCount(rows: seq<CsvRow>, hasDescription: bool, parse: DateParser)
    ensures (forall row :: row in rows ==> parse(row.date).None?) ==> CleanRows(rows, hasDescription, parse) == []
    ensures (forall row :: row in rows ==> parse(row.date).Some?) ==> |CleanRows(rows, hasDescription, parse)| == |rows|
  {
    if rows != [] {
      var init := rows[..|rows| - 1];
      CleanRowsCount(init, hasDescription, parse);
      assert forall row :: row in init ==> row in rows;
      assert rows[|rows| - 1] in rows;
    }
  }

  /**
   * The ledger without the record at position `i`: the records before it keep
   * their positions and those after it move down by one.
   */
  function RemoveAt(rs: seq<Record>, i: nat): (r: seq<Record>)
    requires i < |rs|
    ensures |r| == |rs| - 1
    ensures forall k :: 0 <= k < |r| ==> r[k] == (if k < i then rs[k] else rs[k + 1])
    ensures multiset(r) + multiset{rs[i]} == multiset(rs)
  {
    assert rs == rs[..i] + [rs[i]] + rs[i + 1..];
    rs[..i] + rs[i + 1..]
  }

  /** A record as it reads back from the saved file. */
  function ReadBackRecord(r: Record): Record {
    r.(category := ReadCategory(r.category))
  }

  /** The records of a saved file as a later session reads them back. */
  function ReadBack(rs: seq<Record>): (r: seq<Record>)
    ensures |r| == |rs|
    ensures forall i :: 0 <= i < |rs| ==>
              r[i].date == rs[i].date && r[i].amount == rs[i].amount && r[i].description == rs[i].description
  {
    seq(|rs|, i requires 0 <= i < |rs| => ReadBackRecord(rs[i]))
  }

  /**
   * Reading back loses only the categories spelled as a missing value: any
   * other record comes back unchanged, and one read back once is stable.
   */
  lemma ReadBackSpec(rs: seq<Record>)
    ensures forall i :: 0 <= i < |rs| && (rs[i].category.None? || rs[i].category.value !in NaStrings) ==>
              ReadBack(rs)[i] == rs[i]
    ensures forall i :: 0 <= i < |rs| && rs[i].category.Some? && rs[i].category.value in NaStrings ==>
              ReadBack(rs)[i].category.None?
    ensures ReadBack(ReadBack(rs)) == ReadBack(rs)
    ensures NoNaCategory(ReadBack(rs))
  {
  }
}
