/**
 * The session's expense ledger: the records the dashboard holds, changed by
 * the manual form, by a CSV upload and by the per-row delete buttons. Every
 * change is written straight through to the saved expenses file.
 */
module ExpenseLedger {
  import opened Wrappers
  import opened Dates
  import opened ExpenseRecords
  import opened ExpenseQueries

  class Ledger {
    /** The ledger rows, position 0 first. */
    var records: seq<Record>
    /** The rows last written to the expenses file. */
    ghost var saved: seq<Record>

    /** Every record has a real date, and the file holds what the session holds. */
    ghost predicate Valid()
      reads this
    {
      AllValidDates(records) && saved == records
    }

    /**
     * Starts from the rows of the saved file, as they read back, or from an
     * empty ledger when there is no file.
     */
    constructor (stored: Option<seq<Record>>)
      requires stored.Some? ==> AllValidDates(stored.value)
      ensures Valid()
      ensures records == if stored.Some? then ReadBack(stored.value) else []
    {
      records := if stored.Some? then ReadBack(stored.value) else [];
      saved := records;
    }

    /** The manual form: appends one record after all existing ones; its category is the text typed, even when empty. */
    method Add(date: Date, category: string, amount: real, description: string)
      requires Valid() && ValidDate(date) && amount >= 0.0
      modifies this
      ensures Valid()
      ensures records == old(records) + [Record(date, Some(category), amount, description)]
    {
      records := records + [Record(date, Some(category), amount, description)];
      saved := records;
    }

    /**
     * A CSV upload: the rows whose date parses, descriptions defaulted when the
     * file has none, go in front of the existing records.
     */
    method Import(t: CsvTable, parse: DateParser)
      requires Valid() && ParsesValidDates(parse)
      modifies this
      ensures Valid()
      ensures records == CleanImport(t, parse) + old(records)
    {
      var imported := CleanImport(t, parse);
      CleanImportValid(t, parse);
      records := imported + records;
      saved := records;
    }

    /** A delete button: removes the record at ledger position `i` and renumbers the rest from 0. */
    method Delete(i: nat)
      requires Valid() && i < |records|
      modifies this
      ensures Valid()
      ensures records == RemoveAt(old(records), i)
    {
      records := RemoveAt(records, i);
      saved := records;
    }
  }

  /**
   * A session: a record added manually, then a file imported, then the first
   * shown row deleted; the ledger ends as the import followed by the original
   * records and the new one, less the deleted row.
   */
  method SessionExample(stored: seq<Record>, t: CsvTable, parse: DateParser, d: Date)
    requires AllValidDates(stored) && ParsesValidDates(parse) && ValidDate(d)
  {
    var ledger := new Ledger(Some(stored));
    ledger.Add(d, "Food", 12.5, "lunch");
    assert ledger.records == ReadBack(stored) + [Record(d, Some("Food"), 12.5, "lunch")];
    ledger.Import(t, parse);
    var imported := CleanImport(t, parse);
    assert |ledger.records| == |imported| + |stored| + 1;
    assert ledger.records[|ledger.records| - 1] == Record(d, Some("Food"), 12.5, "lunch");
    var shown := ShownPositions(ledger.records, d, d, {Some("Food")});
    ShownPositionsSpec(ledger.records, d, d, {Some("Food")});
    assert |ledger.records| - 1 in shown;
    var before := ledger.records;
    ledger.Delete(shown[0]);
    assert |ledger.records| == |before| - 1;
    assert ledger.saved == ledger.records;
  }
}
