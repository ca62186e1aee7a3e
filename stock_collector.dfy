/**
 * The read-and-merge step of collect_stock_data (src/collectors/main.py), the newer
 * collector: the freshly built row is merged into the history file, and a missing,
 * empty or unreadable file is replaced by a table holding that row alone.
 *
 * Fetching the price, drawing the mock mention figures and formatting today's date
 * happen before this step; the row they produce is a parameter here.
 */
module StockCollector {
  import opened HistoryTable
  import opened HistoryFile

  /** The table collect_stock_data writes, given what was on disk before the run. */
  function WrittenTable(before: FileContent, row: Row): seq<Row>
  {
    match before
    case Csv(rows) => Upsert(rows, row)
    case _ => [row]
  }

  /**
   * One run of the merge: read the file if it exists and is not empty, overwrite the
   * rows of the row's date in place or append the row, fall back to a one-row frame
   * when there is nothing to read or reading raises, then write the frame back.
   */
  method CollectStockData(file: CsvFile, row: Row)
    modifies file
    ensures file.content == Csv(WrittenTable(old(file.content), row))
  {
    var df: array<Row>;
    if file.content != Missing && file.content != Empty {
      if file.content.Corrupt? {
        // reading raised: the except branch starts over from the new row
        df := NewFrame([row]);
      } else {
        df := NewFrame(file.content.rows);
        if HasDate(df, row.date) {
          AssignWhereDate(df, row);
        } else {
          df := AppendRow(df, row);
        }
      }
    } else {
      df := NewFrame([row]);
    }
    file.WriteFrame(df);
  }

  /** A missing or zero-byte file yields exactly the one new row. */
  lemma NothingToReadStartsOver(before: FileContent, row: Row)
    requires before == Missing || before == Empty
    ensures WrittenTable(before, row) == [row]
  {
  }

  /** A file that cannot be read is replaced: every earlier row is dropped. */
  lemma UnreadableStartsOver(row: Row)
    ensures WrittenTable(Corrupt, row) == [row]
  {
  }

  /** The written table holds the new row whichever branch was taken. */
  lemma WrittenContainsRow(before: FileContent, row: Row)
    ensures row in WrittenTable(before, row)
    ensures 0 < |WrittenTable(before, row)|
  {
    if before.Csv? {
      UpsertContainsRow(before.rows, row);
    }
  }

  /**
   * Running the collector twice with the same row writes the same table as running it
   * once; the second run always finds a readable table.
   */
  lemma CollectTwiceSameRow(before: FileContent, row: Row)
    ensures WrittenTable(Csv(WrittenTable(before, row)), row) == WrittenTable(before, row)
  {
    if before.Csv? {
      UpsertIdempotent(before.rows, row);
    } else {
      assert Dates([row])[0] == row.date;
      OverwriteAt([row], row);
    }
  }

  /** A history with one row per date keeps that shape across a run. */
  lemma CollectPreservesUniqueDates(before: FileContent, row: Row)
    requires before.Csv? ==> UniqueDates(before.rows)
    ensures UniqueDates(WrittenTable(before, row))
  {
    if before.Csv? {
      UpsertPreservesUniqueDates(before.rows, row);
    }
  }
}
