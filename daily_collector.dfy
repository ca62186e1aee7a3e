/**
 * The merge step of collect_daily_data (scr/collectors/main.py), the older collector.
 * It checks only that the history file exists: a zero-byte or unreadable file makes the
 * read raise, the exception is not caught, and the file is left as it was.
 */
module DailyCollector {
  import opened HistoryTable
  import opened HistoryFile
  import opened Optional
  import StockCollector

  /** The table collect_daily_data writes, or None when reading the file raises. */
  function DailyTable(before: FileContent, row: Row): Option<seq<Row>>
  {
    match before
    case Missing => Some([row])
    case Csv(rows) => Some(Upsert(rows, row))
    case Empty => None
    case Corrupt => None
  }

  /**
   * One run of the merge. `raised` reports the uncaught exception of the read; the file
   * is then untouched. Otherwise the merged frame has been written over it.
   */
  method CollectDailyData(file: CsvFile, row: Row) returns (raised: bool)
    modifies file
    ensures raised <==> DailyTable(old(file.content), row) == None
    ensures raised ==> file.content == old(file.content)
    ensures !raised ==> file.content == Csv(DailyTable(old(file.content), row).value)
  {
    if file.content != Missing {
      if !file.content.Csv? {
        return true;
      }
      var df := NewFrame(file.content.rows);
      if HasDate(df, row.date) {
        AssignWhereDate(df, row);
      } else {
        df := AppendRow(df, row);
      }
      file.WriteFrame(df);
    } else {
      var df := NewFrame([row]);
      file.WriteFrame(df);
    }
    return false;
  }

  /** With no file, the written table is exactly the new row. */
  lemma DailyNoFile(row: Row)
    ensures DailyTable(Missing, row) == Some([row])
  {
  }

  /**
   * With the date already present, the length is kept, every row of that date is the new
   * row, and the rows of other dates are the old ones in the same places.
   */
  lemma DailyExistingDate(rows: seq<Row>, row: Row)
    requires row.date in Dates(rows)
    ensures DailyTable(Csv(rows), row).Some?
    ensures |DailyTable(Csv(rows), row).value| == |rows|
    ensures forall i :: 0 <= i < |rows| ==>
      DailyTable(Csv(rows), row).value[i] == if rows[i].date == row.date then row else rows[i]
  {
    OverwriteAt(rows, row);
  }

  /** With a new date, the old rows are kept in order and the new row is appended last. */
  lemma DailyNewDate(rows: seq<Row>, row: Row)
    requires row.date !in Dates(rows)
    ensures DailyTable(Csv(rows), row) == Some(rows + [row])
  {
  }

  /**
   * Only existence is checked: where the newer collector starts over from the new row,
   * this one raises on an empty or unreadable file; on every other file both write the
   * same table.
   */
  lemma DailyVersusStock(before: FileContent, row: Row)
    ensures DailyTable(before, row) == None <==> (before == Empty || before == Corrupt)
    ensures DailyTable(before, row) == None ==> StockCollector.WrittenTable(before, row) == [row]
    ensures DailyTable(before, row) != None ==>
      DailyTable(before, row).value == StockCollector.WrittenTable(before, row)
  {
  }

  /** A second run with the same row, on the file the first run wrote, changes nothing. */
  lemma DailyIdempotent(before: FileContent, row: Row)
    requires DailyTable(before, row) != None
    ensures DailyTable(Csv(DailyTable(before, row).value), row) == DailyTable(before, row)
  {
    StockCollector.CollectTwiceSameRow(before, row);
  }
}
