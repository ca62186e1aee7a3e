/**
 * The history file and the in-memory table (a pandas data frame) the collectors build
 * from it. Only the operations the collectors use are modelled: reading the file into a
 * frame, testing whether a date is present, the masked in-place assignment, appending
 * one row, and writing the frame back over the file.
 */
module HistoryFile {
  import opened HistoryTable

  /**
   * What is on disk at data/history.csv. Empty is a file of zero bytes; Corrupt is any
   * non-empty content on which reading the table as CSV raises; Csv holds the rows of a
   * readable table with the six columns in order and numeric cells, possibly none (a
   * header line only).
   */
  datatype FileContent = Missing | Empty | Corrupt | Csv(rows: seq<Row>)

  class CsvFile {
    var content: FileContent

    constructor (initial: FileContent)
      ensures content == initial
    {
      content := initial;
    }

    /** Writes a frame over the file, without the index column. */
    method WriteFrame(df: array<Row>)
      modifies this
      ensures content == Csv(df[..])
    {
      content := Csv(df[..]);
    }
  }

  /** A fresh frame holding the given rows in order (read_csv, or a one-row frame). */
  method NewFrame(rows: seq<Row>) returns (df: array<Row>)
    ensures fresh(df) && df[..] == rows
  {
    df := new Row[|rows|](i requires 0 <= i < |rows| => rows[i]);
  }

  /** The membership test `date in df['date'].values`. */
  function HasDate(df: array<Row>, date: string): (found: bool)
    reads df
    ensures found <==> exists i :: 0 <= i < df.Length && df[i].date == date
  {
    DatesMember(df[..], date);
    date in Dates(df[..])
  }

  /**
   * The masked assignment `df.loc[df['date'] == date, :] = values`: in place, every row
   * carrying the new row's date takes all six of its values.
   */
  method AssignWhereDate(df: array<Row>, row: Row)
    modifies df
    ensures df[..] == Overwrite(old(df[..]), row)
  {
    forall i | 0 <= i < df.Length && df[i].date == row.date {
      df[i] := row;
    }
    OverwriteAt(old(df[..]), row);
  }

  /** `pd.concat([df, new_df], ignore_index=True)`: a new frame with the row appended. */
  method AppendRow(df: array<Row>, row: Row) returns (out: array<Row>)
    ensures fresh(out) && out[..] == df[..] + [row]
  {
    out := new Row[df.Length + 1](i reads df requires 0 <= i <= df.Length =>
      if i < df.Length then df[i] else row);
  }
}
