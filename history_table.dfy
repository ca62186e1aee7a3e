/**
 * The history table kept in data/history.csv: one row per collection run with the
 * columns date, ticker, price, mentions, sentiment_avg and mentions_growth, and the
 * update-by-date rule that both collectors apply to it.
 *
 * The collectors round sentiment_avg and mentions_growth to two decimals, so both are
 * kept here as integer counts of hundredths (1.5 is 150). The price is not rounded by
 * the newer collector and stays a real number.
 */
module HistoryTable {

  datatype Row = Row(
    date: string,            // the day as 'YYYY-MM-DD', compared as text
    ticker: string,
    price: real,
    mentions: int,
    sentimentAvg: int,       // hundredths
    mentionsGrowth: int      // hundredths
  )

  /** The date column of a table, in row order. */
  function Dates(table: seq<Row>): (ds: seq<string>)
    // restates the comprehension so that the verifier sees each index of the column
    ensures |ds| == |table|
    ensures forall i :: 0 <= i < |table| ==> ds[i] == table[i].date
  {
    seq(|table|, i requires 0 <= i < |table| => table[i].date)
  }

  lemma DatesMember(table: seq<Row>, d: string)
    ensures d in Dates(table) <==> exists i :: 0 <= i < |table| && table[i].date == d
  {
    if d in Dates(table) {
      var i :| 0 <= i < |Dates(table)| && Dates(table)[i] == d;
      assert table[i].date == d;
    }
  }

  /**
   * The masked assignment of the collectors: every row whose date equals the new row's
   * date becomes the new row, whatever its ticker; the others are kept where they are.
   */
  function Overwrite(table: seq<Row>, row: Row): (r: seq<Row>)
    ensures |r| == |table|
    ensures forall i :: 0 <= i < |r| ==> r[i].date == table[i].date
  {
    if table == [] then []
    else [if table[0].date == row.date then row else table[0]] + Overwrite(table[1..], row)
  }

  /** The merge both collectors perform on a table they have read. */
  function Upsert(table: seq<Row>, row: Row): (r: seq<Row>)
    ensures |r| == if row.date in Dates(table) then |table| else |table| + 1
  {
    if row.date in Dates(table) then Overwrite(table, row) else table + [row]
  }

  /** At most one row per date: the shape of a table built by daily runs only. */
  ghost predicate UniqueDates(table: seq<Row>)
  {
    forall i, j :: 0 <= i < j < |table| ==> table[i].date != table[j].date
  }

  // ---------------------------------------------------------------------------
  // The masked assignment, row by row.

  /** Overwrite keeps the length and changes exactly the rows that carry the date. */
  lemma {:induction false} OverwriteAt(table: seq<Row>, row: Row)
    ensures |Overwrite(table, row)| == |table|
    ensures forall i :: 0 <= i < |table| ==>
      Overwrite(table, row)[i] == if table[i].date == row.date then row else table[i]
  {
    if table != [] {
      OverwriteAt(table[1..], row);
      var rest := Overwrite(table[1..], row);
      var head := if table[0].date == row.date then row else table[0];
      assert Overwrite(table, row) == [head] + rest;
      forall i | 0 <= i < |table|
        ensures Overwrite(table, row)[i] == if table[i].date == row.date then row else table[i]
      {
        if i > 0 {
          assert Overwrite(table, row)[i] == rest[i - 1];
          assert table[1..][i - 1] == table[i];
        }
      }
    }
  }

  /** A table that does not hold the date is left as it is. */
  lemma {:induction false} OverwriteAbsent(table: seq<Row>, row: Row)
    requires row.date !in Dates(table)
    ensures Overwrite(table, row) == table
  {
    OverwriteAt(table, row);
    forall i | 0 <= i < |table| ensures Overwrite(table, row)[i] == table[i] {
      assert Dates(table)[i] == table[i].date;
    }
  }

  // ---------------------------------------------------------------------------
  // The merge: the two branches, position by position.

  /**
   * When the date is already present, the length is unchanged, every row carrying that
   * date now equals the new row, and every other row is the old one at the same place.
   */
  lemma UpsertExisting(table: seq<Row>, row: Row)
    requires row.date in Dates(table)
    ensures |Upsert(table, row)| == |table|
    ensures forall i :: 0 <= i < |table| && table[i].date == row.date ==> Upsert(table, row)[i] == row
    ensures forall i :: 0 <= i < |table| && table[i].date != row.date ==> Upsert(table, row)[i] == table[i]
  {
    OverwriteAt(table, row);
  }

  /** When the date is new, the old table comes first, unchanged, and the row is last. */
  lemma UpsertNew(table: seq<Row>, row: Row)
    requires row.date !in Dates(table)
    ensures |Upsert(table, row)| == |table| + 1
    ensures Upsert(table, row)[..|table|] == table
    ensures Upsert(table, row)[|table|] == row
  {
  }

  /** Rows of other dates keep their values and their positions in both branches. */
  lemma UpsertKeepsOtherDates(table: seq<Row>, row: Row, i: int)
    requires 0 <= i < |table| && table[i].date != row.date
    ensures i < |Upsert(table, row)| && Upsert(table, row)[i] == table[i]
  {
    OverwriteAt(table, row);
  }

  /**
   * Matching is on the date alone: a row of another ticker for the same day is replaced
   * by the new row, so that ticker's values for the day are lost.
   */
  lemma UpsertClobbersOtherTicker(table: seq<Row>, row: Row, i: int)
    requires 0 <= i < |table| && table[i].date == row.date && table[i].ticker != row.ticker
    ensures |Upsert(table, row)| == |table|
    ensures Upsert(table, row)[i] == row
  {
    assert Dates(table)[i] == row.date;
    OverwriteAt(table, row);
  }

  /** The new row is in the table after the merge, whichever branch was taken. */
  lemma UpsertContainsRow(table: seq<Row>, row: Row)
    ensures row in Upsert(table, row)
  {
    if row.date in Dates(table) {
      DatesMember(table, row.date);
      var i :| 0 <= i < |table| && table[i].date == row.date;
      OverwriteAt(table, row);
      assert Upsert(table, row)[i] == row;
    }
  }

  /** After the merge the table holds the date, and only rows equal to the new row carry it. */
  lemma UpsertDateRows(table: seq<Row>, row: Row)
    ensures row.date in Dates(Upsert(table, row))
    ensures forall i :: 0 <= i < |Upsert(table, row)| && Upsert(table, row)[i].date == row.date ==>
      Upsert(table, row)[i] == row
  {
    UpsertContainsRow(table, row);
    var t := Upsert(table, row);
    var k :| 0 <= k < |t| && t[k] == row;
    assert Dates(t)[k] == row.date;
    if row.date in Dates(table) {
      OverwriteAt(table, row);
    } else {
      DatesMember(table, row.date);
    }
  }

  // ---------------------------------------------------------------------------
  // Repeated merges.

  /**
   * Two merges for the same date leave the table as the second merge alone would: the
   * last write wins, and nothing of the first row survives.
   */
  lemma {:induction false} UpsertLastWriteWins(table: seq<Row>, first: Row, second: Row)
    requires first.date == second.date
    ensures Upsert(Upsert(table, first), second) == Upsert(table, second)
  {
    var t1 := Upsert(table, first);
    UpsertDateRows(table, first);
    OverwriteAt(t1, second);
    if second.date in Dates(table) {
      OverwriteAt(table, first);
      OverwriteAt(table, second);
      assert Upsert(t1, second) == Overwrite(t1, second);
      forall i | 0 <= i < |table| ensures Overwrite(t1, second)[i] == Overwrite(table, second)[i] {
      }
    } else {
      OverwriteAbsent(table, second);
      assert Upsert(t1, second) == Overwrite(t1, second);
      forall i | 0 <= i < |t1| ensures Overwrite(t1, second)[i] == (table + [second])[i] {
        if i < |table| {
          assert table[i].date != second.date by {
            DatesMember(table, second.date);
          }
        }
      }
    }
  }

  /** Merging the same row twice gives the table that merging it once gives. */
  lemma UpsertIdempotent(table: seq<Row>, row: Row)
    ensures Upsert(Upsert(table, row), row) == Upsert(table, row)
  {
    UpsertLastWriteWins(table, row, row);
  }

  /** A table with one row per date keeps that shape through any merge. */
  lemma UpsertPreservesUniqueDates(table: seq<Row>, row: Row)
    requires UniqueDates(table)
    ensures UniqueDates(Upsert(table, row))
  {
    var t := Upsert(table, row);
    if row.date in Dates(table) {
      OverwriteAt(table, row);
      forall i, j | 0 <= i < j < |t| ensures t[i].date != t[j].date {
        assert table[i].date != table[j].date;
      }
    } else {
      DatesMember(table, row.date);
    }
  }
}
