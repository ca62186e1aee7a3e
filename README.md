# Stock mentions history and alert, modelled in Dafny

The stock-mentions dashboard keeps one flat history table, `data/history.csv`, with the
columns date, ticker, price, mentions, sentiment_avg and mentions_growth. A collector run
builds one new row for a ticker and merges it into that table; the alert checker looks at
the last row of the table and mails a warning when the mention growth is above 1.5.

This project models those two pieces of logic:

- **The merge by date** (`HistoryTable`, `HistoryFile`). A row whose date is already in the
  table overwrites, in place, every row carrying that date; a row with a new date is
  appended. Matching is on the date text alone, not on (date, ticker): a row of another
  ticker for the same day is replaced by the new row. The table is an in-memory frame
  (`array<Row>`); the file is a `CsvFile` object whose content is `Missing`, `Empty`
  (zero bytes), `Corrupt` (reading it as CSV raises) or `Csv(rows)`.
- **The newer collector** `collect_stock_data` (`StockCollector`): a missing, empty or
  unreadable file is replaced by a table holding the new row alone.
- **The older collector** `collect_daily_data` (`DailyCollector`): only existence is
  checked, so an empty or unreadable file makes the run raise and leaves the file as it was.
- **The alert decision** `check_alert` (`Notifier`): no file or no rows means no alert;
  otherwise only the last row is consulted, and one mail is sent exactly when its
  mentions_growth is strictly above 1.5.

Numbers: sentiment_avg and mentions_growth are rounded to two decimals when a row is
built, so both are kept as integer hundredths (the alert threshold 1.5 is 150). The price
is not rounded by the newer collector and is a `real`.

Two consequences of the code are worth stating plainly:

- Both collectors key on the date only (`src/collectors/main.py:53-54`,
  `scr/collectors/main.py:37-38`), so a same-day row of another ticker is replaced by the
  new row; `HistoryTable.UpsertClobbersOtherTicker` states it.
- `check_alert` compares the last row's mentions_growth with the constant 1.5
  (`src/notifier.py:37, 41`); no configured threshold and no weighted score take part.

## Model

| member | source | states |
|---|---|---|
| `HistoryFile.HasDate` | src/collectors/main.py:53 | the date test is true exactly when some row of the frame carries that date |
| `HistoryFile.NewFrame` | src/collectors/main.py:48 | reading the table gives a fresh frame holding the stored rows in file order |
| `HistoryFile.AssignWhereDate` | src/collectors/main.py:54 | the masked assignment changes the frame in place to `Overwrite` of its old rows |
| `HistoryFile.AppendRow` | src/collectors/main.py:57 | concatenation gives a fresh frame: the old rows in order, then the new row |
| `HistoryFile.CsvFile.WriteFrame` | src/collectors/main.py:67 | writing replaces the whole file content with the frame's rows |
| `HistoryTable.Overwrite` | src/collectors/main.py:54 | the masked assignment (also `scr/collectors/main.py:38`): keeps the length and the date column; each row of the new row's date becomes the new row, whatever its ticker, and the others stay (per position in `OverwriteAt`) |
| `HistoryTable.Upsert` | src/collectors/main.py:53-57 | the merge (also `scr/collectors/main.py:37-40`): overwrite the rows of the date when it is present, else append; the length is kept when the date is present and grows by one otherwise |
| `HistoryTable.OverwriteAt` | src/collectors/main.py:54 | the masked assignment keeps the length; row i becomes the new row if its date matches and is unchanged otherwise |
| `HistoryTable.OverwriteAbsent` | src/collectors/main.py:53-54 | a masked assignment for a date no row carries changes nothing |
| `HistoryTable.UpsertExisting` | src/collectors/main.py:53-55 | date present: length unchanged, every row of that date equals the new row, other rows unchanged in place |
| `HistoryTable.UpsertNew` | src/collectors/main.py:56-58 | date absent: the old table is an unchanged prefix, the new row is last, the length grows by one |
| `HistoryTable.UpsertKeepsOtherDates` | src/collectors/main.py:53-57 | in both branches a row of another date keeps its value and its position |
| `HistoryTable.UpsertClobbersOtherTicker` | src/collectors/main.py:53-54 | a same-day row of a different ticker is overwritten by the new row, so that ticker's row for the day is lost |
| `HistoryTable.UpsertContainsRow` | src/collectors/main.py:53-57 | the merged table contains the new row in both branches |
| `HistoryTable.UpsertDateRows` | src/collectors/main.py:53-57 | after the merge the date is present and every row carrying it equals the new row |
| `HistoryTable.UpsertLastWriteWins` | src/collectors/main.py:53-57 | two merges for the same date equal the second merge alone |
| `HistoryTable.UpsertIdempotent` | src/collectors/main.py:53-57 | merging the same row twice equals merging it once |
| `HistoryTable.UpsertPreservesUniqueDates` | src/collectors/main.py:53-57 | a table with at most one row per date keeps that property through a merge |
| `StockCollector.CollectStockData` | src/collectors/main.py:45-67 | the file afterwards holds exactly `WrittenTable` of its previous content and the new row |
| `StockCollector.NothingToReadStartsOver` | src/collectors/main.py:62-64 | a missing or zero-byte file yields the one-row table |
| `StockCollector.UnreadableStartsOver` | src/collectors/main.py:59-61 | a file whose CSV read raises yields the one-row table; all prior rows are dropped |
| `StockCollector.WrittenContainsRow` | src/collectors/main.py:46-67 | the written table is non-empty and contains the new row in every branch |
| `StockCollector.CollectTwiceSameRow` | src/collectors/main.py:45-67 | a second run with the same row writes the same table as the first |
| `StockCollector.CollectPreservesUniqueDates` | src/collectors/main.py:45-67 | a run keeps the history at most one row per date |
| `DailyCollector.CollectDailyData` | scr/collectors/main.py:34-44 | the run raises exactly on an empty or unreadable file and then leaves it unchanged; otherwise the file holds `DailyTable` of its previous content |
| `DailyCollector.DailyNoFile` | scr/collectors/main.py:41-42 | with no file the written table is exactly the new row |
| `DailyCollector.DailyExistingDate` | scr/collectors/main.py:37-38 | date present: same length, each row of that date replaced by the new row, each other row unchanged in place |
| `DailyCollector.DailyNewDate` | scr/collectors/main.py:39-40 | date absent: the old rows followed by the new row |
| `DailyCollector.DailyVersusStock` | scr/collectors/main.py:34-35 | the older run fails if and only if the file is empty or unreadable, where the newer one starts over; on every other file both write the same table |
| `DailyCollector.DailyIdempotent` | scr/collectors/main.py:34-40 | a second run with the same row on the written file writes the same table |
| `Notifier.CheckAlert` | src/notifier.py:22-46 | the decision: no file gives the early return; a zero-byte or unreadable file raises; a table without rows gives the second early return; otherwise an alert exactly when the last row's growth is above 150 hundredths, and a normal report of that growth when it is at most 150 |
| `Notifier.Subject` | src/notifier.py:42 | the subject line of the alert; it contains the ticker |
| `Notifier.Body` | src/notifier.py:43 | the three-line body of the alert; it contains the ticker, the printed price and the printed growth |
| `Notifier.ShowHundredths` | src/notifier.py:43 | the growth as Python prints a two-decimal float (1.5, 2.0, 1.52); the text reads back as exactly the stored value |
| `Notifier.MailsSent` | src/notifier.py:41-46 | at most one mail per check, and one exactly when the table has a last row whose growth exceeds 1.5 |
| `Notifier.MissingFileNoAlert` | src/notifier.py:23-25 | no history file: no alert, no mail |
| `Notifier.EmptyTableNoAlert` | src/notifier.py:30-32 | a table without rows: no alert, no mail |
| `Notifier.OnlyLastRowMatters` | src/notifier.py:34-38 | two tables with the same last row get the same decision, whatever comes before |
| `Notifier.AlertIffAboveThreshold` | src/notifier.py:41-46 | on a non-empty table the alert fires if and only if the last growth is strictly above 1.5; otherwise that growth is reported normal |
| `Notifier.BoundaryExcluded` | src/notifier.py:41 | a growth of exactly 1.5 does not fire; 1.51 does |
| `Notifier.AlertMailContents` | src/notifier.py:42-44 | the subject contains the ticker; the body contains the ticker, the printed price and the printed growth |

## Left out

- Fetching the price through yfinance and its fallback values, the random mention,
  sentiment and growth figures, and today's date: the collectors receive the finished row.
- Paths, directory creation and CSV encoding: the file is the in-memory `FileContent`, and
  the collector and the alert checker are taken to address the same file.
- Files that parse as CSV but do not have exactly the six columns in order with numeric
  cells (an extra or missing column, a non-numeric price) are not modelled: `Csv` rows always
  have that shape, and `Corrupt` is only a file whose CSV read raises. On such files the
  source's behaviour depends on the branch. The row assignment at
  `src/collectors/main.py:54` and `scr/collectors/main.py:38` raises when the file does not
  have six columns. The concatenation at `src/collectors/main.py:57` and
  `scr/collectors/main.py:40` does not raise. The price coercion at
  `src/collectors/main.py:50` raises on a non-numeric price. A file without a date column
  raises KeyError at the membership test (`src/collectors/main.py:53`, caught there;
  `scr/collectors/main.py:37`, not caught). `check_alert` raises KeyError at
  `src/notifier.py:35-38` when the ticker, price or mentions_growth column is missing, and
  TypeError at `src/notifier.py:41` on a non-numeric growth; otherwise it decides as for a
  modelled file.
- CollectStockData: does not promise what the newer collector writes for a file of that
  kind: the one-row table when the coercion, the date lookup or the assignment raises, and
  the kept history with the row appended through the concatenation. Such files are outside
  `FileContent`.
- CollectDailyData: does not promise what the older collector does on a file of that kind.
  It merges and writes a six-column file with a non-numeric price. It appends to a file with
  an extra column whose date is new. It raises, leaving the file as it was, on a file with an
  extra column whose date is already present (at the assignment) and on a file without a
  date column (at the membership test). Such files are outside `FileContent`.
- DailyVersusStock: compares the two collectors only on files `FileContent` describes; on
  files with other columns or non-numeric cells the older collector does not always raise.
- MailsSent: says nothing about files with other columns or non-numeric cells. On those,
  `check_alert` raises when a column it reads is missing or the last growth is not numeric,
  and otherwise may mail as for a modelled file; they are outside `FileContent`.
- The `astype(float)` coercion of the price and float rounding in general: numbers are
  hundredths or reals.
- `Notifier.AlertMailContents`: the printed form of the price is a parameter, because
  Python's shortest round-trip float printing is not modelled; the growth is printed
  exactly, as Python prints a two-decimal value whose magnitude is below 7·10^13
  (2^46; from there on the spacing between doubles exceeds a hundredth and Python may print
  a neighbouring value).
- `send_email`: the SMTP session, its credentials from the environment and its swallowed
  failures; the decision carries the mail that would be sent.
- The log lines: every `print` of the two collectors (progress, the chosen branch, the
  last rows of the table) and of `check_alert` (the skip and "within range" messages).
- The dashboard's remote sync and widgets, and the NewsAPI mention script: I/O around the
  history, not part of this model.
