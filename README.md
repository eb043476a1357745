# kobodb in Dafny

This project models the core of `kobodb.py`, a small reader for the SQLite database
that a Kobo e-reader keeps about its library. The model covers these parts:

- **Rows to records.** A content row becomes a `Book`. Its read status is derived from
  the stored code, which may be NULL. A missing reading time becomes the sentinel `-1`.
  A joined content and bookmark row becomes a `Bookmark`.
- **The two queries.** The SQL text that `get_books` and `get_bookmarks` send cannot
  be run here, so each statement is written out as what it means over in-memory rows.
  - The fixed eligibility test (`Query.Eligible`).
  - The optional `LIKE "%v%"` title and author filters and the `ReadStatus=` filter.
    `SqlLike.Like` models SQLite's own `LIKE`: `%` and `_` act as wildcards and ASCII
    letters match regardless of case.
  - `ORDER BY Title` under SQLite's default BINARY collation, which applies when the
    schema declares `content.Title` without a COLLATE clause. NULL sorts first, then
    texts in code-point order.
  - The inner join `content.ContentID = Bookmark.VolumeID`.
- **The `KoboDB` class.** The class holds the connection, which `connect` sets. When
  the file cannot be opened, `connect` raises a `KoboException` instead.
  `GetBooks` and `GetBookmarks` are loops that map the fetched rows one by one, as the
  source does, and fail with a `KoboException` before a connection exists.
- **The text the program produces.** This covers `seconds_to_str`, `to_str`,
  `book_status`, the tab-separated export (the file's content, not the file) and the
  lines that `print_book_info` and `print_bookmark` print.

The project has eight modules, one per component: `Wrappers`, `Decimal` (Python's
`str()` of an integer), `SqlLike`, `Delimited` (joining and splitting on a separator),
`Records`, `Query`, `KoboDb` and `Report`.

In two places the code does something a reader might not expect, and the model follows
the code:

- The title and author filters are spliced into the SQL text. So `%` and `_` in a filter
  value act as wildcards, and the model keeps them as wildcards.
  `SqlLike.UnderscoreIsWildcard` shows one consequence.
  `SqlLike.LikeContains` shows that for values without wildcards this is the same as
  case-folded substring search.
- `str()` is applied to `filesize` and `percent_read` before `to_str`. So a NULL in those
  two export columns is written `None`, not `-`.

## Model

| member | source | states |
|---|---|---|
| `Records.ToReadStatus` | kobodb.py:45-53 | 0, 1 and 2 give not-read, in-progress and completed, each if and only if; every other value, NULL included, gives Unknown; total, never fails |
| `Records.StatusCodeRoundTrip` | kobodb.py:45-53 | a known status read back from its code (BOOK_NOT_READ and the others, lines 68-70) is itself; a code that derives a known status is that status's code |
| `Records.LabelInjective` | kobodb.py:45-53 | the four labels are pairwise distinct, so the stored label determines the status |
| `Records.MakeBook` | kobodb.py:33-43 | read status derived from ReadStatus; time is -1 when TimeSpentReading is NULL and the stored value otherwise; every other field copied from its column |
| `Records.ReadingTimeSentinel` | kobodb.py:41 | for non-negative stored times, the book's time is -1 exactly when the column was NULL, and non-negative exactly when it was present |
| `Records.MakeBookmark` | kobodb.py:56-64 | id, dates, type, text and annotation come from the bookmark row; title and author from the content row it was joined to |
| `SqlLike.LikePrefix` | kobodb.py:104 | for a literal without wildcards, `LIKE "v%"` holds exactly when the subject starts with v, ASCII case ignored; this is the `ContentID LIKE "file%"` test |
| `SqlLike.LikeContains` | kobodb.py:99-100 | for a filter value without `%` or `_`, `LIKE "%v%"` holds exactly when v occurs in the column, ASCII case ignored |
| `SqlLike.LikeSelfContains` | kobodb.py:99 | `LIKE "%t%"` holds of t itself, whatever wildcards t contains |
| `SqlLike.UnderscoreIsWildcard` | kobodb.py:99-100 | an `_` spliced into a filter matches any character: the filter "a_c" selects "abc", which does not contain "a_c" |
| `SqlLike.Like` | kobodb.py:99-104 | SQLite's LIKE: `%` matches any run of characters, `_` any one, other characters match with ASCII case ignored, over the whole subject; its properties are the four SqlLike lemmas |
| `Query.Eligible` | kobodb.py:104 | the fixed part of the WHERE clause: BookID NULL, ContentType 6, IsDownloaded 'true' or 1, ContentID LIKE "file%"; its meaning is stated by Query.SelectedMeaning |
| `Query.FilterRows` | kobodb.py:99-104 | the rows that meet the WHERE clause, in table order; its properties are Query.FilterRowsCount, Query.FilterRowsSelected and Query.FilterKeepsOrder |
| `Query.FilterRowsCount` | kobodb.py:99-104 | a row that meets the WHERE clause is kept exactly as often as the table holds it, and any other row is never kept |
| `Query.FilterRowsSelected` | kobodb.py:99-104 | every kept row meets the WHERE clause |
| `Query.FilterKeepsOrder` | kobodb.py:99-106 | filtering a title-sorted list leaves it title-sorted |
| `Query.LexLeTotal` | kobodb.py:106 | any two titles are comparable in code-point order |
| `Query.LexLeTransitive` | kobodb.py:106 | title order is transitive |
| `Query.Insert` | kobodb.py:106 | the result holds the same rows plus the new one, each as often |
| `Query.InsertKeepsOrder` | kobodb.py:106 | inserting into a title-sorted list gives a title-sorted list |
| `Query.SortByTitle` | kobodb.py:106 | the result is in non-decreasing title order and is a permutation of the input |
| `Query.SelectBooks` | kobodb.py:103-107 | the rows get_books receives: sorted by title; a row is in the result if and only if it is in the table and meets the WHERE clause, as often as the table holds it |
| `Query.SelectedMeaning` | kobodb.py:99-104 | with literal filter values, a row is selected exactly when BookID is NULL, ContentType is 6, IsDownloaded is 'true' or 1, ContentID starts with "file", and the title, author and status match the given filters |
| `Query.NarrowingFiltersInOrder` | kobodb.py:99-106 | adding filters returns exactly the rows of the wider result that meet them, in the same order |
| `Query.NarrowingOnlyRemoves` | kobodb.py:99-106 | adding filters never adds or duplicates a row, whatever order ties come back in |
| `Query.OwnTitleFindsBook` | kobodb.py:99 | an eligible book is found when its own title is the search text, provided the title holds no `"`; `%` and `_` in it do no harm |
| `Query.StatusFilterPartition` | kobodb.py:101 | a status filter keeps exactly the unfiltered rows with that code; two different codes never select the same row |
| `Query.StatusFilterLabel` | kobodb.py:101 | every book returned under a status filter derives the status that code names |
| `Query.JoinRows` | kobodb.py:118-119 | the inner join on ContentID = VolumeID, content rows outermost; its properties are Query.JoinMultiplicity, Query.JoinSound and Query.JoinComplete |
| `Query.JoinOneMultiplicity` | kobodb.py:119 | one content row joins with each bookmark row whose VolumeID equals its ContentID, once per occurrence |
| `Query.JoinMultiplicity` | kobodb.py:118-119 | a pair is joined (content count × bookmark count) times when ContentID equals VolumeID (neither NULL), and never otherwise |
| `Query.JoinSound` | kobodb.py:118-119 | every joined row pairs rows of the two tables whose ContentID and VolumeID are equal and not NULL |
| `Query.JoinComplete` | kobodb.py:118-119 | every matching pair of rows appears in the join |
| `KoboDb.KoboDB.constructor` | kobodb.py:72-74 | the handle keeps the file name and starts with no connection |
| `KoboDb.KoboDB.Connect` | kobodb.py:76-81 | a successful open sets the connection; a failed one raises a connection error and leaves the handle unchanged |
| `KoboDb.KoboDB.GetBooks` | kobodb.py:96-112 | before connecting: a get-books error; afterwards one Book per selected row, in the order SelectBooks gives |
| `KoboDb.KoboDB.GetBookmarks` | kobodb.py:114-126 | before connecting: a get-bookmarks error; afterwards one Bookmark per joined row; title and author are ignored |
| `KoboDb.FetchBooks` | kobodb.py:107-109 | one Book per fetched row, built from that row, in fetch order |
| `KoboDb.FetchBookmarks` | kobodb.py:120-123 | one Bookmark per fetched joined row, built from that row pair, in fetch order |
| `KoboDb.NoMatchEmpty` | kobodb.py:106-112 | when no row meets the query the result is the empty list |
| `KoboDb.BookmarkOwner` | kobodb.py:118-123 | each listed bookmark comes from a table row whose VolumeID is the ContentID of a content row, and takes its title and author from that row |
| `Decimal.IntRoundTrip` | kobodb.py:172 | the decimal text `str()` gives an integer reads back as that integer |
| `Report.FormatInt` | kobodb.py:172 | `str()` of an integer column: "None" exactly when NULL, otherwise decimal text that reads back as the value |
| `Decimal.IntToStringInjective` | kobodb.py:172 | different integers are written as different decimal texts, so an exported filesize or percent_read field determines the number |
| `Report.ToStr` | kobodb.py:136-137 | None becomes "-"; every other value is returned unchanged |
| `Report.Parts` | kobodb.py:131-133 | hours, minutes and seconds with 3600·h + 60·m + s equal to the input, minutes and seconds below 60 |
| `Report.PartsUnique` | kobodb.py:131-133 | that decomposition is the only one with minutes and seconds below 60 |
| `Report.SecondsToStr` | kobodb.py:128-134 | "not available" exactly for negative input; otherwise the "{h}h {m}min {s}sec" text of the decomposition |
| `Report.SecondsToStrExamples` | kobodb.py:128-134 | -1 gives "not available"; 3725 gives "1h 2min 5sec" |
| `Report.ClockInjective` | kobodb.py:134 | the three numbers can be read back from the duration text |
| `Report.SecondsToStrInjective` | kobodb.py:128-134 | different non-negative durations give different texts |
| `Report.BookStatus` | kobodb.py:178-186 | "read", "unread" and "progress" give codes 2, 0 and 1, each if and only if; every other word gives None, which means no status filter |
| `Report.BookStatusLabels` | kobodb.py:178-186 | "read" selects "completed", "unread" selects "not read" and "progress" selects "in progress"; "all" selects no status |
| `Report.BookLine` | kobodb.py:171-174 | one book's nine fields after `str()` and `to_str`, joined by tabs; its properties are Report.BookLineFields |
| `Report.ExportText` | kobodb.py:165-176 | the whole text written: the header line, then each book line, each closed by a newline; its properties are Report.ExportRoundTrip and Report.HeaderFields |
| `Report.ExportBooks` | kobodb.py:165-176 | the text written is the header line and then one line per book in the given order, each closed by a newline |
| `Report.HeaderFields` | kobodb.py:166-169 | the header splits on tabs into the nine column names in their fixed order |
| `Report.BookLineFields` | kobodb.py:172-174 | a book line splits on tabs into its nine fields in column order: each missing text column is "-", a missing filesize or percent_read is "None", a present filesize or percent_read reads back as itself, and the status is its label |
| `Report.ExportRoundTrip` | kobodb.py:165-176 | splitting the text written on newlines gives the header and the book lines; joining them again gives that text exactly; every line has nine fields |
| `Delimited.SplitJoin` | kobodb.py:174 | tab-joined fields split back into the same fields when none contains a tab |
| `Delimited.JoinSplit` | kobodb.py:169-175 | re-joining the pieces of a text gives the text exactly |
| `Delimited.SplitTerminated` | kobodb.py:169-175 | newline-terminated lines split back into the lines and one empty piece |
| `Report.BookmarkLines` | kobodb.py:152-163 | the lines print_bookmark prints; its properties are Report.BookmarkLinesShape and Report.BookmarkLinesOptional |
| `Report.BookmarkLinesShape` | kobodb.py:152-163 | six fixed lines, then a quoted "Text" line when the text is present and non-empty, a quoted "Annotation" line likewise, then the 80-dash rule; the length counts exactly those lines |
| `Report.BookmarkLinesOptional` | kobodb.py:158-162 | a "Text" line is printed if and only if the text is present and non-empty; an "Annotation" line likewise |
| `Report.BookInfoLines` | kobodb.py:139-150 | the lines print_book_info prints: eleven lines, the tenth the reading time and the last the 80-dash rule; the reading time's meaning is Report.BookInfoReadingTime |
| `Report.BookInfoReadingTime` | kobodb.py:139-150 | the printed reading time is "not available" exactly when the row stored none or a negative one; otherwise it is the stored seconds as hours, minutes and seconds |

## Left out

- Opening the file (`sqlite3.connect` in read-only URI mode, `row_factory`), cursors and
  `fetchall`: the database is a value of two row sequences. `Connect` takes the outcome
  of opening the file as a parameter.
- `get_version` and `close`: these only call into the sqlite3 library.
- Errors raised inside SQLite (a corrupt file, a missing table or column) are not
  modelled, because their causes are inside the library. The model raises a
  `KoboException` in two cases: when `connect` fails to open the file, which is an
  input to the model, and when a query runs before `connect`. The exception's message
  text is not modelled either.
- `main`, argparse, the numbered "title - author" lines of the list and author commands,
  and the export confirmation: these are command-line plumbing.
- The file in `export_books`: `open`, `write`, `close` and the file name. Only the text
  written is modelled. The file is opened in text mode, so the bytes on disk depend on
  the platform (a Windows system writes `\r\n` for each `\n`) and on the locale's
  encoding. The round trip is about the text before that step.
- KoboDb.KoboDB.GetBooks: the model requires that a title or author filter contains no
  `"`. The value is spliced between double quotes, so a `"` in it ends the SQL string
  literal, or, doubled, is read as one quote. The statement that results is not
  modelled. Depending on the value, it can fail (the failure is re-raised as a
  `KoboException`), search for a different text, or rewrite the WHERE clause.
  For example, the title `" OR 1 OR "` makes the clause true for every content row,
  so chapters and items that are not downloaded are returned too.
- KoboDb.KoboDB.GetBooks: a filter value that holds a NUL character is not modelled.
  Python's sqlite3 refuses a statement containing NUL, so get_books raises a
  `KoboException` where the model returns rows. The command line cannot pass a NUL.
- Query.OwnTitleFindsBook: the lemma requires a title without `"`. In the program,
  searching for a title that holds a `"` is not guaranteed to find the book. The
  statement may fail, a doubled quote searches for a single one, or the WHERE clause
  is rewritten. So "a book is found by its own title" is promised only for titles
  without `"`.
- `ORDER BY Title` assumes that the schema declares `content.Title` without a COLLATE
  clause, so SQLite's default BINARY collation applies. The program does not choose a
  collation. If the schema declares `COLLATE NOCASE`, SQLite puts "apple" before
  "Banana", and `Query.SortedByTitle` does not describe that order.
- SQLite type affinity and storage classes: ContentType, ReadStatus, TimeSpentReading,
  ___FileSize and ___PercentRead are integers or NULL. IsDownloaded is NULL, an integer
  or a text. A REAL `___PercentRead`, or a number stored as text, is not modelled.
- `ORDER BY Title` leaves the order of equal titles to SQLite. The model uses one order:
  a stable insertion sort. Query.NarrowingFiltersInOrder is therefore a statement about
  that order. Query.NarrowingOnlyRemoves, Query.SelectBooks and the join lemmas do not
  depend on it.
- The join has no ORDER BY, so its row order is unspecified. The model puts content rows
  outermost. Every join lemma is about membership and multiplicity, not order.
- Records.ReadingTimeSentinel: the "-1 exactly when NULL" equivalence assumes no
  negative time is stored. A stored -1 also gives -1; `Records.MakeBook` states the
  general case.
- Query.SelectedMeaning: this holds only for filter values without `%` or `_`. For other
  values the selection is `SqlLike.Like` with those characters as wildcards.
- Report.BookLineFields and Report.ExportRoundTrip: these hold when no text column
  contains a tab or a newline. The program does not check for either.
- Text is Dafny's `seq<char>` of Unicode scalar values. Code-point order is taken as the
  byte order that SQLite's BINARY collation uses on UTF-8. Python `str.format` of a
  non-text value in a text column is not modelled.
