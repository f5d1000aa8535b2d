# MatrixOne ODBC driver: cursor, query text and protocol core

A Dafny 4.11 model of the parts of the driver that carry state across calls or transform text, with
proofs of what they promise. Rows of the server are a given sequence (or table), positions in a
stored result are indices, and outcomes of conversions, of the connection and of the server are
parameters. Where the source updates an object or a buffer in place, the model does too: each such
method is proved against a specification function, and lemmas state what that function means.

| file | subject |
|---|---|
| `OdbcCodes.dfy`, `Digits.dfy`, `DecimalRuns.dfy` | return codes, digits and runs of them, integer bounds and small shared definitions |
| `FetchEngine.dfy` | the rowset cursor over a stored result, SQL_POSITION, and the row behind a positioned WHERE |
| `CursorRules.dfy` | the cursor positioning rules of SQLFetchScroll (ODBC API Reference) and where the driver departs from them |
| `LimitNumbers.dfy` | the numbers read behind the word LIMIT, and for which spellings they are right |
| `LimitText.dfy`, `LimitScroller.dfy`, `ScrolledFetch.dfy` | the LIMIT scroller: its text buffer, its window arithmetic, and SQLFetch through it |
| `FnEscapes.dfy`, `FnMatching.dfy`, `EscapeLexemes.dfy` | the in-place `{fn ...}` rewriter, what it means in terms of matching braces, and which braces those are |
| `Tokenizer.dfy`, `QueryLexemes.dfy` | the marker tokenizer, and what it records said by strings, comments and markers |
| `ParamText.dfy` | literal substitution, brace removal, and UNION ALL of parameter arrays |
| `UniqueKeys.dfy`, `PositionedRows.dfy` | choosing a unique key from SHOW KEYS, and the rows a positioned delete takes |
| `ClauseText.dfy`, `ClauseReading.dfy` | the text of the WHERE clause, and what the server reads in it |
| `TimeText.dfy` | what becomes of a TIME value between its text and a literal, and which values survive |
| `DataAtExec.dfy` | the data-at-execution protocol (states S8 to S10 of Appendix B, ODBC State Transition Tables) |
| `ParamArrays.dfy`, `BulkInsert.dfy` | parameter arrays without a result, chunked bulk insert |
| `RowStorage.dfy`, `Lookahead.dfy` | the row storage and reading a prepared result two rows ahead |
| `Conversions.dfy` | integers to text in any radix, and to and from bytes |

Main results: a run of fetches reads the rows of the simple cursor if and only if every fetch is
continuable (`FetchEngine.RunExact`); a scrolled query delivers a beginning of a plain execution's
rows, and all of them under an exact condition (`ScrolledFetch.RunScrolled`); the in-place rewriter
equals a pure function and blanks exactly the wrappers of function escapes (`FnEscapes.Rewrite`, `FnMatching.BlanksExactlyTheWrappers`); the
tokenizer's nested loops record exactly what a one-character automaton records
(`Tokenizer.Parser.Tokenize`), which are the question marks outside strings and comments
(`QueryLexemes.RecordsTheMarkers`); the text of a WHERE clause selects exactly the rows its terms match
(`ClauseReading.ClauseSelects`); a key delete is safe in every table if and
only if a stated condition holds (`PositionedRows.KeyDeleteSafeExactly`); every data-at-execution
sequence asks in order and executes once (`DataAtExec.ExecuteSequence`, `DataAtExec.SetPosSequence`).

## Where the code differs from what one would expect

The model follows the code; each point has a lemma.

- Row numbers of positioned statements are cut to 16 bits behind the check that compares them in
  full: row 65537 of a rowset takes its WHERE values from the first row, and row 65536 goes for the whole
  rowset (`FetchEngine.FarRowHitsTheFirst`, `FetchEngine.RowBecomesRowset`).
- SQLSetPos on row 0 of an empty rowset still builds one WHERE clause
  (`FetchEngine.EmptyRowsetHitsARow`).
- A re-execution keeps `end_of_set` of the freed result (`FetchEngine.StalePositionIsUsed`);
  `FetchEngine.ReexecutionExact` says which runs do not depend on it.
- A rowset that ends in SQL_ERROR does not refresh `end_of_set`, so the next NEXT seeks to a stale
  position and reads the failed row again (`FetchEngine.FailedRowIsReadAgain`). `FetchEngine.RunExact`
  gives the exact condition for correct runs.
- Past the end of the result the seek can be stale as well, but then no row is read through it
  (`FetchEngine.StaleSeekPastTheEnd`).
- A fetch does not reset `cursor_row`. After scrolling back, a positioned statement can skip a needed
  reposition and take its WHERE values from the wrong row
  (`FetchEngine.ScrollingBackHitsTheWrongRow`); `FetchEngine.WheresExact` gives the exact condition.
- With bookmarks, a rowset of several rows that fail together with their bookmarks is reported as
  SQL_ERROR (`FetchEngine.TwoFailingRowsWithBookmarks`).
- PRIOR and LAST with a rowset larger than what is there move before the first row and return
  SQL_NO_DATA where the standard starts at row 1; RELATIVE as the first fetch departs too
  (`CursorRules.FollowsTheStandard`).
- `calc_prefetch_number` cuts its result to 32 bits: PREFETCH 4294967295 with a rowset of two rows
  gives windows of size zero, and nothing is delivered (`LimitScroller.HugePrefetchDeliversNothing`).
- Rewriting the count of the scroller blanks the first byte behind it, so the query keeps its suffix
  only if that is empty or starts with a blank (`LimitText.SuffixKept`). If the server does not take the
  damaged request, the rows of the last window are lost without an error
  (`ScrolledFetch.ParenthesisLosesRows`); `ScrolledFetch.RunScrolled` gives the exact condition.
- Values go into a WHERE clause as C strings, so one with a zero byte is cut, and the clause can match
  another row (`PositionedRows.ZeroByteTakesTheOtherRow`). TIME values lose their sign on the way
  (`PositionedRows.NegativeTimeTakesTheOtherRow`), become midnight where the column has fraction digits
  (`TimeText.WithFraction`), and are refused with a fraction or above 23 hours. A BIT(1), or a BOOL on
  MatrixOne, leaves its literal missing (`PositionedRows.BitFindsNoRow`). A floating-point key column is
  compared with its printed value. `PositionedRows.KeyDeleteSafeExactly`, `KeyExactByType` and
  `FallbackSafeExactly` say exactly which rows are safe.
- LIMIT 10 OFFSET 5 is read as offset 10 and count 5, and LIMIT 10 FOR UPDATE loses its locking clause
  (`LimitNumbers.OffsetIsSwapped`, `LimitNumbers.SuffixIsSwallowed`).
- A NULL in the chosen unique key becomes `IS NULL`, which can match other rows; LIMIT 1 may then take
  the wrong one (`PositionedRows.NullKeyIsUnsafe`).
- SQL_NULL_DATA given to SQLPutData only empties the value; it does not store a NULL
  (`DataAtExec.NullOnlyEmpties`). An empty piece or a lone SQL_NULL_DATA executes DEFAULT on a record
  that never held a byte and an empty value on one that did (`DataAtExec.EmptyPutDependsOnThePast`).
- A piece put before the first SQLParamData is refused or lost (`DataAtExec.EarlyPutIsLost`).
- Backticks in a column name are not escaped: such a name is not read back from the WHERE clause
  (`ClauseReading.NameReadExactly`).
- A block comment may end at the star that opens it: `/*/` is one to the tokenizer, and the terminator
  itself is read as code (`QueryLexemes.WholeComment`).
- SQLSetPos with SQL_ADD on one row always sends the first bound row (`BulkInsert.BatchInsert`).
- A value assigned over a NULL in the row storage stays NULL, which shows when a second result is read
  ahead without a reset; if the server has no row then, rows of the first result are delivered again
  (`Lookahead.ReadNextResult`).
- Bytes shorter than eight are not sign-extended when read back (`Conversions.BytesReadBack`).

## Model

| member | source | states |
|---|---|---|
| FetchEngine.StepKeepsInv | driver/my_prepared_stmt.cc:822-929 | every fetch, SQLSetPos and positioned statement keeps -1 <= current_row, current_row + rows_found <= n and all saved positions inside the result |
| FetchEngine.Run | driver/results.cc:2346-2656 | a run of any operations from a cursor inside the result ends with a cursor inside the result |
| FetchEngine.StepExact | driver/my_prepared_stmt.cc:885-927 | one fetch reads the rows absolute addressing would read exactly when it is continuable, and then both cursors stay in agreement |
| FetchEngine.RunExact | driver/my_prepared_stmt.cc:885-927 | over every run, all rowsets are read right if and only if every fetch that continues behind a rowset comes after one that ended there without SQL_ERROR |
| FetchEngine.NoFailureIsContinuable | driver/results.cc:2629-2633 | without failed or empty-sized rowsets every fetch of a run is continuable |
| FetchEngine.RunsWithoutFailureReadRight | driver/results.cc:2471-2492 | on a fresh statement the saved-position shortcut always agrees with absolute addressing, for all fetch types and sizes, if no rowset fails as a whole |
| FetchEngine.FailedRowIsReadAgain | driver/results.cc:2629-2633 | after a single-row fetch that fails, NEXT moves current_row to 2 but reads row 1 |
| FetchEngine.StaleSeekPastTheEnd | driver/my_prepared_stmt.cc:892-927 | beyond the end the shortcut can seek to a stale position, with no row read |
| FetchEngine.ReexecutionExact | driver/handle.cc:440-460 | the runs of a re-executed statement that read right wherever the old end of rowset leads are exactly those in which every fetch is continuable |
| FetchEngine.StalePositionIsUsed | driver/results.cc:2629-2633 | after a first row that fails, NEXT on a re-executed statement reads wherever the old position leads |
| FetchEngine.RightRunReadsReferenceRows | driver/results.cc:2471-2597 | a run whose fetches are right reads the reference cursor's rows, in order |
| FetchEngine.RunsWithoutFailureReadReference | driver/results.cc:2471-2597 | from a fresh statement, a run without failed rowsets delivers the reference cursor's rows |
| FetchEngine.NextReadsOn | driver/my_prepared_stmt.cc:829-831 | NEXT fetches read a contiguous span from where the cursor is, whatever the rowset sizes |
| FetchEngine.NextCoversTheResult | driver/my_prepared_stmt.cc:829-831 | NEXT fetches from the start, sizes changing and SQLSetPos between them, read rows 0, 1, 2, ... once each up to the end |
| FetchEngine.PositionStep | driver/cursor.cc:1681-1717 | SQL_POSITION keeps the cursor inside the result |
| FetchEngine.PositionThenWhere | driver/cursor.cc:1681-1717 | after SQL_POSITION on a row a positioned statement for it builds the clause from that row and leaves the cursor there |
| FetchEngine.PositionRefused | driver/cursor.cc:1681-1717 | a row number outside the rowset changes nothing |
| FetchEngine.LastBuilt | driver/cursor.cc:1274-1319 | the loop gets to the first row at which the call ends, or to the last |
| FetchEngine.WhereExact | driver/cursor.cc:285-329 | a positioned statement builds exactly the meant WHERE clauses, one row each, iff its row number fits 16 bits and is no stale target, or is 0 with fewer than 65536 rows reached and a rowset that is not empty unless the result is |
| FetchEngine.WheresExact | driver/cursor.cc:1719-1755 | over every run without failed rowsets all WHERE clauses are the meant ones if and only if every positioned statement has such a target |
| FetchEngine.NextOnlyNeverStale | driver/cursor.cc:285-329 | in a NEXT-only run the targets are good exactly when row numbers and rowsets fit 16 bits and no empty rowset is gone for |
| FetchEngine.NextOnlyWheresRight | driver/cursor.cc:1719-1755 | in NEXT-only runs with SQLSetPos calls all positioned statements hit what they are meant for iff row numbers and rowsets fit 16 bits and no empty rowset of a result with rows is gone for |
| FetchEngine.ScrollingBackHitsTheWrongRow | driver/cursor.cc:285-329 | after returning to the first rowset, the statement for row 1 takes the values of row 0 |
| FetchEngine.FarRowHitsTheFirst | driver/cursor.cc:1719-1734 | row number 65537 of a large rowset takes the values of the first row |
| FetchEngine.RowBecomesRowset | driver/cursor.cc:1091-1150 | row number 65536 builds a clause for every row of the rowset the call gets to |
| FetchEngine.EmptyRowsetHitsARow | driver/cursor.cc:1091-1150 | row number 0 without a fetched rowset builds a clause for the first row of the result |
| FetchEngine.LoopHitsRows | driver/cursor.cc:1110-1139 | from a right read position the loop over a rowset of fewer than 65536 rows builds one clause for each row, in order |
| FetchEngine.RowsetLoopExact | driver/cursor.cc:1110-1139 | the loop up to a row builds one clause for each row in order iff that row's number fits 16 bits |
| FetchEngine.OverallIsSuccess | driver/results.cc:2555-2597 | a rowset's code is SQL_SUCCESS iff every row and bookmark conversion was |
| FetchEngine.OverallIsError | driver/results.cc:2555-2597 | it is SQL_ERROR iff the first row failed and every later row failed together with its bookmark |
| FetchEngine.OverallWithoutBookmarks | driver/results.cc:2555-2597 | without bookmarks it is SQL_ERROR iff exactly one row was fetched and it failed |
| FetchEngine.TwoFailingRowsWithBookmarks | driver/results.cc:2555-2597 | with failing bookmarks two failing rows give SQL_ERROR |
| FetchEngine.Statement.SeekRow | driver/my_prepared_stmt.cc:885-927 | clips the row, moves the cursor, and seeks by saved position or absolutely |
| FetchEngine.Statement.ReadRows | driver/results.cc:2471-2597 | reads the next stored rows in order, writes one status per row, and accumulates the code |
| FetchEngine.Statement.ReadRowset | driver/results.cc:2438-2656 | returns the rows from the read position, records the rowset and its end, and writes all size status slots: own status below the fetched count, NOROW above |
| FetchEngine.Statement.ExtendedFetch | driver/results.cc:2346-2656 | the rows, the code, the status array and the whole new cursor of one SQLExtendedFetch are those of the specification step |
| FetchEngine.FetchAnswers | driver/results.cc:2448-2650 | SQL_NO_DATA iff no row is read; else SQL_SUCCESS iff all rows and bookmarks convert, SQL_ERROR iff the first row fails and every later one with its bookmark, SQL_SUCCESS_WITH_INFO otherwise |
| FetchEngine.StatusesWriteSlots | driver/results.cc:2583-2627 | each status slot of the rowset holds the outcome of its row, or no row, and no other slot changes |
| FetchEngine.NextFetch | driver/results.cc:2448-2650 | a NEXT that does not fail reads the rows behind the last rowset, and answers SQL_NO_DATA iff there are none |
| FetchEngine.Statement.FetchToEnd | driver/results.cc:2346-2656 | fetching NEXT until SQL_NO_DATA reads every row of the result once, in order |
| FetchEngine.FillNoRow | driver/results.cc:2600-2627 | marks exactly the slots no row was fetched for |
| FetchEngine.Statement.SetPosition | driver/cursor.cc:1681-1717 | returns row current_row + irow - 1 and remembers it, or refuses and changes nothing |
| FetchEngine.Statement.AimAt | driver/cursor.cc:285-329 | repositions unless the row is remembered, and gives the value at the read position; SQL_NO_DATA in a result without rows |
| FetchEngine.Statement.AimAtRows | driver/cursor.cc:1274-1319 | the do-while loop builds the clauses of the specification, with values from the rows aimed at, up to the first row at which the call ends |
| FetchEngine.Statement.WhereValues | driver/cursor.cc:1719-1755 | refuses a row number, or cuts it to 16 bits and gives the rows whose values enter the WHERE clauses and the cursor left behind |
| CursorRules.FollowsTheStandard | driver/my_prepared_stmt.cc:822-884 | for every state, fetch type and size the driver's target is the standard's if and only if it is not one of the listed departures |
| CursorRules.DeparturesOfPriorAndLast | driver/my_prepared_stmt.cc:832-840 | in those cases of PRIOR and LAST the driver is before the first row and the standard at row 1 |
| CursorRules.PlaceOfBookmark | driver/my_prepared_stmt.cc:870-878 | a bookmark is a row number counted from 0; a negative one within a rowset of the start gives the first row |
| CursorRules.PlaceAfterFetch | driver/my_prepared_stmt.cc:885-927 | a fetch that reads rows leaves the cursor at its target |
| LimitNumbers.GetLimitNumbers | driver/utility.cc:3958-4011 | the loops find offset, row count and end of the clause as the specification does |
| LimitNumbers.FoundExactly | driver/utility.cc:3958-4011 | the clause found is the server's iff nothing follows LIMIT count, always for LIMIT offset, count, and for LIMIT count OFFSET offset iff both are equal; the count has to fit 32 bits |
| LimitNumbers.FoundTwo | driver/utility.cc:3985-4010 | of two numbers the first is the offset, whatever stands between them, and the clause ends behind the second |
| LimitNumbers.FoundOne | driver/utility.cc:3985-3996 | a number without digits behind it is the row count, and the rest of the text is swallowed |
| LimitNumbers.OffsetIsSwapped | driver/utility.cc:3985-4010 | LIMIT 10 OFFSET 5 gives offset 10 and count 5 |
| LimitNumbers.SuffixIsSwallowed | driver/utility.cc:3985-3996 | LIMIT 10 FOR UPDATE ends behind the locking clause |
| LimitText.PadRoundTrip | driver/my_stmt.cc:651-652 | a number printed into a field wide enough for it is read back unchanged |
| LimitText.FieldsAreWideEnough | driver/myutil.h:75-76 | 20 and 10 places are enough for 64-bit offsets and 32-bit counts |
| LimitText.SuffixKept | driver/my_stmt.cc:685 | rewriting the count keeps the query suffix iff that is empty or starts with a blank |
| LimitText.SpliceOffset | driver/my_stmt.cc:649-653 | overwriting the offset field and its comma changes the offset in the text and nothing else |
| LimitText.SpliceCount | driver/my_stmt.cc:679-686 | overwriting the count field and the byte behind it changes the count and blanks the first suffix byte |
| LimitText.DecodesToWindow | driver/my_stmt.cc:587-658 | the bytes sent hold no NUL and decode to the window written, for all 64-bit offsets and 32-bit counts |
| LimitText.BehindIsTail | driver/my_stmt.cc:610-645 | behind the count field the server gets the suffix and the padding |
| LimitText.PaddedBlanked | driver/my_stmt.cc:685 | with the padding, too, a blanked suffix equals the original iff the suffix does |
| LimitText.PutNumber | driver/my_stmt.cc:649-653 | prints a right-aligned number into the buffer in place, within bounds, and replaces the terminator |
| LimitScroller.PrefetchHoldsWholeRowsets | driver/my_stmt.cc:550-579 | windows are whole rowsets of at least PREFETCH rows, fewer than one rowset more, cut by max_rows |
| LimitScroller.PrefetchIsZero | driver/my_stmt.cc:550-579 | the window size is zero iff the rounded PREFETCH is a multiple of 2^32 |
| LimitScroller.CoveredIsPlain | driver/my_stmt.cc:587-608 | the rows the windows cover are those of one plain execution iff the window size is not cut to zero or that execution has no rows |
| LimitScroller.PlainSpelled | driver/my_stmt.cc:587-650 | one plain execution gives the rows behind the offset, as many as count, max_rows and result allow |
| LimitScroller.HugePrefetchDeliversNothing | driver/my_stmt.cc:550-579 | PREFETCH 2^32 - 1 with rowsets of two covers no row of a non-empty result |
| LimitScroller.WindowOfCovered | driver/my_stmt.cc:661-690 | the window the server cuts for the offset and count sent is the same window of the covered rows |
| LimitScroller.CountLeft | driver/my_stmt.cc:670-673 | the unsigned subtraction read as signed is the number of rows left |
| LimitScroller.CreateText | driver/my_stmt.cc:610-645 | fills the buffer with prefix, LIMIT clause, fields and suffix, ending in blanks and one NUL behind the bytes sent |
| LimitScroller.Scroller.constructor | driver/my_stmt.cc:587-645 | a new scroller holds that text, the start offset, the smaller of LIMIT count and max_rows, and a row count not above it |
| LimitScroller.Scroller.Move | driver/my_stmt.cc:649-658 | writes the next offset, keeps the text well formed, and moves on by the row count |
| LimitScroller.Scroller.CutCount | driver/my_stmt.cc:661-690 | refuses a window behind the end of a limited result, cuts the count of the window that reaches it, and says when the suffix has been blanked |
| LimitScroller.Scroller.Sent | driver/my_stmt.cc:692-700 | what the server reads in the bytes sent is the current offset and count, and the suffix as it now is |
| ScrolledFetch.WindowReadToEnd | driver/results.cc:2494-2512 | a window read to its end before the result is: the next one starts right behind the delivered rows |
| ScrolledFetch.NextWindowContinues | driver/results.cc:2494-2512 | a refused, failed or delivered next window keeps the reading point |
| ScrolledFetch.LastStartIsOnGrid | driver/my_stmt.cc:649-658 | the last window starts a whole number of windows on |
| ScrolledFetch.AllDelivered | driver/my_stmt.cc:661-704 | all covered rows are delivered iff the cut request is taken, or never sent, or sent when the rows have run out |
| ScrolledFetch.ServedIsLive | driver/my_stmt.cc:661-690 | the server's answer to a request it takes is the window of the rows to deliver |
| ScrolledFetch.WindowOfTarget | driver/my_stmt.cc:661-690 | a window requested unharmed is the same window of the rows that will be delivered |
| ScrolledFetch.RequestedInVain | driver/my_stmt.cc:697-701 | a request that is turned down asks only for rows that are not delivered anyway |
| ScrolledFetch.Statement.constructor | driver/execute.cc:84-107 | a scrolled query is prepared for its first window, with the rows it will deliver fixed by query, limits and server |
| ScrolledFetch.DoQuery | driver/execute.cc:84-107 | the window size follows PREFETCH and rowset size, the first window is read, nothing is delivered yet |
| ScrolledFetch.Statement.Execute | driver/my_stmt.cc:692-704 | the server answers with the rows of the window it reads if it takes the text behind it, else SQL_ERROR with everything kept |
| ScrolledFetch.Statement.Prefetch | driver/my_stmt.cc:661-704 | SQL_NO_DATA behind the end, SQL_ERROR for a cut request the server does not take, both with everything kept; else the window just moved to |
| ScrolledFetch.Statement.NextRow | driver/results.cc:2494-2517 | delivers the next row of those to be delivered, asking for another window if the current one has run out |
| ScrolledFetch.Statement.SeekNext | driver/my_prepared_stmt.cc:885-927 | NEXT continues right behind the delivered rows |
| ScrolledFetch.Statement.Fetch | driver/results.cc:2471-2656 | one SQLFetch returns the next rows to be delivered in order, SQL_NO_DATA when there are none, a failed request included |
| ScrolledFetch.FetchAll | driver/results.cc:2471-2517 | fetching until SQL_NO_DATA, with any rowset sizes, gives the rows to be delivered once each in order |
| ScrolledFetch.RunScrolled | driver/my_stmt.cc:550-704 | a scrolled query delivers a beginning of the rows of one plain execution, and all of them iff there are none, or the rounded PREFETCH is no multiple of 2^32 and no row is lost by the cut request |
| ScrolledFetch.BlankSuffixIsSafe | driver/my_stmt.cc:679-686 | no row is lost for a suffix that is empty or starts with a blank |
| ScrolledFetch.ParenthesisLosesRows | driver/my_stmt.cc:679-686 | for a LIMIT in parentheses five of ten rows are lost unless the server takes the query with the parenthesis blanked |
| FnEscapes.Rewrite | driver/parse.cc:880-978 | the in-place pass turns the buffer into the pure rewriting of the original text, of the same length |
| FnEscapes.SameAdvance | driver/parse.cc:896-951 | bytes already overwritten do not change how the lexer moves on |
| FnEscapes.StepInside | driver/parse.cc:900-930 | one turn inside a quote or comment is the lexer's turn |
| FnEscapes.StepOpening | driver/parse.cc:932-949 | one turn that opens a comment or quote is the lexer's turn |
| FnEscapes.OpenBrace | driver/parse.cc:951-970 | finds the keyword behind a brace and blanks brace and keyword of a function escape only |
| FnMatching.BlanksExactlyTheWrappers | driver/parse.cc:880-978 | a byte is blanked iff it is brace or keyword of a function escape in code, or the closing brace matching it; all others are kept |
| EscapeLexemes.FindsTheBraces | driver/parse.cc:880-978 | however a text divides into strings, comments, braces and ordinary characters, the braces counted are those of code, each opening one a function escape iff white space, fn in any case and white space follow |
| EscapeLexemes.EveryTextDivides | driver/parse.cc:880-978 | every text divides like that |
| EscapeLexemes.EscapeIsUnwrapped | driver/parse.cc:948-976 | of a function escape in plain text exactly the two braces and the two letters become blank |
| EscapeLexemes.NothingToRewrite | driver/parse.cc:880-978 | a text without a function escape in code stays as it is, whatever its strings and comments hold and whatever other braces it has |
| FnMatching.StackBlanksWrappers | driver/parse.cc:951-976 | the stack of open escapes finds exactly the matching braces |
| FnMatching.MatchIsUnique | driver/parse.cc:971-976 | a closing brace matches one opening brace |
| FnMatching.ClosesInnermost | driver/parse.cc:971-976 | a closing brace matches the innermost open one, or none |
| FnMatching.OnlyCodeChanges | driver/parse.cc:880-978 | a changed byte becomes a blank, was a brace or a keyword letter, and was read in code: quotes and comments are untouched |
| FnMatching.PairsStayTogether | driver/parse.cc:971-976 | both braces of a pair are blanked or both are kept, by whether it is a function escape |
| FnMatching.BraceSurvives | driver/parse.cc:880-978 | a code brace survives iff it belongs to no function wrapper |
| FnMatching.SurvivorsAreBalanced | driver/parse.cc:880-978 | if the code braces are balanced, the surviving ones are |
| Tokenizer.Parser.Tokenize | driver/parse.cc:714-780 | ends for every text and records exactly the markers the automaton reads, tokens in range |
| Tokenizer.MarkersAreExact | driver/parse.cc:650-669 | the offsets are strictly increasing, in range, and exactly the question marks read in code |
| QueryLexemes.RecordsTheMarkers | driver/parse.cc:714-780 | however a query divides into markers, strings, comments and ordinary characters of one or more bytes, what is recorded is the byte offsets of its markers |
| QueryLexemes.EveryTextDivides | driver/parse.cc:714-780 | every query divides like that |
| QueryLexemes.QuotesTurn | driver/parse.cc:561-575 | a string in single, double or back quotes, with escaped characters in it, records nothing, and reading goes on in code behind it |
| QueryLexemes.UnclosedTurn | driver/parse.cc:619-652 | a string without an end records nothing up to the end of the text |
| QueryLexemes.LineTurn | driver/parse.cc:520-534 | a comment from a hash, or two dashes and a blank, records nothing up to the newline |
| QueryLexemes.WholeComment | driver/parse.cc:520-534 | a comment records nothing up to its terminator, the text marked with an exclamation mark being none |
| QueryLexemes.MarkerBehindString | driver/parse.cc:714-780 | of the two question marks in '?'? only the second is recorded |
| Tokenizer.CommentTurn | driver/parse.cc:578-607 | a comment may be read from its first character on; the executable kind is not a comment |
| Tokenizer.Parser.SkipSpaces | driver/parse.cc:509-517 | skipping white space loses no marker |
| Tokenizer.Parser.SkipComment | driver/parse.cc:520-534 | skipping a comment loses no marker behind it and records none in it |
| Tokenizer.Parser.FindClosingQuote | driver/parse.cc:619-647 | skipping a quoted string, with escapes and adjacent quotes, loses no marker and makes progress |
| Tokenizer.Parser.IsQuerySeparator | driver/parse.cc:696-711 | steps over a separator, or changes nothing |
| Tokenizer.Parser.IsComment | driver/parse.cc:578-607 | raises one comment flag, that of the comment opening here |
| ParamText.MarkersPutBack | driver/execute.cc:230-320 | substituting a question mark for every marker gives the query back |
| ParamText.LiteralsPlaced | driver/execute.cc:230-320 | the i-th literal stands at the i-th offset, moved by the growth of the earlier literals |
| ParamText.BytesKept | driver/execute.cc:230-320 | every byte that is no marker is kept, moved by the growth of the literals before it |
| ParamText.SubstitutedLength | driver/execute.cc:230-320 | nothing else is in the built text |
| ParamText.LeftBehind | driver/execute.cc:240-296 | a parameter that cannot be used leaves the query up to it with its literals, and what it wrote itself |
| ParamText.InsertParams | driver/execute.cc:230-320 | appends the substituted query to the buffer, or what a failing parameter leaves; SQL_ERROR iff a parameter fails, SQL_SUCCESS_WITH_INFO iff one warns |
| ParamText.InsertParam | driver/execute.cc:240-296 | appends the text up to the marker and the literal; nothing for a parameter that is not bound |
| ParamText.BuildText | driver/execute.cc:230-320 | from query text to final text: the tokenizer's offsets are the markers substituted |
| ParamText.RemoveBraces | driver/parse.cc:983-1033 | blanks the two braces of an embraced query and drops their tokens, else changes nothing |
| ParamText.OffsetsSurviveBraces | driver/parse.cc:983-1033 | no marker is touched, moved or added by brace removal |
| ParamText.BuildUnion | driver/execute.cc:1492-1533 | the text executed for a SELECT array is the texts of the sets not ignored, joined by UNION ALL; nothing is executed if the last set is ignored |
| ParamText.UnionSpelled | driver/execute.cc:1520-1533 | every text stands in the executed one, in order, with UNION ALL behind all but the last |
| UniqueKeys.ScanFindsFirstUsable | driver/cursor.cc:207-277 | the scan keeps the full column list of the first unique key lying wholly in the result, or nothing |
| UniqueKeys.FirstUsableIsUsable | driver/cursor.cc:207-277 | something is kept iff a usable unique key exists, and it is the first one's columns |
| UniqueKeys.KeyCursor.CheckUsableUniqueKey | driver/cursor.cc:207-277 | the loop stores what the scan keeps, asks only once, and returns whether there is a key |
| UniqueKeys.TermsAre | driver/cursor.cc:512-551 | the terms are the result columns named like a key column, each once |
| UniqueKeys.CountMeansBijection | driver/cursor.cc:541-549 | comparing counts succeeds iff terms and key columns are in bijection |
| UniqueKeys.KeyCursor.InsertPkFields | driver/cursor.cc:512-551 | gives the terms, or fails when their number is not the key's |
| PositionedRows.AtMostOneMatch | driver/cursor.cc:664-713 | a clause over a unique key without NULLs matches at most one row of a table satisfying the key |
| PositionedRows.ShownIsMatched | driver/cursor.cc:445-504 | the clause matches the cursor row iff the literal made of every key value means that value |
| PositionedRows.KeyDeletesCursorRow | driver/cursor.cc:838-863 | a positioned delete by such a key without NULL removes the cursor row and nothing else |
| PositionedRows.InexactKeySparesCursorRow | driver/cursor.cc:838-863 | with a key value that does not survive, the delete takes another row or none |
| PositionedRows.FoundKeyDeletesCursorRow | driver/cursor.cc:664-713 | from SHOW KEYS rows to the table: with the scanned key, its matched columns and exact values without NULL the delete takes the cursor row only |
| PositionedRows.KeyDeleteSafeExactly | driver/cursor.cc:445-504 | the delete is right in every table iff every key value is found again by its literal, and no key value is NULL or the key is all columns |
| PositionedRows.KeyExactByType | driver/execute.cc:912-1222 | a key is found again iff its text and numbers hold no zero byte, its TIME values survive, its BITs are NULL, and its floating-point values are what is printed of them |
| PositionedRows.ExactIfTime | driver/execute.cc:1064-1111 | a TIME value is found again iff it is not negative, has no fraction and lies within a day, or is midnight in a column with fraction digits |
| PositionedRows.ExactIfBit | driver/execute.cc:1113-1126 | a BIT(1) is found again only if it is NULL |
| PositionedRows.ZeroByteTakesTheOtherRow | driver/cursor.cc:477-488 | with keys 'a' and 'a', zero, 'b' and the cursor on the second, the delete removes the first |
| PositionedRows.NegativeTimeTakesTheOtherRow | driver/execute.cc:1081-1108 | with a TIME key t below zero and its opposite in the table and the cursor on the first, the delete removes the other |
| PositionedRows.BitFindsNoRow | driver/execute.cc:1113-1126 | a clause with a BIT that is not NULL leaves every table as it was |
| PositionedRows.NullKeyIsUnsafe | driver/cursor.cc:477-502 | with a NULL in the key and a column outside it some table loses the wrong row |
| PositionedRows.AppendAllFields | driver/cursor.cc:560-656 | one term for each table column, refused iff counts differ, a column is floating-point or missing, or a TIME literal is refused |
| PositionedRows.AllColumnsMatchCopies | driver/cursor.cc:560-656 | the all-columns clause matches a row iff the literals of the cursor row mean its values |
| PositionedRows.FallbackRemovesOneCopy | driver/cursor.cc:560-713 | with LIMIT 1 exactly one copy of the row the literals mean leaves the table, as a multiset; without such a row nothing does |
| PositionedRows.FallbackSafeExactly | driver/cursor.cc:560-713 | the fallback removes a copy of the cursor row from every table that has it iff each of its values is found again, type by type |
| ClauseText.BuildWhere | driver/cursor.cc:664-713 | the clause is the conditions with AND only between them, limited to one row or to the rowset; none iff a literal is refused |
| ClauseText.AppendTerm | driver/cursor.cc:445-504 | adds an equality with the literal of the value up to its first zero byte, or IS NULL with the equals sign taken back; None for a refused literal |
| ClauseText.InsertParam | driver/execute.cc:912-1222 | writes the literal of a fetched value: converted for TIME, nothing for BIT(1), a bare number for floating-point, else an escaped string, with an introducer for binary |
| ClauseText.EscapeString | driver/utility.cc:2512-2625 | escapes a value byte by byte |
| ClauseText.EscapesSpelled | driver/utility.cc:2541-2600 | which bytes are escaped, and how; every other byte stands for itself |
| ClauseText.CommasGo | driver/execute.cc:1126-1170 | a floating-point literal has no commas, and without them it is the value |
| ClauseText.CLength | driver/cursor.cc:477-488 | the length used is that of the value up to its first zero byte |
| ClauseReading.ClauseSelects | driver/cursor.cc:664-713 | a row is selected by the text of the clause iff it matches the terms: an equality for a value, IS NULL for a NULL, no row at all for a missing literal |
| ClauseReading.ClauseRead | driver/cursor.cc:664-713 | the server reads back the conditions in order and the limit, one row or the size of the rowset; a missing literal makes the clause unreadable |
| ClauseReading.LiteralRead | driver/execute.cc:912-1222 | a literal is read as the value, or the time of day, it was made of |
| ClauseReading.EscapedRead | driver/utility.cc:2512-2625 | an escaped value is read as the value |
| ClauseReading.NameReadExactly | driver/utility.cc:2290-2296 | a quoted name is read back iff there is no backtick in it |
| ClauseReading.RowMeetsExactly | driver/cursor.cc:477-502 | a row meets the condition read iff it meets the term |
| TimeText.TimeExactly | driver/execute.cc:1064-1108 | the literal made of a printed TIME value means that value iff it is not negative and has no fraction, and lies within a day, or is midnight in a column with fraction digits |
| TimeText.WithFraction | driver/utility.cc:2217-2241 | where the column has fraction digits, zero ones make every value midnight |
| TimeText.SignIsDropped | driver/utility.cc:2214-2215 | a negative value within a day becomes the same value without the sign |
| TimeText.PrintedAsLong | driver/utility.cc:2207-2242 | what is read of a printed value: the fraction digits if there are any, else HHMMSS, or the hours alone above 10000 |
| TimeText.StrToTimeAsLong | driver/utility.cc:2207-2242 | the loops and the recursion give the value of the specification, numbers wrapping at 32 bits |
| TimeText.GetFractionalPart | driver/utility.cc:3724-3785 | the fraction is not zero iff one of the up to nine digits behind the first dot is not |
| TimeText.HasFractionSpelled | driver/utility.cc:3724-3785 | the digits that count are at most nine, directly behind the first dot |
| TimeText.ConvertTime | driver/execute.cc:1064-1108 | a fraction or more than 23 hours is refused; else hours, minutes and seconds with two digits each |
| DataAtExec.ExecuteSequence | driver/execute.cc:1466-1490 | SQLExecute with data-at-execution parameters: each is asked for once in increasing order, one execution with what was put, sent as a value or as DEFAULT, and the other parameters as bound, then idle |
| DataAtExec.ExecuteAnswers | driver/execute.cc:1425-1490 | with a parameter and some record at execution SQL_NEED_DATA, or a refusal for more than one set; in all other cases one execution with the records as bound; nothing is executed before |
| DataAtExec.SetPosAnswers | driver/cursor.cc:1567-1605 | with some row descriptor record at execution SQL_NEED_DATA on a copy of it, or a refusal for row 0 of several rows, which changes nothing; in all other cases one execution |
| DataAtExec.SetPosSequence | driver/cursor.cc:1570-1605 | the same for SQLSetPos insert and update, on a copy of the row descriptor that is dropped afterwards |
| DataAtExec.PlayFillsAndExecutes | driver/execute.cc:1657-1732 | from any point of a sequence the rest is asked for in order, filled, and executed exactly once |
| DataAtExec.AskedInOrder | driver/execute.cc:1657-1696 | the parameters asked for are the data-at-execution ones, in increasing order |
| DataAtExec.FilledValues | driver/execute.cc:1844-1888 | each record asked for holds its collected value and is sent as such or as DEFAULT, every other record is unchanged |
| DataAtExec.FilledRecord | driver/execute.cc:1657-1696 | the j-th record asked for is reset, flagged and given the j-th puts |
| DataAtExec.PutsAreCollected | driver/my_stmt.cc:510-540 | a value is the concatenation of the pieces put since the last SQL_NULL_DATA |
| DataAtExec.PutAllIs | driver/execute.cc:1844-1888 | putting changes the value of the parameter asked for and nothing else |
| DataAtExec.RefusedExactly | driver/execute.cc:1775-1842 | over every run of calls SQLParamData is refused iff the answers so far leave no sequence open, a refusal changes nothing, and every operation answered as done has been executed once |
| DataAtExec.SentExactly | driver/execute.cc:870-878 | the value put is what is executed iff the record has ever held a byte, or an insert by SQLSetPos finds it flagged with a C type of its own; else DEFAULT |
| DataAtExec.EmptyPutDependsOnThePast | driver/execute.cc:870-878 | an empty piece or a lone SQL_NULL_DATA executes DEFAULT on a fresh record and an empty value on one that held bytes |
| DataAtExec.PutsHold | driver/utility.cc:3886-3898 | the buffer is allocated once a byte has been put, and SQL_NULL_DATA takes the flag away |
| DataAtExec.EarlyPutIsLost | driver/execute.cc:1844-1888 | a piece put before the first SQLParamData is refused, or changes no data-at-execution record |
| DataAtExec.NullOnlyEmpties | driver/execute.cc:1881-1885 | SQL_NULL_DATA empties the value and later pieces fill it again |
| DataAtExec.Statement.FindAtExec | driver/desc.cc:264-281 | finds the first data-at-execution record from a position on |
| DataAtExec.Statement.SQLExecute | driver/execute.cc:1466-1490 | starts a sequence, refuses an array, or executes at once, as the specification step |
| DataAtExec.Statement.SQLSetPos | driver/cursor.cc:1570-1605 | starts a sequence on a copy of the row descriptor, refuses a whole rowset, or executes at once |
| DataAtExec.Statement.SQLParamData | driver/execute.cc:1775-1842 | names the next parameter, or executes and ends the sequence |
| DataAtExec.Statement.SQLPutData | driver/execute.cc:1844-1888 | appends to, or empties, the record in front of the current one, or is refused when there is none |
| ParamArrays.ExecuteSets | driver/execute.cc:1429-1622 | every set ends UNUSED, SUCCESS, WITH_INFO, ERROR (the last failure only) or DIAG_UNAVAILABLE; all sets are counted; SQL_ERROR iff none executed with SQL_SUCCESS, SQL_SUCCESS iff one did and all were flawless |
| ParamArrays.StatusesSpelled | driver/execute.cc:1429-1622 | UNUSED iff ignored, SUCCESS and WITH_INFO iff bound and executed like that before the connection is gone, ERROR iff the last to fail |
| ParamArrays.ReturnCodeSpelled | driver/execute.cc:1590-1622 | the two conditions of the return code in terms of what each set answered |
| ParamArrays.OneErrorForTheLastFailure | driver/execute.cc:1584-1589 | there is one ERROR status iff a set failed, and it is on the last failing set |
| ParamArrays.MapError | driver/execute.cc:1297-1319 | writes the status of one set and tells an entered error |
| BulkInsert.BatchInsert | driver/cursor.cc:1350-1492 | every statement sent is the base INSERT with the tuples of one range, the ranges adjoin from row 0, together the tuple lists are that of all rows sent, and on success these are all rows; each ends where the buffer is full, and nothing is sent behind a failure |
| BulkInsert.SentJoins | driver/cursor.cc:1350-1492 | the tuple lists of the statements sent join to the list of the rows up to the last cut |
| BulkInsert.BuildStatement | driver/cursor.cc:1383-1458 | one statement takes at least one row, has commas between tuples only, and ends behind the first row that fills the buffer, or with the last |
| BulkInsert.EveryRowOnce | driver/cursor.cc:1350-1492 | every row sent lies in exactly one statement's range |
| BulkInsert.TuplesJoin | driver/cursor.cc:1383-1458 | tuple lists of adjoining ranges join to the list of the whole range |
| BulkInsert.TuplesSpelled | driver/cursor.cc:1383-1458 | each row stands in parentheses at its place, with a comma behind all but the last |
| RowStorage.Storage.SetSize | driver/catalog.cc:89-112 | resizes the storage, keeps the rows that fit if the row width stays and the first cells in any case, and pulls the current row back inside |
| RowStorage.Storage.Invalidate | driver/driver.h:856-863 | clears the storage and says whether it held rows |
| RowStorage.Storage.NextRow | driver/catalog.cc:114-125 | steps to the next row, adding one when too few follow, and keeps all rows |
| RowStorage.Storage.SetData | driver/driver.h:873-893 | writes the current row and no other; a NULL there stays, so the row stored is the row given iff no value goes over a NULL |
| RowStorage.AssignedExactly | driver/driver.h:755-790 | assigning a row gives that row iff no value goes over a NULL |
| RowStorage.Storage.WriteRow | driver/catalog.cc:134-143 | writing every cell through operator[] makes the current row the row given |
| RowStorage.Storage.FillData | driver/driver.h:896-918 | delivers the first unread row and leaves the rest unread, or delivers nothing |
| RowStorage.Storage.WriteRows | driver/info.cc:1117-1132 | k rows written each followed by next_row are the first k rows, with the current row in bounds |
| RowStorage.RowReplaced | driver/driver.h:873-893 | overwriting the cells of one row of the flat vector changes that row only |
| RowStorage.RowsResized | driver/catalog.cc:89-112 | resizing the flat vector keeps the rows that fit |
| Lookahead.Statement.FetchRow | driver/my_stmt.cc:203-243 | takes the first of the stored rows followed by the server's rows, or of the server's when told to read past the storage |
| Lookahead.Statement.GetResult | driver/my_prepared_stmt.cc:250-300 | stores two rows ahead when there are two; what will be delivered is the server's rows with the first assigned over the cells left in the storage, or the rows left there if the server has none |
| Lookahead.Statement.ResultExactly | driver/my_prepared_stmt.cc:275-285 | the server's rows are delivered iff no value of the first goes over a NULL left in the storage |
| Lookahead.Statement.FetchAll | driver/my_stmt.cc:203-243 | fetching to the end delivers every pending row once, in order |
| Lookahead.ReadResult | driver/my_prepared_stmt.cc:250-300 | looking ahead and fetching to the end gives exactly the server's rows |
| Lookahead.ReadNextResult | driver/execute.cc:1536-1545 | a second result read without a reset is delivered iff its first row has a NULL wherever the first row before it had one; with no rows in it, rows of the first are delivered |
| Conversions.Ll2Str | mysql_strings/int2str.cc:64-91 | writes the numeral and a NUL in place and nothing else, for every 64-bit value; a bad radix writes nothing |
| Conversions.PutDigits | mysql_strings/int2str.cc:80-85 | fills the 65 places from the end with the numeral, never running out |
| Conversions.TextDecodes | mysql_strings/int2str.cc:64-91 | the text decodes to the value, signed for negative radixes and unsigned for positive ones, with at most 64 digits |
| Conversions.NumeralOfValue | mysql_strings/int2str.cc:80-85 | a numeral without leading zeros is the only one with its value |
| Conversions.NumeralIsNumeral | mysql_strings/int2str.cc:80-85 | the digits written are digits of the radix and case, without leading zeros |
| Conversions.DigitsOfTables | mysql_strings/int2str.cc:44-45 | the digits are those of the two tables |
| Conversions.Numeric2Binary | driver/my_prepared_stmt.cc:66-78 | writes the low bytes in place, most significant first, and nothing else |
| Conversions.Binary2Numeric | driver/my_prepared_stmt.cc:1401-1417 | reads up to eight bytes as the number they stand for, wrapped to the signed or unsigned type |
| Conversions.FromToBytes | driver/my_prepared_stmt.cc:66-78 | the n bytes written stand for the value modulo 256^n |
| Conversions.ToFromBytes | driver/my_prepared_stmt.cc:1401-1417 | bytes read and written again are the same bytes |
| Conversions.FirstByteCountsMost | driver/my_prepared_stmt.cc:1401-1417 | the first byte counts most |
| Conversions.BytesReadBack | driver/my_prepared_stmt.cc:1401-1427 | binary2ull gives the value modulo 256^n; binary2ll gives the value iff n is 8 or the value is in 0 .. 256^n - 1 |

## Left out

- FetchEngine.Run: rows_found_in_set and offsets are unbounded integers; overflow of huge offsets or of the 32-bit count is not modelled.
- FetchEngine.Statement.WhereValues: WHERE CURRENT OF, which goes for the first row without a check of the rowset, is not modelled, nor are columns ignored in an update; the values are those of a text-protocol result.
- ScrolledFetch.RunScrolled: the result is assumed shorter than 2^63 - 2^33 rows, so that offsets do not wrap.
- ScrolledFetch.Statement.Fetch: only NEXT through the scroller, with rows that convert without error. The server fails a request only for the text the driver has damaged; a request that fails for another reason ends the rowset in the same way, and a later fetch would skip its window.
- ScrolledFetch.Statement.Execute: a damaged suffix that the server takes is read as the same query, and the LIMIT clause found is one that cuts the result, as it does at the end of a query.
- LimitScroller.Scroller.constructor: the clause is taken as found, so the rows of ScrolledFetch.RunScrolled are those of the clause found; how the word LIMIT or a locking clause is searched for is not modelled.
- LimitNumbers.GetLimitNumbers: numbers have at most 29 digits, as the buffer of the source requires, and fit 63 bits.
- ScrolledFetch.Statement.constructor: PREFETCH 0 (no scroller) runs the plain query and has nothing to prove; whether a query is scrollable is not modelled.
- Tokenizer.Parser.Tokenize: the character set is a function giving class and byte count; lexically meaningful bytes are taken not to be white space or control characters.
- Tokenizer.Parser.Tokenize: the token list is only proved in range; query type detection is not modelled.
- ParamText.InsertParams: literals are given; how values are converted and escaped is not modelled, nor is the server-side binding path.
- ParamText.BuildUnion: sets whose binding fails leave their text in the buffer; the text built from the sets behind them is not stated.
- UniqueKeys.ScanFindsFirstUsable: names are compared after case folding, so names in the model are folded; keys have at most 32 parts.
- PositionedRows.KeyDeleteSafeExactly: apart from TIME, the server takes a literal for the value with the same text; how it prints floating-point values is a parameter, into which locale separators fall too. A DATE prints no time of day, so the check that refuses one is not modelled, nor is the NO_BACKSLASH_ESCAPES mode.
- TimeText.StrToTimeAsLong: a text without digits leaves the result unset in the source and gives 0 here; no TIME value is printed like that.
- ClauseText.BuildWhere: the WHERE values of server-side prepared results are not modelled; binary values are not written as hexadecimal, as they are in the NO_BACKSLASH_ESCAPES mode.
- ClauseText.EscapeString: character sets with bytes below 128 inside longer characters (GBK, SJIS) are not modelled.
- ClauseReading.ClauseSelects: the server's reading of names, strings and numbers is written down from MySQL's rules, with single blanks as the driver writes them; names are without a backtick, and floating-point values are printed as numbers.
- QueryLexemes.RecordsTheMarkers: a byte below 128 is taken to be a character of its own where one begins.
- PositionedRows.KeyDeletesCursorRow: collations and concurrent writers between SHOW KEYS and the delete are not modelled.
- DataAtExec.Statement.SQLSetPos: the checks of SQLSetPos before data-at-execution and the operation itself are one logged execution.
- DataAtExec.Statement.SQLPutData: without a descriptor the source follows a null pointer, so one is required; bookmarks are off, so there is no record before the first. A NULL pointer with a length, other negative lengths and output streams are not modelled.
- DataAtExec.SentExactly: how a value is converted to a literal is not modelled.
- FetchEngine.Statement.ExtendedFetch: a connection lost during the fetch (which marks the slots behind the fetched rows as errors), the second status array, output-parameter rows and results the catalogue functions keep in an array are not modelled.
- DataAtExec.Statement.SQLParamData: a failure of the postponed operation itself is not modelled.
- ParamArrays.ExecuteSets: a statement without parameters, which counts no sets, is not modelled.
- ParamArrays.ExecuteSets: arrays with a result or with data-at-execution parameters end elsewhere and are not modelled here.
- BulkInsert.BatchInsert: the tuple texts and the length of the transmission buffer are given; a value that fails to convert, which ends the call with SQL_ERROR, is not modelled.
- Lookahead.Statement.GetResult: bind buffers are wide enough for every value; output parameters and truncation are not modelled.
- RowStorage.Storage.WriteRows: the values of the rows are given; the catalogue loops that skip the step after the last row are not modelled separately.
- Conversions.Binary2Numeric: for more than eight bytes the loop of the source never ends, so at most eight are required.
- Dynamic cursors, fetches by bookmark value, single-row fetches outside the rowset loop, and the cursor without a cache except for its lookahead.
- Agreement between the two lexers and idempotence of the rewriter, which do not hold.
- Connection setup, TLS, locks, logging, catalogue SQL text, type and SQLSTATE tables, date, floating-point and locale conversions.
