# Tool Crate core tools, modelled in Dafny

Tool Crate is a Laravel package that exposes developer tools to an MCP
client. This project models six of its tools, each in one module:

- `TableQuery` (table.query) loads a CSV/TSV file into an in-memory SQLite
  table and runs a query against it. It models the delimiter choice, column
  sanitizing, the CREATE/INSERT statements, the load loop with its
  `max_rows` cap, and the output loop with its `limit_output` cap. The table
  store is a class, `MemoryDb`, whose methods update its tables and its
  statement log.
- `DbQuery` (db_query) is a read-only guard in front of a Laravel
  connection. It models the `select`-only keyword guard, the LIMIT
  rewriter, the connection fallback and the response fields.
- `TextSearch` (text.search) is a grep over inline text and then over
  files. It models the line split, the match records with their context
  windows, and the shared match list with its early return at
  `max_matches`.
- `TextReplace` (text.replace) does a regex or literal replacement with a
  unified-diff preview. It models the diff writer, proves that both texts
  can be read back from a preview, and models the `changed` flag.
- `FileRead` (file.read) is a capped file read with PHP 8 `substr`
  slicing.
- `HelpIndex` (help.index) lists the recommended tools and the tool
  categories.

Two shared modules hold the generic pieces: `Common` (Option, Result, the
cell type, and the "keep at least one" cap `Capped`) and `Strings`
(`explode`/`implode`, run-collapsing replacement, `strtolower`, `trim`,
substring search, and decimal rendering).

Everything outside the PHP code is a function parameter:

- the CSV reader;
- the SQLite and Laravel query engines;
- PCRE matching and replacement;
- `preg_quote`;
- the file walk and the file system;
- the tool registry and the configuration.

Every `foreach`, `for` and `while` loop the model covers is a method with
a loop, proved against a specification function; the properties are
proved about those functions. Built-ins that only compute a value
(`array_map`, `array_filter`, `explode`, `preg_replace`, `trim`) are
functions.

## Model

| member | source | states |
|---|---|---|
| Common.Capped | src/Tools/TableQueryTool.php:87-92 | an output loop that appends first and stops once the count reaches the cap keeps an in-order prefix of at most max(cap,1) items: everything when it fits, exactly `cap` items when 1 <= cap <= length, and at least one item from non-empty input |
| Strings.Split | src/Tools/TextReplaceTool.php:56-57 | `explode` on a one-character delimiter gives at least one piece, and no piece contains the delimiter |
| Strings.SplitCount | src/Tools/TextReplaceTool.php:56-57 | `explode` gives exactly one piece more than there are delimiter occurrences |
| Strings.JoinSplit | src/Tools/TextReplaceTool.php:56-57 | `implode` of the `explode` pieces with the same delimiter gives the text back |
| Strings.SplitJoin | src/Tools/TextReplaceTool.php:64 | splitting pieces that were joined with a delimiter none of them contains gives the pieces back |
| Strings.ReplaceRuns | src/Tools/DbQueryTool.php:91 | replacing every maximal run of matching characters by one character never lengthens the text, empties only empty text, and leaves no matching character other than the replacement |
| Strings.ReplaceRunsWholeRun | src/Tools/TableQueryTool.php:122 | a non-empty run of matching characters becomes exactly one replacement character |
| Strings.ReplaceRunsOutside | src/Tools/TableQueryTool.php:122 | text with no matching character is unchanged |
| Strings.ReplaceRunsAppend | src/Tools/TableQueryTool.php:122 | the replacement works piece by piece when the pieces meet at a non-matching character |
| Strings.ReplaceRunsNoAdjacent | src/Tools/DbQueryTool.php:91 | when the replacement itself matches, no two matching characters are left next to each other: every run has collapsed |
| Strings.LowerCase | src/Tools/TableQueryTool.php:122 | after `strtolower` no uppercase ASCII letter is left; a character changes only when it is an uppercase letter, and then to its lowercase partner; every uppercase letter changes; lowering twice equals lowering once |
| Strings.TrimLeft | src/Tools/DbQueryTool.php:92 | `ltrim` drops exactly the leading characters from the set |
| Strings.TrimRight | src/Tools/DbQueryTool.php:118 | `rtrim` drops exactly the trailing characters from the set |
| Strings.TrimSlice | src/Tools/DbQueryTool.php:92 | `trim` gives the slice of the text that starts after the leading trimmed characters, and it neither starts nor ends with a trimmed character |
| Strings.TrimKeepsInner | src/Tools/DbQueryTool.php:92 | trimming never removes a word that sits inside the text |
| Strings.NatToString | src/Tools/TableQueryTool.php:58 | PHP's integer-to-string conversion of a non-negative number is a non-empty string of digits with no leading zero: 0 renders as `0`, and no other number starts with `0` |
| Strings.ParseNatToString | src/Tools/TextReplaceTool.php:61 | reading the rendered digits back gives the number |
| Strings.NatToStringInjective | src/Tools/TableQueryTool.php:58 | different numbers render differently |
| DbQuery.IsSafeQuery | src/Tools/DbQueryTool.php:89-108 | no contract of its own: the predicate reads "the inspection copy starts with `select` and contains no denylisted keyword"; CheckSafe is the loop proved equal to it, and the lemmas below state what it accepts and rejects |
| DbQuery.Normalize | src/Tools/DbQueryTool.php:91-92 | no contract of its own; NormalizeShape states what the inspection copy looks like |
| DbQuery.NormalizeShape | src/Tools/DbQueryTool.php:91-92 | the inspection copy has no uppercase letter, every blank in it is a plain space, no two spaces are adjacent, and it neither starts nor ends with a space |
| DbQuery.CheckSafe | src/Tools/DbQueryTool.php:89-108 | the method (the prefix test, then the keyword loop) answers true exactly when IsSafeQuery holds |
| DbQuery.FindKeyword | src/Tools/DbQueryTool.php:101-105 | the keyword loop returns true exactly when some keyword of the list occurs in the text, stopping at the first one |
| DbQuery.DenylistedWordRejected | src/Tools/DbQueryTool.php:100-105 | any query that contains a denylisted keyword in any letter case is rejected, even inside a longer identifier |
| DbQuery.ExampleUpdatedAtColumn | src/Tools/DbQueryTool.php:100-105 | `select updated_at from t` is rejected by the plain substring check |
| DbQuery.ExampleStackedDrop | src/Tools/DbQueryTool.php:89-108 | `SELECT 1; DROP TABLE t` is rejected |
| DbQuery.ExampleDelete | src/Tools/DbQueryTool.php:95-97 | `DELETE FROM t` is rejected; the proof goes through the denylisted keyword `delete` that the inspection copy contains (it also fails the `select` prefix test) |
| DbQuery.ExampleSelectOne | src/Tools/DbQueryTool.php:89-119 | `SELECT 1` is accepted by the guard, and the rewriter with limit 100 turns it into `SELECT 1 LIMIT 100` |
| DbQuery.ExampleLimitKept | src/Tools/DbQueryTool.php:113-115 | `select * from t limit 10` already has a LIMIT clause, so the rewriter with limit 500 returns it unchanged |
| DbQuery.AddLimit | src/Tools/DbQueryTool.php:110-119 | a query with a word-bounded case-insensitive `LIMIT <digits>` is returned unchanged; any other query keeps its text up to its trailing `;`/space characters, followed by ` LIMIT <limit>` |
| DbQuery.AddLimitIdempotent | src/Tools/DbQueryTool.php:113-118 | for a non-negative limit, the rewritten query has a LIMIT clause, so rewriting again changes nothing: there is never a second LIMIT |
| DbQuery.ExampleTrimAndLimit | src/Tools/DbQueryTool.php:40 | `"  select * from users  "` with limit 500 becomes `select * from users LIMIT 500` |
| DbQuery.BindingsOf | src/Tools/DbQueryTool.php:67 | no contract of its own: bindings that are a list pass as they are, anything else becomes no bindings; DbQuery.Handle states where they go |
| DbQuery.Handle | src/Tools/DbQueryTool.php:38-87 | an unsafe trimmed query fails before any context or connection use; without a Laravel context the tool fails next; otherwise the engine receives the resolved connection (the configured default for the name `default`, any other name as it is), the rewritten query and the bindings; an engine failure becomes `Query failed: ` plus the message; on success `count` is the number of rows, `limited` holds iff count >= limit, and `columns` are the first row's keys (`Keys`: its column names, in order), or empty when there are no rows |
| TableQuery.FirstLine | src/Tools/TableQueryTool.php:111 | the inspected line is a prefix of the file of at most 4095 bytes (one character per byte in the model) that stops at the first newline, keeping it |
| TableQuery.AutoDelimiter | src/Tools/TableQueryTool.php:113-115 | `auto` picks the character with the greatest count among comma, tab and semicolon; ties go to comma, then tab, as `arsort` keeps equal counts in insertion order |
| TableQuery.AutoDelimiterDefault | src/Tools/TableQueryTool.php:113-115 | a line with none of the three characters (an empty or unreadable first line included) gives a comma |
| TableQuery.ResolveDelimiter | src/Tools/TableQueryTool.php:104-118 | `csv` gives a comma, `tsv` gives a tab, and any other string is used as is; `auto` gives one of the three characters with the greatest count, a character other than the comma only when it strictly beats the comma, and the semicolon only when it also strictly beats the tab |
| TableQuery.SanitizeColumn | src/Tools/TableQueryTool.php:120-124 | a column name uses only `[a-z0-9_]` and is never empty; empty input gives `col`, other input its lowercased run-collapsed form |
| TableQuery.SanitizeFallbackOnlyForEmpty | src/Tools/TableQueryTool.php:122-123 | the `col` fallback fires exactly when the input is empty |
| TableQuery.SanitizeIdempotent | src/Tools/TableQueryTool.php:120-124 | sanitizing twice equals sanitizing once |
| TableQuery.SanitizeRun | src/Tools/TableQueryTool.php:122 | each maximal run of disallowed characters becomes one `_` between the sanitized text on either side |
| TableQuery.SanitizeWord | src/Tools/TableQueryTool.php:122 | a name made only of word characters is just lowercased |
| TableQuery.HeaderColumns | src/Tools/TableQueryTool.php:56 | one column name per header cell, each a valid sanitized name |
| TableQuery.PositionalColumns | src/Tools/TableQueryTool.php:58 | exactly n column names, each a valid sanitized name |
| TableQuery.SanitizeHeader | src/Tools/TableQueryTool.php:56 | the header loop yields exactly HeaderColumns of the record |
| TableQuery.NumberColumns | src/Tools/TableQueryTool.php:58 | the positional loop yields exactly PositionalColumns of the record's width |
| TableQuery.PositionalColumnsWellFormed | src/Tools/TableQueryTool.php:58 | the names `c1..cN` are pairwise distinct and already sanitized |
| TableQuery.ColumnsAreColumnNames | src/Tools/TableQueryTool.php:54-58 | every column name, from a header or positional, is a sanitized name without a comma |
| TableQuery.CreateSql | src/Tools/TableQueryTool.php:128-129 | no contract of its own; CreateSqlColumns states its shape |
| TableQuery.CreateSqlColumns | src/Tools/TableQueryTool.php:129 | the CREATE statement is `CREATE TABLE IF NOT EXISTS "<table>" (` plus a list that splits at commas back into the column definitions (one `"<c>" TEXT` per column, in column order), plus `)` |
| TableQuery.PlaceholdersCount | src/Tools/TableQueryTool.php:137 | the INSERT has exactly one `?` placeholder per column |
| TableQuery.InsertSql | src/Tools/TableQueryTool.php:137-138 | no contract of its own; PlaceholdersCount states its VALUES list and MemoryDb.Insert logs it |
| TableQuery.Fit | src/Tools/TableQueryTool.php:136 | every inserted row has exactly one value per column: the record's fields, padded with NULL or truncated |
| TableQuery.FitPrefix | src/Tools/TableQueryTool.php:136 | fields past the column count are dropped |
| TableQuery.MemoryDb.constructor | src/Tools/TableQueryTool.php:46 | the in-memory database starts with no tables and no statements |
| TableQuery.MemoryDb.Create | src/Tools/TableQueryTool.php:126-131 | CREATE TABLE IF NOT EXISTS: logs the statement, adds an empty table with the columns, and leaves an existing table alone |
| TableQuery.MemoryDb.Insert | src/Tools/TableQueryTool.php:133-141 | logs the INSERT and appends the fitted record to the named table, with no other change |
| TableQuery.InsertedRecords | src/Tools/TableQueryTool.php:53-74 | the inserted records are a contiguous run of the input that starts after the header, or at the first record without one |
| TableQuery.Begin | src/Tools/TableQueryTool.php:54-68 | the first record fixes the columns: with a header it names them and is not inserted; without one the columns are `c1..cN` and it is inserted as data |
| TableQuery.Load | src/Tools/TableQueryTool.php:49-74 | after the load loop the columns are fixed by the first record, `loaded_rows` is the number of inserted rows, the database holds exactly the fitted inserted rows, and its log is one CREATE followed by one INSERT per row |
| TableQuery.LoadedCount | src/Tools/TableQueryTool.php:53-73 | no contract of its own; Load proves the loop's `loaded_rows` equal to it and LoadedCountBounds bounds it |
| TableQuery.LoadedCountBounds | src/Tools/TableQueryTool.php:59-73 | `loaded_rows` is at most max(max_rows,1) with a header and max(max_rows,2) without one, because the first data row skips the cap check; when the data fits under the cap, all of it is loaded |
| TableQuery.LoadedRowsFitColumns | src/Tools/TableQueryTool.php:136 | every stored row has exactly as many values as the table has columns |
| TableQuery.Shape | src/Tools/TableQueryTool.php:81-93 | each column label is the metadata name, or `col<i+1>` when it is missing; the rows are the in-order prefix of the result with at most max(limit_output,1) rows |
| TableQuery.Handle | src/Tools/TableQueryTool.php:31-102 | a missing file gives `File not found: <file>` and an unreadable one `Unable to open: <file>`; a readable file whose resolved delimiter is not exactly one byte in UTF-8 ends in fgetcsv's ValueError, and exactly then; otherwise the response reports the table, the resolved delimiter, the loaded row count, one label per result column (its metadata name, or `col<i+1>`) and the capped query rows, or no columns and rows when the query yields no statement |
| TableQuery.OnlyRawDelimiterThrows | src/Tools/TableQueryTool.php:104-118 | only a delimiter passed through as written can be refused: `csv`, `tsv` and `auto` always resolve to one byte, and a refused delimiter is not a single ASCII character |
| TableQuery.Utf8Length | src/Tools/TableQueryTool.php:53 | the byte length that fgetcsv checks lies between the character count and four times it |
| TableQuery.SingleByte | src/Tools/TableQueryTool.php:53 | a text is one byte long exactly when it is one ASCII character |
| TableQuery.SectionSignRefused | src/Tools/TableQueryTool.php:53 | the delimiter `§` is one character but two bytes, so fgetcsv refuses it |
| TextSearch.DropCR | src/Tools/TextSearchTool.php:50 | a piece keeps a prefix of itself and loses one character exactly when it ends with a carriage return |
| TextSearch.SplitLines | src/Tools/TextSearchTool.php:50 | no contract of its own; SplitLinesShape, SplitLinesRoundTrip and SplitLinesCRLF state what it does |
| TextSearch.SplitLinesShape | src/Tools/TextSearchTool.php:50 | there is one line more than there are newlines, and no line holds a newline |
| TextSearch.SplitLinesRoundTrip | src/Tools/TextSearchTool.php:50 | for text without carriage returns, joining the lines with newlines gives the text back |
| TextSearch.SplitLinesCRLF | src/Tools/TextSearchTool.php:50 | lines free of carriage returns and newlines, joined with `\r\n`, split back into exactly those lines |
| TextSearch.ContextWindows | src/Tools/TextSearchTool.php:58-59 | a context count of 0 or less gives no lines; otherwise at most that many lines, from max(0, i-before) for the before window and from right after the match for the after window |
| TextSearch.BeforeIsPreceding | src/Tools/TextSearchTool.php:58 | away from the top, the before window is exactly the lines preceding the match |
| TextSearch.BeforeNearTopHoldsMatch | src/Tools/TextSearchTool.php:58 | near the top the before window is the first `before` lines, so it contains the matched line itself |
| TextSearch.MatchesSound | src/Tools/TextSearchTool.php:52-60 | every record is for a matching line: line = index+1, col = 1, its text and its context windows |
| TextSearch.MatchesComplete | src/Tools/TextSearchTool.php:51-52 | every matching line has its record |
| TextSearch.MatchesAscending | src/Tools/TextSearchTool.php:51-63 | line numbers strictly ascend within one source |
| TextSearch.MatchesFile | src/Tools/TextSearchTool.php:54 | every record of a source carries that source's file field and column 1 |
| TextSearch.InlineBeforeFiles | src/Tools/TextSearchTool.php:49-94 | inline records come before file records: once a record names a file, every later one does too |
| TextSearch.SourceScanCapped | src/Tools/TextSearchTool.php:51-63 | scanning one source extends the shared list to the capped concatenation, and it stops early exactly when the cap is reached |
| TextSearch.FilesScanCapped | src/Tools/TextSearchTool.php:76-93 | scanning the files in walk order, skipping unreadable ones, gives the capped concatenation of their records |
| TextSearch.ScanSource | src/Tools/TextSearchTool.php:51-63 | the inner loop appends each matching line's record and returns as soon as the list is full; the list is the capped concatenation |
| TextSearch.ScanFiles | src/Tools/TextSearchTool.php:76-93 | the file loop's list is the capped concatenation of the earlier records and every readable file's records |
| TextSearch.Search | src/Tools/TextSearchTool.php:46-96 | the returned list is the in-order prefix, with at most max(max_matches,1) records, of all inline records followed by all file records |
| TextSearch.Regex | src/Tools/TextSearchTool.php:43-44 | the pattern is `/`, then the pattern itself (or its `preg_quote` escape for a fixed search), then `/`, then `i` exactly when case is ignored |
| TextSearch.Handle | src/Tools/TextSearchTool.php:34-97 | the tool answers the capped list of all records for the compiled pattern |
| TextReplace.DiffLines | src/Tools/TextReplaceTool.php:56-63 | the preview is `--- a/<file>`, `+++ b/<file>`, the hunk header with both line counts (each at least 1), every old line marked `-`, then every new line marked `+`: 3+nb+na lines |
| TextReplace.DiffText | src/Tools/TextReplaceTool.php:64 | the preview ends with a newline |
| TextReplace.UnifiedDiff | src/Tools/TextReplaceTool.php:54-65 | the two loops build exactly that preview text |
| TextReplace.HunkCountsRoundTrip | src/Tools/TextReplaceTool.php:61 | the hunk header's counts can be read back from it |
| TextReplace.DiffTextSplit | src/Tools/TextReplaceTool.php:64 | the preview text splits back into its lines when the file label has no newline |
| TextReplace.DiffRoundTrip | src/Tools/TextReplaceTool.php:54-65 | the preview is lossless: the old and the new text can both be recovered from it |
| TextReplace.ModifiersAfterDelimiter | src/Tools/TextReplaceTool.php:40-42 | the modifiers of a built pattern are exactly the flags after the closing slash |
| TextReplace.Delimited | src/Tools/TextReplaceTool.php:39-43 | the pattern starts with a slash, and its modifiers are the flags that were asked for |
| TextReplace.GlobalNeverReplaces | src/Tools/TextReplaceTool.php:38-44 | as written, a global replace never changes the text, because `g` is not a PCRE modifier and the engine's null falls back to the input |
| TextReplace.UpdatedAsWritten | src/Tools/TextReplaceTool.php:38-44 | as written, the pattern's modifiers are exactly the written flags, with `g` among them iff `global`; the text is preg_replace's answer with no limit (every match), or the input when it answers null |
| TextReplace.Flags | src/Tools/TextReplaceTool.php:38 | the corrected modifiers are valid PCRE modifiers, hold no slash, and include `i` exactly when case is ignored |
| TextReplace.Updated | src/Tools/TextReplaceTool.php:38-44 | the pattern's modifiers are valid and are exactly the corrected flags; the updated text is preg_replace's answer with no limit (every match, as the code passes none), or the input when it answers null |
| TextReplace.AgreeWithoutGlobal | src/Tools/TextReplaceTool.php:38-44 | without `global` the corrected and the written replacement agree, for every engine |
| TextReplace.UpdatedIgnoresGlobal | src/Tools/TextReplaceTool.php:35-44 | the corrected replacement gives the same text with and without `global`: as in the code, the flag never reaches preg_replace's limit |
| TextReplace.Respond | src/Tools/TextReplaceTool.php:45-51 | the response carries the updated text; `changed` holds iff it differs from the input; the preview diffs the input against it, and both can be read back from the preview |
| TextReplace.HandleAsWritten | src/Tools/TextReplaceTool.php:29-52 | handle as written: the updated text is UpdatedAsWritten, with the response built as in Respond; for a global request and an engine that refuses unknown modifiers, the text comes back unchanged and `changed` is false |
| TextReplace.Handle | src/Tools/TextReplaceTool.php:29-52 | handle with the corrected pattern (see Findings): the updated text is Updated; `changed` holds iff it differs from the input; the preview diffs the input against it, and both can be read back from it |
| FileRead.SubstrRange | src/Tools/FileReadTool.php:46 | PHP 8 `substr` keeps a range inside the string; `[start, end)` for an in-range start and length, and from start to the end with no length |
| FileRead.ReadBytes | src/Tools/FileReadTool.php:39-40 | exactly the first max(0, min(size, max_bytes)) bytes are read |
| FileRead.ReadAsWritten | src/Tools/FileReadTool.php:27-55 | no contract of its own: handle as written, which throws when the length passed to fread is 0 or less; EmptyFileThrows, ReadAgreesWhenAnswered and ReadAsWrittenThrowsOnlyOnEmptyRead state how it relates to Read |
| FileRead.EmptyFileThrows | src/Tools/FileReadTool.php:39-40 | as written, an existing empty file ends in fread's ValueError instead of an answer |
| FileRead.Read | src/Tools/FileReadTool.php:27-55 | a non-file gives `File not found: <path>` and a failed open gives `Unable to open file: <path>`; a readable file always gets an answer; `size` is the full file size; `truncated` holds iff size > max_bytes; the content is a slice of the bytes read; with start <= 0 and no end it is all of them; with an in-range start and no end it is everything from start; with 0 <= start <= end <= bytes read it is bytes `[start, end)` |
| FileRead.ReadAgreesWhenAnswered | src/Tools/FileReadTool.php:39-40 | wherever the code as written answers, the corrected read gives the same answer |
| FileRead.ReadAsWrittenThrowsOnlyOnEmptyRead | src/Tools/FileReadTool.php:39-40 | as written, the tool throws exactly for a readable file with min(size, max_bytes) <= 0 |
| HelpIndex.Known | src/Tools/HelpIndexTool.php:34 | the priority filter keeps only names the registry knows, and no more names than configured |
| HelpIndex.KnownAppend | src/Tools/HelpIndexTool.php:34 | the filter works piece by piece, so it keeps the configured order |
| HelpIndex.KnownComplete | src/Tools/HelpIndexTool.php:34 | a configured name survives the filter iff the registry knows it |
| HelpIndex.Recommended | src/Tools/HelpIndexTool.php:35-40 | `recommended` has min(number of known priority tools, max(limit,0)) entries |
| HelpIndex.Recommend | src/Tools/HelpIndexTool.php:36-40 | the loop yields the summaries of the first min(n, max(limit,0)) known priority names, in order |
| HelpIndex.CategoryTools | src/Tools/HelpIndexTool.php:44-47 | a category's list holds the summaries of its known names, in configured order |
| HelpIndex.Groups | src/Tools/HelpIndexTool.php:42-49 | no contract of its own: each configured category in order, through Group; GroupsAppend and GroupsShape state its properties and Categorize is proved equal to it |
| HelpIndex.Group | src/Tools/HelpIndexTool.php:44-48 | no contract of its own: one category listed with its known tools, or dropped when it has none; GroupsShape states this |
| HelpIndex.GroupsAppend | src/Tools/HelpIndexTool.php:43-49 | categories are listed piece by piece, so in configured order |
| HelpIndex.GroupsShape | src/Tools/HelpIndexTool.php:48 | no listed category is empty, and every configured category with a known tool is listed |
| HelpIndex.Categorize | src/Tools/HelpIndexTool.php:42-49 | the category loop yields exactly the non-empty groups, in configured order |
| HelpIndex.Index | src/Tools/HelpIndexTool.php:25-56 | the tool answers the recommended list, the category groups and the fixed `note` pointing to help.tool |

## Left out

- The SQLite engine and the Laravel connection are parameters. `query` turns the loaded tables and the SQL into an optional result. `select` turns the connection, the SQL and the bindings into rows or an error message. SQL execution, `getColumnMeta` and the exceptions that malformed SQL or duplicate column names raise are not modelled.
- TableQuery.MemoryDb.Insert: requires that the table exists with exactly these columns. The load loop always meets this; the SQLite error for any other call is not modelled.
- `fgetcsv` is the parameter `parse`, which turns the file content and the delimiter into records. Quoting, escaping, and the `[null]` record of a blank line are left to it.
- The first-line read of `resolveDelimiter` is modelled on the file content. A second `fopen` that fails where the first succeeded is not modelled.
- PCRE is a parameter: `pregMatch` for text.search and `replace` for text.replace, along with `quote` for `preg_quote`. TextReplace.Modifiers takes the characters after the last slash as the modifiers. PCRE instead ends the pattern at the first unescaped delimiter, so a user pattern containing a slash is left to the engine.
- The Finder walk of text.search is given as the list of files it yields, each with its reported name and its contents or none when unreadable. Include/exclude globs, dot-file skipping and path relativisation are not modelled, nor the exception `$finder->in($paths)` (TextSearchTool.php:70) throws for a path that is not a directory.
- The file system of file.read is a parameter: `is_file`, whether `fopen` succeeds, and the file's bytes. `filesize` returning false and short reads are not modelled.
- help.index takes the registry summaries, the priority list and the categories as parameters. `ToolRegistry::summarize`, the reflection on the server class and `config()` are not modelled.
- TableQuery.FirstLine: one `char` stands for one byte. table.query works on characters throughout (file content, records, column names); only the separator check in TableQuery.Handle counts UTF-8 bytes. `fgets($fh, 4096)` counts bytes, so a first line with multi-byte UTF-8 characters is cut at a different character position than the model's 4095 characters, and `substr_count` is taken per character.
- Strings.LowerCase: follows `strtolower` of PHP 8.2 and later, which changes only ASCII letters; earlier versions use the C locale's case table.
- PHP integers are 64-bit; the model uses unbounded integers, so overflow in `end - start` or `$i + 1` is not modelled. The request casts (`(int)`, `(bool)`, `(string)`) are taken as already applied.
- The schema bound of 1..5000 on db_query's `limit` is only declared, not enforced by the handler, and the model does not enforce it either.
- JSON encoding and `Response` construction are not modelled; responses are datatypes carrying the same fields.
- PHP warnings are read as the built-ins' documented return values: a failing `fopen` gives false (the `Unable to open` errors of table.query and file.read), and `preg_replace` with the unknown modifier `g` gives null (the `?? $text` fallback of text.replace). Under Laravel's error handler an E_WARNING becomes an ErrorException, so there the client sees an exception instead of those answers; the model does not capture that handler.
- DbQuery.BindingsOf: bindings are a list of strings. `is_array($bindings)` (DbQueryTool.php:67) also passes named (associative) bindings through, which a `seq<string>` cannot hold; named bindings are not modelled.
- In text.search, an absent `text` field and a null one are the same case (`None`), as the handler treats them.

## Findings

| source | as written | input that shows it | evidently intended | confidence | as-written member | corrected member |
|---|---|---|---|---|---|---|
| src/Tools/FileReadTool.php:39-40 | `fread($fh, min($size, $max))` is called even when that length is 0 or less, and PHP 8 throws a ValueError for it | an existing empty file, or `max_bytes` = 0 | read nothing and answer with empty content | not executed; high (PHP 8 `fread` requires a positive length) | FileRead.EmptyFileThrows | FileRead.Read |
| src/Tools/TextReplaceTool.php:38-44 | `global` (the default) appends `g` to the pattern's modifiers; PCRE has no `g` modifier, so `preg_replace` warns and returns null and the text comes back unchanged; under an error handler that turns the warning into an exception (as Laravel's does) the client sees an error instead, and still no replacement | pattern `a`, replacement `b`, text `a`, with the defaults | replace every match (preg_replace's default limit of -1, since the code passes no limit) with only `i` as a modifier; `global` then changes nothing | not executed; high (PCRE rejects unknown modifiers) | TextReplace.GlobalNeverReplaces, TextReplace.HandleAsWritten | TextReplace.Updated, TextReplace.Handle |
