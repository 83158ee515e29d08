/** The table.query tool: a delimited text file is streamed into a fresh
    in-memory SQL table with one fixed column list, a SELECT runs against it,
    and the result is shaped into capped columns and rows. The CSV reader and
    the SQL engine are function parameters; the table the tool builds is the
    class MemoryDb. */
module TableQuery {
  import opened Common
  import opened Strings

  // ---------------------------------------------------------------------------
  // resolveDelimiter

  /** How many times c occurs in s (substr_count for a one-character needle). */
  function Count(s: string, c: char): nat
  {
    multiset(s)[c]
  }

  /** What fgets($fh, 4096) returns: the text up to and including the first
      newline, and never more than 4095 characters. */
  function FirstLine(content: string): (line: string)
    ensures line <= content
    ensures |line| <= 4095
    ensures '\n' !in line[..Max(|line| - 1, 0)]
    ensures |line| < Min(|content|, 4095) ==> line != [] && line[|line| - 1] == '\n'
  {
    var k := RunEnd(content, c => c != '\n');
    var n := if k < |content| then k + 1 else k;
    content[..Min(n, 4095)]
  }

  /** arsort over the counts of comma, tab and semicolon, then the first key:
      the sort is stable, so a tie goes to the earlier of comma, tab, semicolon. */
  function AutoDelimiter(line: string): (d: string)
    ensures d == "," || d == "\t" || d == ";"
    ensures Count(line, d[0]) >= Count(line, ',')
    ensures Count(line, d[0]) >= Count(line, '\t')
    ensures Count(line, d[0]) >= Count(line, ';')
    ensures d != "," ==> Count(line, ',') < Count(line, d[0])
    ensures d == ";" ==> Count(line, '\t') < Count(line, ';')
  {
    var c, t, s := Count(line, ','), Count(line, '\t'), Count(line, ';');
    if c >= t && c >= s then ","
    else if t >= s then "\t"
    else ";"
  }

  /** With none of the three characters on the first line (an empty or
      unreadable file among them) the comma wins. */
  lemma AutoDelimiterDefault(line: string)
    requires ',' !in line && '\t' !in line && ';' !in line
    ensures AutoDelimiter(line) == ","
  {
    assert Count(line, ',') == 0;
  }

  /** The named tokens csv and tsv, the auto heuristic over the first line,
      and any other text passed through as the delimiter itself. */
  function ResolveDelimiter(del: string, firstLine: string): (d: string)
    ensures del == "csv" ==> d == ","
    ensures del == "tsv" ==> d == "\t"
    ensures del == "auto" ==>
      && (d == "," || d == "\t" || d == ";")
      && Count(firstLine, d[0]) >= Count(firstLine, ',')
      && Count(firstLine, d[0]) >= Count(firstLine, '\t')
      && Count(firstLine, d[0]) >= Count(firstLine, ';')
      && (d != "," ==> Count(firstLine, ',') < Count(firstLine, d[0]))
      && (d == ";" ==> Count(firstLine, '\t') < Count(firstLine, ';'))
    ensures del != "csv" && del != "tsv" && del != "auto" ==> d == del
  {
    if del == "csv" then ","
    else if del == "tsv" then "\t"
    else if del == "auto" then AutoDelimiter(firstLine)
    else del
  }

  // ---------------------------------------------------------------------------
  // sanitizeColumn

  /** Outside the class [a-zA-Z0-9_]. */
  predicate IsDisallowed(c: char)
  {
    !IsWordChar(c)
  }

  /** A character that may appear in a column name: [a-z0-9_]. */
  predicate IsColumnChar(c: char)
  {
    IsLowerLetter(c) || IsDigit(c) || c == '_'
  }

  predicate IsColumnName(n: string)
  {
    n != [] && forall i | 0 <= i < |n| :: IsColumnChar(n[i])
  }

  /** preg_replace('/[^a-zA-Z0-9_]+/', '_', name). */
  function Underscored(name: string): string
  {
    ReplaceRuns(name, IsDisallowed, '_')
  }

  /** Runs of disallowed characters become one underscore, letters are
      lowercased, and an empty result falls back to "col". */
  function SanitizeColumn(name: string): (n: string)
    ensures IsColumnName(n)
    ensures name == [] ==> n == "col"
    ensures name != [] ==> n == Lower(Underscored(name))
  {
    var u := Lower(Underscored(name));
    forall i | 0 <= i < |u|
      ensures IsColumnChar(u[i])
    {
      var c := Underscored(name)[i];
      assert c == '_' || !IsDisallowed(c);
    }
    if u == [] then "col" else u
  }

  /** The fallback replaces the regex result exactly when the header cell is empty. */
  lemma SanitizeFallbackOnlyForEmpty(name: string)
    ensures Lower(Underscored(name)) == [] <==> name == []
  {
  }

  /** A column name is a fixed point: sanitizing twice is sanitizing once. */
  lemma SanitizeIdempotent(name: string)
    ensures SanitizeColumn(SanitizeColumn(name)) == SanitizeColumn(name)
  {
    var n := SanitizeColumn(name);
    assert forall i | 0 <= i < |n| :: !IsDisallowed(n[i]);
    ReplaceRunsOutside(n, IsDisallowed, '_');
    assert Lower(n) == n;
  }

  /** A cell made only of allowed characters keeps them, lowercased. */
  lemma SanitizeWord(name: string)
    requires name != []
    requires forall i | 0 <= i < |name| :: IsWordChar(name[i])
    ensures SanitizeColumn(name) == Lower(name)
  {
    ReplaceRunsOutside(name, IsDisallowed, '_');
  }

  /** A maximal run of disallowed characters between two pieces becomes
      exactly one underscore, and the pieces are rewritten independently. */
  lemma SanitizeRun(x: string, run: string, y: string)
    requires run != []
    requires forall i | 0 <= i < |run| :: IsDisallowed(run[i])
    requires x == [] || !IsDisallowed(x[|x| - 1])
    requires y == [] || !IsDisallowed(y[0])
    ensures SanitizeColumn(x + run + y) == Lower(Underscored(x)) + "_" + Lower(Underscored(y))
  {
    var ux, uy := Underscored(x), Underscored(y);
    ReplaceRunsWholeRun(run, IsDisallowed, '_');
    ReplaceRunsAppend(x, run, IsDisallowed, '_');
    assert Underscored(x + run) == ux + "_";
    ReplaceRunsAppend(x + run, y, IsDisallowed, '_');
    assert Underscored(x + run + y) == ux + "_" + uy;
    LowerAppend(ux + "_", uy);
    LowerAppend(ux, "_");
    assert Lower("_") == "_";
  }

  // ---------------------------------------------------------------------------
  // Column lists

  /** The header record's cells, each sanitized, in order. */
  function HeaderColumns(cells: seq<string>): (columns: seq<string>)
    ensures |columns| == |cells|
    ensures forall i | 0 <= i < |columns| :: IsColumnName(columns[i])
  {
    seq(|cells|, i requires 0 <= i < |cells| => SanitizeColumn(cells[i]))
  }

  /** c1, c2, ..., cN for a headerless file whose first record has N cells. */
  function PositionalColumns(n: nat): (columns: seq<string>)
    ensures |columns| == n
    ensures forall i | 0 <= i < n :: IsColumnName(columns[i])
  {
    var cs := seq(n, i requires 0 <= i < n => "c" + NatToString(i + 1));
    assert forall i | 0 <= i < n :: IsColumnName(cs[i]) by {
      forall i | 0 <= i < n ensures IsColumnName(cs[i]) {
        var d := NatToString(i + 1);
        forall k | 0 <= k < |cs[i]| ensures IsColumnChar(cs[i][k]) {
          if k > 0 { assert cs[i][k] == d[k - 1]; }
        }
      }
    }
    cs
  }

  /** The header loop: one sanitized name per cell. */
  method SanitizeHeader(row: seq<string>) returns (columns: seq<string>)
    ensures columns == HeaderColumns(row)
  {
    columns := [];
    for k := 0 to |row|
      invariant columns == HeaderColumns(row[..k])
    {
      assert HeaderColumns(row[..k + 1]) == HeaderColumns(row[..k]) + [SanitizeColumn(row[k])];
      columns := columns + [SanitizeColumn(row[k])];
    }
    assert row[..|row|] == row;
  }

  /** The positional loop: `c` followed by the 1-based index, per cell. */
  method NumberColumns(n: nat) returns (columns: seq<string>)
    ensures columns == PositionalColumns(n)
  {
    columns := [];
    for k := 0 to n
      invariant columns == PositionalColumns(k)
    {
      assert PositionalColumns(k + 1) == PositionalColumns(k) + ["c" + NatToString(k + 1)];
      columns := columns + ["c" + NatToString(k + 1)];
    }
  }

  /** Positional names are pairwise distinct and already valid column names. */
  lemma PositionalColumnsWellFormed(n: nat)
    ensures forall i, j | 0 <= i < j < n :: PositionalColumns(n)[i] != PositionalColumns(n)[j]
    ensures forall i | 0 <= i < n :: SanitizeColumn(PositionalColumns(n)[i]) == PositionalColumns(n)[i]
  {
    var cs := PositionalColumns(n);
    forall i, j | 0 <= i < j < n
      ensures cs[i] != cs[j]
    {
      if cs[i] == cs[j] {
        assert cs[i][1..] == NatToString(i + 1);
        assert cs[j][1..] == NatToString(j + 1);
        NatToStringInjective(i + 1, j + 1);
      }
    }
    forall i | 0 <= i < n
      ensures SanitizeColumn(cs[i]) == cs[i]
    {
      var c := cs[i];
      assert forall k | 0 <= k < |c| :: IsWordChar(c[k]) by {
        forall k | 0 <= k < |c| ensures IsWordChar(c[k]) {
          if k > 0 { assert c[k] == NatToString(i + 1)[k - 1]; }
        }
      }
      SanitizeWord(c);
      assert forall k | 0 <= k < |c| :: !IsUpper(c[k]);
      assert Lower(c) == c;
    }
  }

  /** The columns a first record yields: its sanitized cells with a header,
      positional names of its width without one. */
  function FirstColumns(row: seq<string>, header: bool): seq<string>
  {
    if header then HeaderColumns(row) else PositionalColumns(|row|)
  }

  /** The column list the first record fixes for the whole file. */
  function Columns(records: seq<seq<string>>, header: bool): seq<string>
  {
    if records == [] then [] else FirstColumns(records[0], header)
  }

  // ---------------------------------------------------------------------------
  // maybeCreate and insert: SQL text and row fitting

  function Quoted(s: string): string
  {
    "\"" + s + "\""
  }

  function ColumnDefs(columns: seq<string>): (defs: seq<string>)
    ensures |defs| == |columns|
    ensures forall i | 0 <= i < |defs| :: defs[i] == Quoted(columns[i]) + " TEXT"
  {
    seq(|columns|, i requires 0 <= i < |columns| => Quoted(columns[i]) + " TEXT")
  }

  function CreateSql(table: string, columns: seq<string>): string
  {
    "CREATE TABLE IF NOT EXISTS " + Quoted(table) + " (" + Join(ColumnDefs(columns), ",") + ")"
  }

  /** The CREATE statement lists one `"<c>" TEXT` definition per column, in
      column order: splitting its column list at the commas gives them back. */
  lemma CreateSqlColumns(table: string, columns: seq<string>)
    requires columns != []
    requires forall c | c in columns :: ',' !in c
    ensures exists list: string ::
      && CreateSql(table, columns) == "CREATE TABLE IF NOT EXISTS " + Quoted(table) + " (" + list + ")"
      && Split(list, ',') == ColumnDefs(columns)
  {
    var defs := ColumnDefs(columns);
    forall d | d in defs
      ensures ',' !in d
    {
      var i :| 0 <= i < |defs| && defs[i] == d;
      assert columns[i] in columns;
      assert d == "\"" + columns[i] + "\" TEXT";
    }
    SplitJoin(defs, ',');
  }

  lemma ColumnNameHasNoComma(c: string)
    requires IsColumnName(c)
    ensures ',' !in c
  {
    forall k | 0 <= k < |c|
      ensures c[k] != ','
    {
      assert IsColumnChar(c[k]);
    }
  }

  /** Every column the tool creates is a valid column name, so none contains
      a comma and the lemma above applies to every table the tool creates. */
  lemma ColumnsAreColumnNames(records: seq<seq<string>>, header: bool)
    ensures forall c | c in Columns(records, header) :: IsColumnName(c) && ',' !in c
  {
    var cs := Columns(records, header);
    if !header && records != [] {
      PositionalColumnsWellFormed(|records[0]|);
    }
    forall c | c in cs
      ensures IsColumnName(c) && ',' !in c
    {
      var i :| 0 <= i < |cs| && cs[i] == c;
      if header {
        assert c == SanitizeColumn(records[0][i]);
      } else {
        assert SanitizeColumn(c) == c;
      }
      ColumnNameHasNoComma(c);
    }
  }

  function Repeat<T>(x: T, n: nat): seq<T>
  {
    seq(n, _ => x)
  }

  function Placeholders(n: nat): string
  {
    Join(Repeat("?", n), ",")
  }

  /** One placeholder per column: the VALUES list splits into exactly n "?". */
  lemma PlaceholdersCount(n: nat)
    requires n >= 1
    ensures Split(Placeholders(n), ',') == Repeat("?", n)
  {
    SplitJoin(Repeat("?", n), ',');
  }

  function InsertSql(table: string, columns: seq<string>): string
  {
    "INSERT INTO " + Quoted(table) + " (\"" + Join(columns, "\",\"") + "\") VALUES (" + Placeholders(|columns|) + ")"
  }

  /** array_slice(array_pad(record, width, null), 0, width): exactly `width`
      values, the record's cells first and SQL NULL for the missing ones. */
  function Fit(record: seq<string>, width: nat): (vals: seq<Cell>)
    ensures |vals| == width
    ensures forall i | 0 <= i < width :: vals[i] == if i < |record| then Text(record[i]) else Null
  {
    var cells := seq(|record|, i requires 0 <= i < |record| => Text(record[i]));
    if |cells| >= width then cells[..width] else cells + Repeat(Null, width - |cells|)
  }

  /** Fitting keeps the record's values: a record of the right width is
      stored cell for cell, and a longer one loses only its excess cells. */
  lemma FitPrefix(record: seq<string>, width: nat)
    requires width <= |record|
    ensures Fit(record, width) == Fit(record[..width], width)
    ensures forall i | 0 <= i < width :: Fit(record, width)[i] == Text(record[i])
  {
  }

  function FitAll(records: seq<seq<string>>, width: nat): seq<seq<Cell>>
  {
    seq(|records|, i requires 0 <= i < |records| => Fit(records[i], width))
  }

  // ---------------------------------------------------------------------------
  // The in-memory table

  datatype Table = Table(columns: seq<string>, rows: seq<seq<Cell>>)

  /** A statement the loader executes; Sql gives its text. */
  datatype Statement = CreateTable(table: string, columns: seq<string>) | InsertRow(table: string, columns: seq<string>)

  function Sql(st: Statement): string
  {
    match st
    case CreateTable(t, cs) => CreateSql(t, cs)
    case InsertRow(t, cs) => InsertSql(t, cs)
  }

  /** The in-memory SQL database the tool builds: its tables, and the log of
      the statements executed against it. */
  class MemoryDb {
    var tables: map<string, Table>
    var statements: seq<Statement>

    constructor()
      ensures tables == map[] && statements == []
    {
      tables := map[];
      statements := [];
    }

    /** CREATE TABLE IF NOT EXISTS: an existing table is left as it is. */
    method Create(name: string, columns: seq<string>)
      modifies this
      ensures statements == old(statements) + [CreateTable(name, columns)]
      ensures name in old(tables) ==> tables == old(tables)
      ensures name !in old(tables) ==> tables == old(tables)[name := Table(columns, [])]
    {
      statements := statements + [CreateTable(name, columns)];
      if name !in tables {
        tables := tables[name := Table(columns, [])];
      }
    }

    /** A prepared INSERT naming every column, executed with the fitted record. */
    method Insert(name: string, columns: seq<string>, record: seq<string>)
      requires name in tables && tables[name].columns == columns
      modifies this
      ensures statements == old(statements) + [InsertRow(name, columns)]
      ensures tables == old(tables)[name := Table(columns, old(tables)[name].rows + [Fit(record, |columns|)])]
    {
      statements := statements + [InsertRow(name, columns)];
      tables := tables[name := Table(columns, tables[name].rows + [Fit(record, |columns|)])];
    }
  }

  // ---------------------------------------------------------------------------
  // The load loop

  /** loaded_rows: with a header the first record is not data and at least one
      data record goes in before the cap is checked; without one the first
      record goes in unchecked, so at least two do. */
  function LoadedCount(n: nat, header: bool, maxRows: int): (k: nat)
  {
    if n == 0 then 0
    else if header then Min(n - 1, Max(maxRows, 1))
    else Min(n, Max(maxRows, 2))
  }

  /** Index of the first data record. */
  function DataStart(header: bool): nat
  {
    if header then 1 else 0
  }

  /** The records that become rows: a contiguous, in-order run of the input
      starting at the first data record; the rest is discarded. */
  function InsertedRecords(records: seq<seq<string>>, header: bool, maxRows: int): (rs: seq<seq<string>>)
    ensures |rs| == LoadedCount(|records|, header, maxRows)
    ensures |rs| <= |records|
    ensures records != [] ==> rs == records[DataStart(header)..DataStart(header) + |rs|]
  {
    if records == [] then []
    else records[DataStart(header)..DataStart(header) + LoadedCount(|records|, header, maxRows)]
  }

  /** The single table holding the fitted rows `loaded` under `columns`. */
  function TableState(table: string, columns: seq<string>, loaded: seq<seq<string>>): map<string, Table>
  {
    map[table := Table(columns, FitAll(loaded, |columns|))]
  }

  /** One CREATE followed by n INSERTs. */
  function Log(table: string, columns: seq<string>, n: nat): seq<Statement>
  {
    [CreateTable(table, columns)] + Repeat(InsertRow(table, columns), n)
  }

  /** The database after loading: nothing for an empty file, otherwise the one
      table with the first record's columns and the fitted data records. */
  function LoadedTables(records: seq<seq<string>>, header: bool, table: string, maxRows: int): map<string, Table>
  {
    if records == [] then map[]
    else TableState(table, Columns(records, header), InsertedRecords(records, header, maxRows))
  }

  /** The statements run while loading: one CREATE, then one INSERT per row. */
  function LoadStatements(records: seq<seq<string>>, header: bool, table: string, maxRows: int): seq<Statement>
  {
    if records == [] then []
    else Log(table, Columns(records, header), LoadedCount(|records|, header, maxRows))
  }

  lemma LogSnoc(table: string, columns: seq<string>, n: nat)
    ensures Log(table, columns, n + 1) == Log(table, columns, n) + [InsertRow(table, columns)]
  {
    assert Repeat(InsertRow(table, columns), n + 1) == Repeat(InsertRow(table, columns), n) + [InsertRow(table, columns)];
  }

  lemma TableStateSnoc(table: string, columns: seq<string>, loaded: seq<seq<string>>, row: seq<string>)
    ensures TableState(table, columns, loaded)[table := Table(columns, FitAll(loaded, |columns|) + [Fit(row, |columns|)])]
      == TableState(table, columns, loaded + [row])
  {
    assert FitAll(loaded + [row], |columns|) == FitAll(loaded, |columns|) + [Fit(row, |columns|)];
  }

  /** Where the load loop stops: either the input ran out while the cap
      had not been reached, or the last insert reached it. Either way the row
      count is LoadedCount. */
  lemma LoadStopsAtCount(n: nat, header: bool, maxRows: int, i: nat, rowCount: nat)
    requires 1 <= i <= n
    requires rowCount == i - DataStart(header)
    requires
      || (i == n && (i >= 2 ==> rowCount < maxRows))
      || (2 <= i && maxRows <= rowCount && (i >= 3 ==> rowCount - 1 < maxRows))
    ensures rowCount == LoadedCount(n, header, maxRows)
  {
  }

  lemma LoadedStateIs(records: seq<seq<string>>, header: bool, table: string, maxRows: int, loaded: seq<seq<string>>)
    requires records != []
    requires |loaded| == LoadedCount(|records|, header, maxRows)
    requires loaded == records[DataStart(header)..DataStart(header) + |loaded|]
    ensures LoadedTables(records, header, table, maxRows) == TableState(table, Columns(records, header), loaded)
    ensures LoadStatements(records, header, table, maxRows) == Log(table, Columns(records, header), |loaded|)
  {
  }

  /** The `$first` block: fixes the columns from the first record and creates
      the table; without a header the record is also inserted as data. */
  method Begin(db: MemoryDb, row: seq<string>, header: bool, table: string) returns (columns: seq<string>, rowCount: nat)
    requires db.tables == map[] && db.statements == []
    modifies db
    ensures columns == FirstColumns(row, header)
    ensures rowCount == if header then 0 else 1
    ensures db.tables == TableState(table, columns, if header then [] else [row])
    ensures db.statements == Log(table, columns, rowCount)
  {
    if header {
      columns := SanitizeHeader(row);
      rowCount := 0;
      db.Create(table, columns);
      assert Repeat(InsertRow(table, columns), 0) == [] && FitAll([], |columns|) == [];
    } else {
      columns := NumberColumns(|row|);
      db.Create(table, columns);
      assert db.tables == map[table := Table(columns, [])];
      db.Insert(table, columns, row);
      rowCount := 1;
      assert FitAll([row], |columns|) == [] + [Fit(row, |columns|)];
      assert Repeat(InsertRow(table, columns), 1) == [InsertRow(table, columns)];
    }
  }

  /** Streams the records into a fresh database: the first record fixes the
      columns (and is data only without a header), every later record is
      inserted until the row count reaches maxRows. */
  method Load(records: seq<seq<string>>, header: bool, table: string, maxRows: int)
    returns (db: MemoryDb, columns: seq<string>, rowCount: nat)
    ensures fresh(db)
    ensures columns == Columns(records, header)
    ensures rowCount == LoadedCount(|records|, header, maxRows)
    ensures db.tables == LoadedTables(records, header, table, maxRows)
    ensures db.statements == LoadStatements(records, header, table, maxRows)
  {
    db := new MemoryDb();
    columns := [];
    rowCount := 0;
    var first := true;
    var i := 0;
    ghost var loaded: seq<seq<string>> := [];
    while i < |records|
      invariant 0 <= i <= |records|
      invariant first <==> i == 0
      invariant i == 0 ==> columns == [] && loaded == [] && rowCount == 0 && db.tables == map[] && db.statements == []
      invariant i > 0 ==> columns == Columns(records, header)
      invariant i > 0 ==> rowCount == i - DataStart(header) == |loaded|
      invariant i > 0 ==> loaded == records[DataStart(header)..i]
      invariant i > 0 ==> db.tables == TableState(table, columns, loaded)
      invariant i > 0 ==> db.statements == Log(table, columns, rowCount)
      invariant i >= 2 ==> rowCount < maxRows
    {
      var row := records[i];
      if first {
        columns, rowCount := Begin(db, row, header, table);
        loaded := if header then [] else [row];
        assert records[DataStart(header)..1] == loaded;
        first := false;
        i := i + 1;
        continue;
      }
      TableStateSnoc(table, columns, loaded, row);
      LogSnoc(table, columns, rowCount);
      assert records[DataStart(header)..i + 1] == loaded + [row];
      db.Insert(table, columns, row);
      rowCount := rowCount + 1;
      loaded := loaded + [row];
      i := i + 1;
      if rowCount >= maxRows {
        break;
      }
    }
    if records != [] {
      LoadStopsAtCount(|records|, header, maxRows, i, rowCount);
      LoadedStateIs(records, header, table, maxRows, loaded);
    }
  }

  /** Every stored row has exactly one value per column. */
  lemma LoadedRowsFitColumns(records: seq<seq<string>>, header: bool, table: string, maxRows: int)
    requires records != []
    ensures table in LoadedTables(records, header, table, maxRows)
    ensures forall row | row in LoadedTables(records, header, table, maxRows)[table].rows ::
      |row| == |Columns(records, header)|
  {
  }

  /** The ingestion cap: the row count never exceeds max(max_rows, 1) with a
      header or max(max_rows, 2) without one, and an input within the cap is
      loaded whole. */
  lemma LoadedCountBounds(n: nat, header: bool, maxRows: int)
    ensures LoadedCount(n, header, maxRows) <= Max(maxRows, if header then 1 else 2)
    ensures n >= 1 && n - DataStart(header) <= maxRows ==> LoadedCount(n, header, maxRows) == n - DataStart(header)
  {
  }

  // ---------------------------------------------------------------------------
  // The output loop

  /** A prepared statement's outcome: per-column metadata names (absent when
      the driver reports none) and the result rows. */
  datatype QueryResult = QueryResult(meta: seq<Option<string>>, rows: seq<seq<Cell>>)

  function ColumnLabel(meta: Option<string>, i: nat): string
  {
    match meta
    case Some(name) => name
    case None => "col" + NatToString(i + 1)
  }

  /** Reads the column names and fetches rows until `limit` have been kept;
      the check follows the append, so at least one row survives any limit. */
  method Shape(result: QueryResult, limit: int) returns (cols: seq<string>, rows: seq<seq<Cell>>)
    ensures |cols| == |result.meta|
    ensures forall i | 0 <= i < |cols| :: result.meta[i].Some? ==> cols[i] == result.meta[i].value
    ensures forall i | 0 <= i < |cols| :: result.meta[i].None? ==> cols[i] == "col" + NatToString(i + 1)
    ensures rows == Capped(result.rows, limit)
  {
    cols := [];
    var i := 0;
    while i < |result.meta|
      invariant 0 <= i <= |result.meta|
      invariant |cols| == i
      invariant forall j | 0 <= j < i :: cols[j] == ColumnLabel(result.meta[j], j)
    {
      cols := cols + [ColumnLabel(result.meta[i], i)];
      i := i + 1;
    }
    rows := [];
    i := 0;
    while i < |result.rows|
      invariant 0 <= i <= Min(|result.rows|, Max(limit, 1))
      invariant rows == result.rows[..i]
      invariant i >= 1 ==> i < limit
    {
      rows := rows + [result.rows[i]];
      i := i + 1;
      if i >= limit {
        break;
      }
    }
  }

  // ---------------------------------------------------------------------------
  // handle

  datatype TableRequest = TableRequest(
    file: string, sql: string, delimiter: string, header: bool,
    table: string, maxRows: int, limit: int)

  /** What the filesystem says about the path: whether it is a regular file,
      whether it opens, and its text. */
  datatype SourceFile = SourceFile(isFile: bool, readable: bool, content: string)

  datatype TableResponse = TableResponse(
    table: string, columns: seq<string>, rows: seq<seq<Cell>>,
    loadedRows: int, delimiter: string)

  /** A tool answer: JSON, Response::error, or an exception that escapes
      handle. */
  datatype Outcome = Json(response: TableResponse) | Error(message: string) | Thrown(message: string)

  /** PHP 8's fgetcsv refuses a separator that is not exactly one byte. */
  const SeparatorMessage := "fgetcsv(): Argument #3 ($separator) must be a single character"

  /** The number of bytes a character takes in UTF-8. */
  function Utf8Width(c: char): (w: nat)
    ensures 1 <= w <= 4
    ensures w == 1 <==> c as int < 0x80
  {
    if c as int < 0x80 then 1
    else if c as int < 0x800 then 2
    else if c as int < 0x1_0000 then 3
    else 4
  }

  /** PHP's strlen of a text: its length in UTF-8 bytes. */
  function Utf8Length(s: string): (n: nat)
    ensures |s| <= n <= 4 * |s|
  {
    if s == [] then 0 else Utf8Width(s[0]) + Utf8Length(s[1..])
  }

  /** A text is one byte long exactly when it is one ASCII character. */
  lemma {:induction false} SingleByte(s: string)
    ensures Utf8Length(s) == 1 <==> |s| == 1 && s[0] as int < 0x80
  {
    if |s| >= 1 {
      assert Utf8Length(s) == Utf8Width(s[0]) + Utf8Length(s[1..]);
    }
  }

  /** The tool end to end. The CSV reader (`parse`) splits the content into
      records with the resolved delimiter; the SQL engine (`query`) runs the
      query against the loaded tables, or yields no statement. The `None`
      case stands for the `if ($stmt)` guard of TableQueryTool.php:81; with
      the exception error mode set at line 47 a failing query throws instead,
      so that branch is not reached in practice. */
  method Handle(
    req: TableRequest, src: SourceFile,
    parse: (string, string) -> seq<seq<string>>,
    query: (map<string, Table>, string) -> Option<QueryResult>)
    returns (r: Outcome)
    ensures !src.isFile ==> r == Error("File not found: " + req.file)
    ensures src.isFile && !src.readable ==> r == Error("Unable to open: " + req.file)
    ensures src.isFile && src.readable ==>
      var d := ResolveDelimiter(req.delimiter, FirstLine(src.content));
      (Utf8Length(d) != 1 <==> r.Thrown?) && (Utf8Length(d) != 1 ==> r == Thrown(SeparatorMessage))
    ensures src.isFile && src.readable ==>
      var d := ResolveDelimiter(req.delimiter, FirstLine(src.content));
      var records := parse(src.content, d);
      var tables := LoadedTables(records, req.header, req.table, req.maxRows);
      Utf8Length(d) == 1 ==>
      && r.Json?
      && r.response.table == req.table
      && r.response.delimiter == d
      && r.response.loadedRows == LoadedCount(|records|, req.header, req.maxRows)
      && match query(tables, req.sql)
         case None => r.response.columns == [] && r.response.rows == []
         case Some(res) =>
           && |r.response.columns| == |res.meta|
           && (forall i | 0 <= i < |res.meta| :: res.meta[i].Some? ==> r.response.columns[i] == res.meta[i].value)
           && (forall i | 0 <= i < |res.meta| :: res.meta[i].None? ==> r.response.columns[i] == "col" + NatToString(i + 1))
           && r.response.rows == Capped(res.rows, req.limit)
  {
    if !src.isFile {
      return Error("File not found: " + req.file);
    }
    var d := ResolveDelimiter(req.delimiter, if src.readable then FirstLine(src.content) else "");
    if !src.readable {
      return Error("Unable to open: " + req.file);
    }
    if Utf8Length(d) != 1 {
      return Thrown(SeparatorMessage);
    }
    var records := parse(src.content, d);
    var db, columns, rowCount := Load(records, req.header, req.table, req.maxRows);
    var cols, outRows := [], [];
    var stmt := query(db.tables, req.sql);
    if stmt.Some? {
      cols, outRows := Shape(stmt.value, req.limit);
    }
    r := Json(TableResponse(req.table, cols, outRows, rowCount, d));
  }

  /** Only a delimiter passed through as written can fail fgetcsv: the named
      tokens and `auto` always give one byte. */
  lemma OnlyRawDelimiterThrows(del: string, firstLine: string)
    requires Utf8Length(ResolveDelimiter(del, firstLine)) != 1
    ensures del != "csv" && del != "tsv" && del != "auto"
    ensures !(|del| == 1 && del[0] as int < 0x80)
  {
    SingleByte(ResolveDelimiter(del, firstLine));
  }

  /** One character is not enough: `§` takes two bytes, so fgetcsv refuses it. */
  lemma SectionSignRefused(del: string, firstLine: string)
    requires del == "\U{A7}"
    ensures |ResolveDelimiter(del, firstLine)| == 1
    ensures Utf8Length(ResolveDelimiter(del, firstLine)) == 2
  {
  }
}
