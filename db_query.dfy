/** The db_query tool: a lexical read-only guard in front of a configured
    database connection, a LIMIT rewriter, and the shaping of the returned rows.
    The database itself is a function parameter (`select`); it receives the
    resolved connection name, the rewritten SQL and the bindings. */
module DbQuery {
  import opened Common
  import opened Strings

  const UnsafeMessage := "Only SELECT queries are allowed. Detected non-read operation."
  const NoContextMessage := "This tool requires a Laravel application context."
  const FailurePrefix := "Query failed: "

  /** The characters PHP's trim() removes by default. */
  const TrimSet: set<char> := {' ', '\t', '\n', '\r', '\0', 11 as char}

  /** The characters addLimit strips from the end before appending the clause. */
  const TailSet: set<char> := {';', ' '}

  /** Keywords whose mere presence anywhere in the normalized text rejects it. */
  const Denylist: seq<string> :=
    ["insert", "update", "delete", "drop", "alter", "create", "truncate", "replace", "exec", "execute"]

  // ---------------------------------------------------------------------------
  // isSafeQuery

  /** The inspection copy: whitespace runs collapsed to one space, lowercased, trimmed. */
  function Normalize(sql: string): string
  {
    Trim(Lower(ReplaceRuns(sql, IsPcreSpace, ' ')), TrimSet)
  }

  /** None of the keywords occurs in the text. */
  predicate NoKeyword(n: string, keywords: seq<string>)
  {
    forall k | k in keywords :: !Contains(n, k)
  }

  lemma NoKeywordSnoc(n: string, keywords: seq<string>, k: string)
    requires NoKeyword(n, keywords) && !Contains(n, k)
    ensures NoKeyword(n, keywords + [k])
  {
  }

  predicate IsSafeQuery(sql: string)
  {
    var n := Normalize(sql);
    "select" <= n && NoKeyword(n, Denylist)
  }

  /** No uppercase letter, every blank a plain space, never two in a row. */
  predicate SingleSpaced(n: string)
  {
    && (forall i | 0 <= i < |n| :: !IsUpper(n[i]))
    && (forall i | 0 <= i < |n| :: IsPcreSpace(n[i]) ==> n[i] == ' ')
    && (forall i | 0 <= i < |n| - 1 :: n[i] != ' ' || n[i + 1] != ' ')
  }

  /** Collapsing the blank runs and lowercasing gives a single-spaced text. */
  lemma CollapsedLowerSingleSpaced(sql: string)
    ensures SingleSpaced(Lower(ReplaceRuns(sql, IsPcreSpace, ' ')))
  {
    var r := ReplaceRuns(sql, IsPcreSpace, ' ');
    ReplaceRunsNoAdjacent(sql, IsPcreSpace, ' ');
    var l := Lower(r);
    LowerCase(r);
    forall i | 0 <= i < |l|
      ensures IsPcreSpace(l[i]) ==> l[i] == ' '
      ensures l[i] == ' ' ==> r[i] == ' '
    {
      assert l[i] == LowerChar(r[i]);
    }
    forall i | 0 <= i < |l| - 1
      ensures l[i] != ' ' || l[i + 1] != ' '
    {
      assert NoAdjacent(r, IsPcreSpace);
      assert !IsPcreSpace(r[i]) || !IsPcreSpace(r[i + 1]);
    }
  }

  lemma SingleSpacedSuffix(l: string, k: nat)
    requires SingleSpaced(l) && k <= |l|
    ensures SingleSpaced(l[k..])
  {
    var t := l[k..];
    assert forall i | 0 <= i < |t| :: t[i] == l[k + i];
  }

  lemma SingleSpacedPrefix(l: string, k: nat)
    requires SingleSpaced(l) && k <= |l|
    ensures SingleSpaced(l[..k])
  {
    var t := l[..k];
    assert forall i | 0 <= i < |t| :: t[i] == l[i];
  }

  /** Trimming keeps a text single-spaced and removes the spaces at its ends. */
  lemma TrimSingleSpaced(l: string, cs: set<char>)
    requires SingleSpaced(l) && ' ' in cs
    ensures SingleSpaced(Trim(l, cs))
  {
    var left := TrimLeft(l, cs);
    SingleSpacedSuffix(l, |l| - |left|);
    var n := TrimRight(left, cs);
    SingleSpacedPrefix(left, |n|);
    assert n == left[..|n|];
  }

  /** The inspection copy is canonical: no uppercase letter, every blank is a
      single space, never two in a row, and none at either end. */
  lemma NormalizeShape(sql: string)
    ensures var n := Normalize(sql);
      && (forall i | 0 <= i < |n| :: !IsUpper(n[i]))
      && (forall i | 0 <= i < |n| :: IsPcreSpace(n[i]) ==> n[i] == ' ')
      && (forall i | 0 <= i < |n| - 1 :: n[i] != ' ' || n[i + 1] != ' ')
      && (n != [] ==> n[0] != ' ' && n[|n| - 1] != ' ')
  {
    CollapsedLowerSingleSpaced(sql);
    var l := Lower(ReplaceRuns(sql, IsPcreSpace, ' '));
    TrimSingleSpaced(l, TrimSet);
    TrimSlice(l, TrimSet);
  }

  /** The isSafeQuery method: the prefix test, then the keyword loop. */
  method CheckSafe(sql: string) returns (safe: bool)
    ensures safe == IsSafeQuery(sql)
  {
    var normalized := Normalize(sql);
    if !("select" <= normalized) {
      return false;
    }
    var found := FindKeyword(normalized, Denylist);
    return !found;
  }

  /** The keyword loop: stops at the first keyword the text contains. */
  method FindKeyword(n: string, keywords: seq<string>) returns (found: bool)
    ensures found <==> !NoKeyword(n, keywords)
  {
    for j := 0 to |keywords|
      invariant NoKeyword(n, keywords[..j])
    {
      var keyword := keywords[j];
      if Contains(n, keyword) {
        assert keyword in keywords;
        return true;
      }
      NoKeywordSnoc(n, keywords[..j], keyword);
      assert keywords[..j + 1] == keywords[..j] + [keyword];
    }
    assert keywords[..|keywords|] == keywords;
    return false;
  }

  predicate IsLowerWord(k: string)
  {
    k != [] && forall j | 0 <= j < |k| :: IsLowerLetter(k[j])
  }

  lemma DenylistIsLowercase()
    ensures forall k | k in Denylist :: IsLowerWord(k)
  {
    assert IsLowerWord("insert");
    assert IsLowerWord("update");
    assert IsLowerWord("delete");
    assert IsLowerWord("drop");
    assert IsLowerWord("alter");
    assert IsLowerWord("create");
    assert IsLowerWord("truncate");
    assert IsLowerWord("replace");
    assert IsLowerWord("exec");
    assert IsLowerWord("execute");
  }

  /** A word that lowercases to a denylisted keyword is made of letters. */
  lemma KeywordSpellingIsLetters(w: string)
    requires Lower(w) in Denylist
    ensures w != []
    ensures forall j | 0 <= j < |w| :: !IsPcreSpace(w[j]) && LowerChar(w[j]) !in TrimSet
  {
    DenylistIsLowercase();
    var k := Lower(w);
    forall j | 0 <= j < |w|
      ensures !IsPcreSpace(w[j]) && LowerChar(w[j]) !in TrimSet
    {
      assert IsLowerLetter(k[j]);
    }
  }

  /** The guard sees through letter case and surrounding text: a query that
      contains a denylisted keyword anywhere, in any mix of upper and lower
      case, is rejected. This is also why a select that names a column such
      as `updated_at` or `created_at` is rejected. */
  lemma DenylistedWordRejected(sql: string, w: string)
    requires Lower(w) in Denylist
    requires Contains(sql, w)
    ensures !IsSafeQuery(sql)
  {
    KeywordSpellingIsLetters(w);
    var i :| 0 <= i <= |sql| && w <= sql[i..];
    var x, y := sql[..i], sql[i + |w|..];
    assert sql == x + w + y;
    ReplaceRunsOutside(w, IsPcreSpace, ' ');
    ReplaceRunsAppend(x + w, y, IsPcreSpace, ' ');
    ReplaceRunsAppend(x, w, IsPcreSpace, ' ');
    var rx, ry := ReplaceRuns(x, IsPcreSpace, ' '), ReplaceRuns(y, IsPcreSpace, ' ');
    assert ReplaceRuns(sql, IsPcreSpace, ' ') == rx + w + ry;
    LowerAppend(rx + w, ry);
    LowerAppend(rx, w);
    var kw := Lower(w);
    assert Lower(rx + w + ry) == Lower(rx) + kw + Lower(ry);
    TrimKeepsInner(Lower(rx), kw, Lower(ry), TrimSet);
    assert kw in Denylist && Contains(Normalize(sql), kw);
  }

  // ---------------------------------------------------------------------------
  // addLimit

  /** `\bLIMIT\s+\d+` (case-insensitive) matches at position i. */
  predicate LimitClauseAt(s: string, i: int)
  {
    && 0 <= i
    && i + 5 < |s|
    && (i == 0 || !IsWordChar(s[i - 1]))
    && Lower(s[i..i + 5]) == "limit"
    && IsPcreSpace(s[i + 5])
    && var k := i + 5 + RunEnd(s[i + 5..], IsPcreSpace);
       k < |s| && IsDigit(s[k])
  }

  predicate HasLimitClause(s: string)
  {
    exists i | 0 <= i < |s| :: LimitClauseAt(s, i)
  }

  /** A query that already limits itself is left alone; any other query loses
      its trailing semicolons and spaces and gets ` LIMIT <limit>` appended,
      the rest of its text (letter case included) unchanged. */
  function AddLimit(sql: string, limit: int): (r: string)
    ensures HasLimitClause(sql) ==> r == sql
    ensures !HasLimitClause(sql) ==>
      exists k | 0 <= k <= |sql| ::
        && r == sql[..k] + " LIMIT " + IntToString(limit)
        && (forall j | k <= j < |sql| :: sql[j] in TailSet)
        && (k > 0 ==> sql[k - 1] !in TailSet)
  {
    if HasLimitClause(sql) then sql
    else
      var t := TrimRight(sql, TailSet);
      assert sql[..|t|] == t;
      t + " LIMIT " + IntToString(limit)
  }

  /** With a non-negative limit the rewritten query always carries a LIMIT
      clause the detector recognises, so rewriting it again changes nothing:
      there is never a second LIMIT. */
  lemma AddLimitIdempotent(sql: string, limit: int, other: int)
    requires limit >= 0
    ensures HasLimitClause(AddLimit(sql, limit))
    ensures AddLimit(AddLimit(sql, limit), other) == AddLimit(sql, limit)
  {
    if !HasLimitClause(sql) {
      var t := TrimRight(sql, TailSet);
      var d := NatToString(limit);
      var r := t + " LIMIT " + d;
      assert r == AddLimit(sql, limit);
      var i := |t| + 1;
      assert r[i - 1] == ' ';
      assert r[i..i + 5] == "LIMIT";
      assert Lower("LIMIT") == "limit";
      assert r[i + 5] == ' ';
      assert r[i + 6] == d[0];
      RunEndUnique(r[i + 5..], IsPcreSpace, 1);
      assert LimitClauseAt(r, i);
    }
  }

  lemma LimitClauseSpellsI(s: string, i: int)
    ensures LimitClauseAt(s, i) ==> 'i' in s || 'I' in s
  {
    if LimitClauseAt(s, i) {
      assert Lower(s[i..i + 5])[1] == 'i';
      assert s[i + 1] in s;
    }
  }

  /** Text without the letter i in either case cannot hold a LIMIT clause. */
  lemma NoLetterINoLimit(s: string)
    requires 'i' !in s && 'I' !in s
    ensures !HasLimitClause(s)
  {
    forall i | 0 <= i < |s|
      ensures !LimitClauseAt(s, i)
    {
      LimitClauseSpellsI(s, i);
    }
  }

  // ---------------------------------------------------------------------------
  // handle

  /** A row as the driver returns it: column name and value pairs in order. */
  datatype Row = Row(fields: seq<(string, Cell)>)

  datatype DbRequest = DbRequest(sql: string, connection: string, limit: int, bindings: Option<seq<string>>)

  /** What the Laravel application provides: whether it is there at all, and
      the name configured as database.default. */
  datatype Env = Env(laravel: bool, defaultConnection: string)

  datatype DbResponse = DbResponse(columns: seq<string>, rows: seq<Row>, count: int, limited: bool, connection: string)

  function Keys(row: Row): (ks: seq<string>)
    ensures |ks| == |row.fields|
    ensures forall i | 0 <= i < |ks| :: ks[i] == row.fields[i].0
  {
    seq(|row.fields|, i requires 0 <= i < |row.fields| => row.fields[i].0)
  }

  /** The sentinel name "default" stands for the configured default connection. */
  function ResolveConnection(name: string, env: Env): (c: string)
    ensures name == "default" ==> c == env.defaultConnection
    ensures name != "default" ==> c == name
  {
    if name == "default" then env.defaultConnection else name
  }

  /** Bindings that are not an array are replaced by none. */
  function BindingsOf(b: Option<seq<string>>): seq<string>
  {
    match b
    case Some(v) => v
    case None => []
  }

  /** The tool: the trimmed query must pass the guard before anything else is
      looked at; then the connection is resolved, the limit injected, and the
      rows shaped into columns, count and the limited flag. */
  function Handle(req: DbRequest, env: Env, select: (string, string, seq<string>) -> Result<seq<Row>>): (r: Result<DbResponse>)
    ensures !IsSafeQuery(Trim(req.sql, TrimSet)) ==> r == Err(UnsafeMessage)
    ensures IsSafeQuery(Trim(req.sql, TrimSet)) && !env.laravel ==> r == Err(NoContextMessage)
    ensures IsSafeQuery(Trim(req.sql, TrimSet)) && env.laravel ==>
      var conn := ResolveConnection(req.connection, env);
      var outcome := select(conn, AddLimit(Trim(req.sql, TrimSet), req.limit), BindingsOf(req.bindings));
      match outcome
      case Err(m) => r == Err(FailurePrefix + m)
      case Ok(rows) =>
        && r.Ok?
        && r.value.rows == rows
        && r.value.connection == conn
        && r.value.count == |rows|
        && (r.value.limited <==> |rows| >= req.limit)
        && r.value.columns == (if rows == [] then [] else Keys(rows[0]))
  {
    var sql := Trim(req.sql, TrimSet);
    if !IsSafeQuery(sql) then Err(UnsafeMessage)
    else if !env.laravel then Err(NoContextMessage)
    else
      var conn := ResolveConnection(req.connection, env);
      match select(conn, AddLimit(sql, req.limit), BindingsOf(req.bindings))
      case Err(m) => Err(FailurePrefix + m)
      case Ok(rows) =>
        Ok(DbResponse(if rows == [] then [] else Keys(rows[0]), rows, |rows|, |rows| >= req.limit, conn))
  }

  // ---------------------------------------------------------------------------
  // Worked examples

  lemma ExampleTrimLeft()
    ensures TrimLeft("  select * from users  ", TrimSet) == "select * from users  "
  {
    var raw := "  select * from users  ";
    assert raw[0] in TrimSet && raw[1] in TrimSet;
    assert raw[2..] == "select * from users  ";
    TrimLeftStops(raw[2..], TrimSet);
    assert raw[1..][1..] == raw[2..];
  }

  lemma ExampleTrimRight()
    ensures TrimRight("select * from users  ", TrimSet) == "select * from users"
  {
    var l := "select * from users  ";
    assert l[|l| - 1] in TrimSet && l[|l| - 2] in TrimSet;
    assert l[..|l| - 2] == "select * from users";
    TrimRightStops(l[..|l| - 2], TrimSet);
    assert l[..|l| - 1][..|l| - 2] == l[..|l| - 2];
  }

  lemma ExampleTrim()
    ensures Trim("  select * from users  ", TrimSet) == "select * from users"
  {
    ExampleTrimLeft();
    ExampleTrimRight();
  }

  lemma Example500()
    ensures IntToString(500) == "500"
  {
    assert NatToString(5) == "5";
    assert NatToString(50) == "50";
    assert NatToString(500) == "500";
  }

  lemma ExampleLimit()
    ensures AddLimit("select * from users", 500) == "select * from users LIMIT 500"
  {
    var s := "select * from users";
    NoLetterINoLimit(s);
    assert s[|s| - 1] !in TailSet;
    assert TrimRight(s, TailSet) == s;
    Example500();
  }

  /** Surrounding blanks are trimmed before the rewrite. */
  lemma ExampleTrimAndLimit()
    ensures AddLimit(Trim("  select * from users  ", TrimSet), 500) == "select * from users LIMIT 500"
  {
    ExampleTrim();
    ExampleLimit();
  }

  lemma ExampleDelete(sql: string)
    requires sql == "DELETE FROM t"
    ensures !IsSafeQuery(sql)
  {
    var w := sql[..6];
    assert w == "DELETE" && Lower(w) == Denylist[2];
    assert sql == [] + w + sql[6..];
    ContainsMiddle([], w, sql[6..]);
    DenylistedWordRejected(sql, w);
  }

  /** A write smuggled behind a read is caught. */
  lemma ExampleStackedDrop(sql: string)
    requires sql == "SELECT 1; DROP TABLE t"
    ensures !IsSafeQuery(sql)
  {
    var w := sql[10..14];
    assert w == "DROP" && Lower(w) == Denylist[3];
    assert sql == sql[..10] + w + sql[14..];
    ContainsMiddle(sql[..10], w, sql[14..]);
    DenylistedWordRejected(sql, w);
  }

  /** The keyword check is lexical: a harmless column name that contains a
      denylisted keyword rejects the query too. */
  lemma ExampleUpdatedAtColumn(sql: string)
    requires sql == "select updated_at from t"
    ensures !IsSafeQuery(sql)
  {
    var w := sql[7..13];
    assert w == "update" && Lower(w) == Denylist[1];
    assert sql == sql[..7] + w + sql[13..];
    ContainsMiddle(sql[..7], w, sql[13..]);
    DenylistedWordRejected(sql, w);
  }

  /** A keyword with a character the text lacks cannot occur in it. */
  lemma MissingCharNotContained(s: string, w: string, c: char)
    requires c in w && c !in s
    ensures !Contains(s, w)
  {
  }

  /** The text "select 1" holds none of the keywords: each has a letter it lacks. */
  lemma SelectOneClean(n: string)
    requires n == "select 1"
    ensures NoKeyword(n, Denylist)
  {
    MissingCharNotContained(n, Denylist[0], 'i');
    MissingCharNotContained(n, Denylist[1], 'u');
    MissingCharNotContained(n, Denylist[2], 'd');
    MissingCharNotContained(n, Denylist[3], 'd');
    MissingCharNotContained(n, Denylist[4], 'a');
    MissingCharNotContained(n, Denylist[5], 'r');
    MissingCharNotContained(n, Denylist[6], 'r');
    MissingCharNotContained(n, Denylist[7], 'r');
    MissingCharNotContained(n, Denylist[8], 'x');
    MissingCharNotContained(n, Denylist[9], 'x');
  }

  lemma NormalizeSelectOne(sql: string)
    requires sql == "SELECT 1"
    ensures Normalize(sql) == "select 1"
  {
    var x, sp, y := sql[..6], sql[6..7], sql[7..];
    assert sql == x + sp + y;
    ReplaceRunsOutside(x, IsPcreSpace, ' ');
    ReplaceRunsWholeRun(sp, IsPcreSpace, ' ');
    ReplaceRunsOutside(y, IsPcreSpace, ' ');
    ReplaceRunsAppend(x, sp, IsPcreSpace, ' ');
    ReplaceRunsAppend(x + sp, y, IsPcreSpace, ' ');
    assert ReplaceRuns(sql, IsPcreSpace, ' ') == sql;
    var l := Lower(sql);
    assert l == "select 1";
    TrimLeftStops(l, TrimSet);
    TrimRightStops(l, TrimSet);
  }

  /** The guard lets a plain read through, and the rewriter limits it. */
  lemma ExampleSelectOne(sql: string)
    requires sql == "SELECT 1"
    ensures IsSafeQuery(sql)
    ensures AddLimit(sql, 100) == "SELECT 1 LIMIT 100"
  {
    NormalizeSelectOne(sql);
    SelectOneClean(Normalize(sql));
    NoLetterINoLimit(sql);
    TrimRightStops(sql, TailSet);
    assert NatToString(1) == "1";
    assert NatToString(10) == "10";
    assert NatToString(100) == "100";
  }

  /** A query that already limits itself passes the rewriter unchanged. */
  lemma ExampleLimitKept(sql: string)
    requires sql == "select * from t limit 10"
    ensures AddLimit(sql, 500) == sql
  {
    var rest := sql[21..];
    assert rest[0] == ' ' && rest[1] == '1';
    RunEndUnique(rest, IsPcreSpace, 1);
    assert sql[16..21] == "limit";
    LowerCase(sql[16..21]);
    assert Lower(sql[16..21]) == "limit";
    assert LimitClauseAt(sql, 16);
  }
}
