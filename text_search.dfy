/** The text.search tool: a grep over inline text and then over files, one
    shared list of match records with optional context lines, and a cap on the
    number of records. The regex engine (`pregMatch`, applied to the compiled
    pattern and a line) and preg_quote (`quote`) are function parameters; the
    file walk is given as the list of files it yields. */
module TextSearch {
  import opened Common
  import opened Strings

  // ---------------------------------------------------------------------------
  // preg_split('/\r?\n/', text)

  /** A piece that stood before a newline loses one trailing carriage return. */
  function DropCR(piece: string): (r: string)
    ensures r <= piece
    ensures |piece| - 1 <= |r|
    ensures |r| < |piece| <==> piece != [] && piece[|piece| - 1] == '\r'
  {
    if piece != [] && piece[|piece| - 1] == '\r' then piece[..|piece| - 1] else piece
  }

  /** The lines of a text: split at every "\n" and at every "\r\n". A lone
      "\r" elsewhere stays in its line, and the piece after the last newline
      is kept even when empty. */
  function SplitLines(text: string): seq<string>
  {
    var pieces := Split(text, '\n');
    seq(|pieces|, i requires 0 <= i < |pieces| =>
      if i < |pieces| - 1 then DropCR(pieces[i]) else pieces[i])
  }

  /** One line more than there are newlines, and no line holds a newline. */
  lemma SplitLinesShape(text: string)
    ensures |SplitLines(text)| == multiset(text)['\n'] + 1
    ensures forall l | l in SplitLines(text) :: '\n' !in l
  {
    var pieces := Split(text, '\n');
    var lines := SplitLines(text);
    SplitCount(text, '\n');
    forall l | l in lines
      ensures '\n' !in l
    {
      var i :| 0 <= i < |lines| && lines[i] == l;
      assert pieces[i] in pieces;
      assert l <= pieces[i];
    }
  }

  /** For text without carriage returns the split is exact: joining the lines
      with "\n" gives the text back. */
  lemma SplitLinesRoundTrip(text: string)
    requires '\r' !in text
    ensures Join(SplitLines(text), "\n") == text
  {
    var pieces := Split(text, '\n');
    forall i | 0 <= i < |pieces|
      ensures SplitLines(text)[i] == pieces[i]
    {
      if pieces[i] != [] && i < |pieces| - 1 {
        assert pieces[i] == Split(text, '\n')[i];
        SplitPieceIn(text, '\n', i);
        assert pieces[i][|pieces[i]| - 1] in text;
      }
    }
    assert SplitLines(text) == pieces;
    JoinSplit(text, '\n');
  }

  /** Lines joined the Windows way: every line but the last followed by a
      carriage return, before the newlines go in. */
  function WithCR(lines: seq<string>): seq<string>
  {
    seq(|lines|, i requires 0 <= i < |lines| => if i < |lines| - 1 then lines[i] + "\r" else lines[i])
  }

  lemma {:induction false} JoinCRLF(lines: seq<string>)
    requires lines != []
    ensures Join(lines, "\r\n") == Join(WithCR(lines), "\n")
    decreases |lines|
  {
    if |lines| > 1 {
      JoinCRLF(lines[1..]);
      assert WithCR(lines)[1..] == WithCR(lines[1..]);
      assert WithCR(lines)[0] == lines[0] + "\r";
    }
  }

  /** CRLF text splits exactly: lines free of carriage returns and newlines,
      joined with "\r\n", split back into the same lines. */
  lemma SplitLinesCRLF(lines: seq<string>)
    requires lines != []
    requires forall l | l in lines :: '\r' !in l && '\n' !in l
    ensures SplitLines(Join(lines, "\r\n")) == lines
  {
    var ps := WithCR(lines);
    JoinCRLF(lines);
    forall p | p in ps
      ensures '\n' !in p
    {
      var i :| 0 <= i < |ps| && ps[i] == p;
      assert lines[i] in lines;
    }
    SplitJoin(ps, '\n');
    var text := Join(lines, "\r\n");
    assert Split(text, '\n') == ps;
    forall i | 0 <= i < |lines|
      ensures SplitLines(text)[i] == lines[i]
    {
      if i < |lines| - 1 {
        assert ps[i] == lines[i] + "\r";
        assert ps[i][..|ps[i]| - 1] == lines[i];
      }
    }
  }

  /** Every character of a piece occurs in the text it was split from. */
  lemma {:induction false} SplitPieceIn(s: string, d: char, i: nat)
    requires i < |Split(s, d)|
    ensures forall c | c in Split(s, d)[i] :: c in s
  {
    JoinSplit(s, d);
    JoinContains(Split(s, d), [d], i);
  }

  lemma {:induction false} JoinContains(parts: seq<string>, sep: string, i: nat)
    requires i < |parts|
    ensures forall c | c in parts[i] :: c in Join(parts, sep)
    decreases |parts|
  {
    if |parts| > 1 {
      if i > 0 {
        JoinContains(parts[1..], sep, i - 1);
        assert parts[1..][i - 1] == parts[i];
      }
    }
  }

  // ---------------------------------------------------------------------------
  // Match records

  /** One reported match: the file (none for inline text), the 1-based line,
      the column (always 1), the matched line and its context lines. */
  datatype Match = Match(file: Option<string>, line: nat, col: nat, text: string, before: seq<string>, after: seq<string>)

  /** array_slice(lines, offset, length) for offset >= 0 and length > 0. */
  function Slice(lines: seq<string>, offset: nat, length: nat): seq<string>
  {
    var lo := Min(offset, |lines|);
    lines[lo..Min(lo + length, |lines|)]
  }

  /** The before-context: nothing when the count is not positive, else the
      slice of up to `before` lines starting `before` lines above the match,
      clamped at the top of the text. */
  function Before(lines: seq<string>, i: nat, before: int): seq<string>
  {
    if before > 0 then Slice(lines, Max(0, i - before), before) else []
  }

  /** The after-context: nothing when the count is not positive, else the
      slice of up to `after` lines right below the match. */
  function After(lines: seq<string>, i: nat, after: int): seq<string>
  {
    if after > 0 then Slice(lines, i + 1, after) else []
  }

  /** The context windows of a match at line index i: empty for a count that
      is not positive, otherwise at most that many lines, taken from the
      clamped start above the match and from right below it. */
  lemma ContextWindows(lines: seq<string>, i: nat, before: int, after: int)
    requires i < |lines|
    ensures before <= 0 ==> Before(lines, i, before) == []
    ensures before > 0 ==>
      && |Before(lines, i, before)| <= before
      && Before(lines, i, before) == lines[Max(0, i - before)..Min(Max(0, i - before) + before, |lines|)]
    ensures after <= 0 ==> After(lines, i, after) == []
    ensures after > 0 ==>
      && |After(lines, i, after)| <= after
      && After(lines, i, after) == lines[i + 1..Min(i + 1 + after, |lines|)]
  {
  }

  /** Away from the top, the before-context is exactly the `before` lines
      preceding the match. */
  lemma BeforeIsPreceding(lines: seq<string>, i: nat, before: int)
    requires 0 < before <= i < |lines|
    ensures Before(lines, i, before) == lines[i - before..i]
  {
  }

  /** Near the top the window is clamped at line 0 but keeps its length, so
      it reaches down to the matched line itself and past it. */
  lemma BeforeNearTopHoldsMatch(lines: seq<string>, i: nat, before: int)
    requires 0 <= i < before && i < |lines|
    ensures Before(lines, i, before) == lines[..Min(before, |lines|)]
    ensures |Before(lines, i, before)| > i && Before(lines, i, before)[i] == lines[i]
  {
  }

  /** The record for line index i. */
  function MatchAt(file: Option<string>, lines: seq<string>, i: nat, before: int, after: int): Match
    requires i < |lines|
  {
    Match(file, i + 1, 1, lines[i], Before(lines, i, before), After(lines, i, after))
  }

  // ---------------------------------------------------------------------------
  // The matches of one source, and of the whole search

  /** The records of the matching lines at index i and below, in line order. */
  function MatchesFrom(file: Option<string>, lines: seq<string>, pregMatch: (string, string) -> bool, regex: string,
                       before: int, after: int, i: nat): seq<Match>
    decreases |lines| - i
  {
    if i >= |lines| then []
    else
      (if pregMatch(regex, lines[i]) then [MatchAt(file, lines, i, before, after)] else [])
      + MatchesFrom(file, lines, pregMatch, regex, before, after, i + 1)
  }

  /** Every record describes a matching line at or below index i: its number,
      its text and its context are those of that line. */
  lemma {:induction false} MatchesSound(file: Option<string>, lines: seq<string>, pregMatch: (string, string) -> bool,
                                        regex: string, before: int, after: int, i: nat)
    ensures forall m | m in MatchesFrom(file, lines, pregMatch, regex, before, after, i) ::
      && i < m.line <= |lines|
      && pregMatch(regex, lines[m.line - 1])
      && m == MatchAt(file, lines, m.line - 1, before, after)
    decreases |lines| - i
  {
    if i < |lines| {
      MatchesSound(file, lines, pregMatch, regex, before, after, i + 1);
    }
  }

  /** Every matching line at or below index i has its record. */
  lemma {:induction false} MatchesComplete(file: Option<string>, lines: seq<string>, pregMatch: (string, string) -> bool,
                                           regex: string, before: int, after: int, i: nat)
    ensures forall k | i <= k < |lines| && pregMatch(regex, lines[k]) ::
      MatchAt(file, lines, k, before, after) in MatchesFrom(file, lines, pregMatch, regex, before, after, i)
    decreases |lines| - i
  {
    if i < |lines| {
      MatchesComplete(file, lines, pregMatch, regex, before, after, i + 1);
    }
  }

  lemma {:induction false} MatchesBelow(file: Option<string>, lines: seq<string>, pregMatch: (string, string) -> bool,
                                        regex: string, before: int, after: int, i: nat)
    ensures forall m | m in MatchesFrom(file, lines, pregMatch, regex, before, after, i) :: i < m.line
    decreases |lines| - i
  {
    if i < |lines| {
      MatchesBelow(file, lines, pregMatch, regex, before, after, i + 1);
    }
  }

  predicate Ascending(ms: seq<Match>)
  {
    forall p, q | 0 <= p < q < |ms| :: ms[p].line < ms[q].line
  }

  /** Line numbers strictly ascend along one source's records. */
  lemma {:induction false} MatchesAscending(file: Option<string>, lines: seq<string>, pregMatch: (string, string) -> bool,
                                            regex: string, before: int, after: int, i: nat)
    ensures Ascending(MatchesFrom(file, lines, pregMatch, regex, before, after, i))
    decreases |lines| - i
  {
    if i < |lines| {
      var rest := MatchesFrom(file, lines, pregMatch, regex, before, after, i + 1);
      MatchesAscending(file, lines, pregMatch, regex, before, after, i + 1);
      MatchesBelow(file, lines, pregMatch, regex, before, after, i + 1);
      if pregMatch(regex, lines[i]) {
        AscendingCons(MatchAt(file, lines, i, before, after), rest);
      }
    }
  }

  /** A record above every record of an ascending list extends it. */
  lemma AscendingCons(m: Match, rest: seq<Match>)
    requires Ascending(rest)
    requires forall r | r in rest :: m.line < r.line
    ensures Ascending([m] + rest)
  {
    var ms := [m] + rest;
    forall p, q | 0 <= p < q < |ms|
      ensures ms[p].line < ms[q].line
    {
      assert ms[q] == rest[q - 1];
      if p == 0 {
        assert rest[q - 1] in rest;
      } else {
        assert ms[p] == rest[p - 1];
      }
    }
  }

  /** Every record of one source carries that source's file field. */
  lemma {:induction false} MatchesFile(file: Option<string>, lines: seq<string>, pregMatch: (string, string) -> bool,
                                       regex: string, before: int, after: int, i: nat)
    ensures forall m | m in MatchesFrom(file, lines, pregMatch, regex, before, after, i) :: m.file == file && m.col == 1
    decreases |lines| - i
  {
    if i < |lines| {
      MatchesFile(file, lines, pregMatch, regex, before, after, i + 1);
    }
  }

  /** A file the walk yields: the path as reported, and its contents, absent
      when the file cannot be read (such files are skipped). */
  datatype SourceText = SourceText(name: string, contents: Option<string>)

  function FileMatches(f: SourceText, pregMatch: (string, string) -> bool, regex: string, before: int, after: int): seq<Match>
  {
    match f.contents
    case None => []
    case Some(c) => MatchesFrom(Some(f.name), SplitLines(c), pregMatch, regex, before, after, 0)
  }

  /** The records of files j and later, file by file in walk order. */
  function FilesFrom(files: seq<SourceText>, pregMatch: (string, string) -> bool, regex: string,
                     before: int, after: int, j: nat): seq<Match>
    decreases |files| - j
  {
    if j >= |files| then []
    else FileMatches(files[j], pregMatch, regex, before, after) + FilesFrom(files, pregMatch, regex, before, after, j + 1)
  }

  function InlineMatches(text: Option<string>, pregMatch: (string, string) -> bool, regex: string, before: int, after: int): seq<Match>
  {
    match text
    case None => []
    case Some(t) => MatchesFrom(None, SplitLines(t), pregMatch, regex, before, after, 0)
  }

  /** Everything the search would report without a cap: inline text first,
      then the files. */
  function AllMatches(text: Option<string>, files: seq<SourceText>, pregMatch: (string, string) -> bool, regex: string,
                      before: int, after: int): seq<Match>
  {
    InlineMatches(text, pregMatch, regex, before, after) + FilesFrom(files, pregMatch, regex, before, after, 0)
  }

  lemma {:induction false} FilesFromNamed(files: seq<SourceText>, pregMatch: (string, string) -> bool, regex: string,
                                          before: int, after: int, j: nat)
    ensures forall m | m in FilesFrom(files, pregMatch, regex, before, after, j) :: m.file.Some?
    decreases |files| - j
  {
    if j < |files| {
      FilesFromNamed(files, pregMatch, regex, before, after, j + 1);
      if files[j].contents.Some? {
        MatchesFile(Some(files[j].name), SplitLines(files[j].contents.value), pregMatch, regex, before, after, 0);
      }
    }
  }

  /** Inline matches come before every file match: once a record names a
      file, no inline record follows. */
  lemma InlineBeforeFiles(text: Option<string>, files: seq<SourceText>, pregMatch: (string, string) -> bool, regex: string,
                          before: int, after: int)
    ensures var all := AllMatches(text, files, pregMatch, regex, before, after);
      forall p, q | 0 <= p < q < |all| :: all[p].file.Some? ==> all[q].file.Some?
  {
    var inl := InlineMatches(text, pregMatch, regex, before, after);
    var fs := FilesFrom(files, pregMatch, regex, before, after, 0);
    if text.Some? {
      MatchesFile(None, SplitLines(text.value), pregMatch, regex, before, after, 0);
    }
    FilesFromNamed(files, pregMatch, regex, before, after, 0);
    var all := inl + fs;
    assert forall p | 0 <= p < |inl| :: all[p] == inl[p] && inl[p] in inl;
    forall p, q | 0 <= p < q < |all| && all[p].file.Some?
      ensures all[q].file.Some?
    {
      assert all[q] == fs[q - |inl|];
      assert fs[q - |inl|] in fs;
    }
  }

  // ---------------------------------------------------------------------------
  // The search loops

  /** The inner loop's outcome, step by step: the list after scanning lines
      i and below of one source starting from `found`, and whether the cap
      stopped it. */
  function SourceScan(found: seq<Match>, file: Option<string>, lines: seq<string>, pregMatch: (string, string) -> bool,
                      regex: string, maxMatches: int, before: int, after: int, i: nat): (seq<Match>, bool)
    decreases |lines| - i
  {
    if i >= |lines| then (found, false)
    else if pregMatch(regex, lines[i]) then
      var next := found + [MatchAt(file, lines, i, before, after)];
      if |next| >= maxMatches then (next, true)
      else SourceScan(next, file, lines, pregMatch, regex, maxMatches, before, after, i + 1)
    else SourceScan(found, file, lines, pregMatch, regex, maxMatches, before, after, i + 1)
  }

  /** Scanning one source appends its records under the cap: the list is the
      capped concatenation, and the scan stops early exactly when the
      concatenation reaches the cap. */
  lemma {:induction false} SourceScanCapped(found: seq<Match>, file: Option<string>, lines: seq<string>,
                                            pregMatch: (string, string) -> bool, regex: string, maxMatches: int,
                                            before: int, after: int, i: nat)
    requires |found| < Max(maxMatches, 1)
    ensures var whole := found + MatchesFrom(file, lines, pregMatch, regex, before, after, i);
      SourceScan(found, file, lines, pregMatch, regex, maxMatches, before, after, i)
        == (Capped(whole, maxMatches), |whole| >= Max(maxMatches, 1))
    decreases |lines| - i
  {
    if i < |lines| {
      var rest := MatchesFrom(file, lines, pregMatch, regex, before, after, i + 1);
      if pregMatch(regex, lines[i]) {
        var next := found + [MatchAt(file, lines, i, before, after)];
        assert found + MatchesFrom(file, lines, pregMatch, regex, before, after, i) == next + rest;
        if |next| >= maxMatches {
          assert |next| == Max(maxMatches, 1);
        } else {
          SourceScanCapped(next, file, lines, pregMatch, regex, maxMatches, before, after, i + 1);
        }
      } else {
        assert MatchesFrom(file, lines, pregMatch, regex, before, after, i) == rest;
        SourceScanCapped(found, file, lines, pregMatch, regex, maxMatches, before, after, i + 1);
      }
    }
  }

  /** The outer loop's outcome: the list after scanning files j and later. */
  function FilesScan(found: seq<Match>, files: seq<SourceText>, pregMatch: (string, string) -> bool, regex: string,
                     maxMatches: int, before: int, after: int, j: nat): (seq<Match>, bool)
    decreases |files| - j
  {
    if j >= |files| then (found, false)
    else match files[j].contents
      case None => FilesScan(found, files, pregMatch, regex, maxMatches, before, after, j + 1)
      case Some(c) =>
        var r := SourceScan(found, Some(files[j].name), SplitLines(c), pregMatch, regex, maxMatches, before, after, 0);
        if r.1 then r else FilesScan(r.0, files, pregMatch, regex, maxMatches, before, after, j + 1)
  }

  /** Appending more records after a full list changes nothing; after a
      list that is not full it continues the same capped list. */
  lemma CappedConcat<T>(found: seq<T>, a: seq<T>, b: seq<T>, cap: int)
    ensures |found + a| >= Max(cap, 1) ==>
      Capped(found + a, cap) == Capped(found + (a + b), cap) && |found + (a + b)| >= Max(cap, 1)
    ensures (found + a) + b == found + (a + b)
  {
    assert (found + a) + b == found + (a + b);
  }

  lemma {:induction false} FilesScanCapped(found: seq<Match>, files: seq<SourceText>, pregMatch: (string, string) -> bool,
                                           regex: string, maxMatches: int, before: int, after: int, j: nat)
    requires |found| < Max(maxMatches, 1)
    ensures var whole := found + FilesFrom(files, pregMatch, regex, before, after, j);
      FilesScan(found, files, pregMatch, regex, maxMatches, before, after, j)
        == (Capped(whole, maxMatches), |whole| >= Max(maxMatches, 1))
    decreases |files| - j
  {
    if j < |files| {
      var here := FileMatches(files[j], pregMatch, regex, before, after);
      var later := FilesFrom(files, pregMatch, regex, before, after, j + 1);
      assert FilesFrom(files, pregMatch, regex, before, after, j) == here + later;
      CappedConcat(found, here, later, maxMatches);
      if files[j].contents.None? {
        assert here == [];
        assert found + here == found;
        FilesScanCapped(found, files, pregMatch, regex, maxMatches, before, after, j + 1);
      } else {
        var lines := SplitLines(files[j].contents.value);
        assert here == MatchesFrom(Some(files[j].name), lines, pregMatch, regex, before, after, 0);
        SourceScanCapped(found, Some(files[j].name), lines, pregMatch, regex, maxMatches, before, after, 0);
        if |found + here| < Max(maxMatches, 1) {
          FilesScanCapped(found + here, files, pregMatch, regex, maxMatches, before, after, j + 1);
        }
      }
    }
  }

  /** The inner loop over one source's lines: appends the record of every
      matching line to `found0` and stops as soon as the list holds
      max_matches records (`full`). */
  method ScanSource(file: Option<string>, lines: seq<string>, pregMatch: (string, string) -> bool, regex: string,
                    maxMatches: int, before: int, after: int, found0: seq<Match>) returns (found: seq<Match>, full: bool)
    requires |found0| < Max(maxMatches, 1)
    ensures var whole := found0 + MatchesFrom(file, lines, pregMatch, regex, before, after, 0);
      found == Capped(whole, maxMatches) && (full <==> |whole| >= Max(maxMatches, 1))
  {
    found := found0;
    var i := 0;
    while i < |lines|
      invariant 0 <= i <= |lines|
      invariant SourceScan(found, file, lines, pregMatch, regex, maxMatches, before, after, i)
        == SourceScan(found0, file, lines, pregMatch, regex, maxMatches, before, after, 0)
    {
      if pregMatch(regex, lines[i]) {
        found := found + [MatchAt(file, lines, i, before, after)];
        if |found| >= maxMatches {
          full := true;
          SourceScanCapped(found0, file, lines, pregMatch, regex, maxMatches, before, after, 0);
          return;
        }
      }
      i := i + 1;
    }
    full := false;
    SourceScanCapped(found0, file, lines, pregMatch, regex, maxMatches, before, after, 0);
  }

  /** The outer file loop: scans every readable file in walk order,
      skipping unreadable ones, and stops as soon as the list is full. */
  method ScanFiles(files: seq<SourceText>, pregMatch: (string, string) -> bool, regex: string,
                   maxMatches: int, before: int, after: int, found0: seq<Match>) returns (found: seq<Match>, full: bool)
    requires |found0| < Max(maxMatches, 1)
    ensures var whole := found0 + FilesFrom(files, pregMatch, regex, before, after, 0);
      found == Capped(whole, maxMatches) && (full <==> |whole| >= Max(maxMatches, 1))
  {
    found := found0;
    var j := 0;
    while j < |files|
      invariant 0 <= j <= |files|
      invariant |found| < Max(maxMatches, 1)
      invariant FilesScan(found, files, pregMatch, regex, maxMatches, before, after, j)
        == FilesScan(found0, files, pregMatch, regex, maxMatches, before, after, 0)
    {
      var f := files[j];
      if f.contents.Some? {
        var lines := SplitLines(f.contents.value);
        ghost var prior := found;
        found, full := ScanSource(Some(f.name), lines, pregMatch, regex, maxMatches, before, after, found);
        SourceScanCapped(prior, Some(f.name), lines, pregMatch, regex, maxMatches, before, after, 0);
        if full {
          FilesScanCapped(found0, files, pregMatch, regex, maxMatches, before, after, 0);
          return;
        }
      }
      j := j + 1;
    }
    full := false;
    FilesScanCapped(found0, files, pregMatch, regex, maxMatches, before, after, 0);
  }

  /** The tool's two loops over one shared list: the inline text first, then
      every readable file in walk order; the search returns as soon as the
      list holds max_matches records. */
  method Search(text: Option<string>, files: seq<SourceText>, pregMatch: (string, string) -> bool, regex: string,
                maxMatches: int, before: int, after: int) returns (found: seq<Match>)
    ensures found == Capped(AllMatches(text, files, pregMatch, regex, before, after), maxMatches)
  {
    var inline := InlineMatches(text, pregMatch, regex, before, after);
    ghost var fileAll := FilesFrom(files, pregMatch, regex, before, after, 0);
    found := [];
    var full := false;
    if text.Some? {
      found, full := ScanSource(None, SplitLines(text.value), pregMatch, regex, maxMatches, before, after, found);
      if full {
        CappedConcat([], inline, fileAll, maxMatches);
        assert [] + inline == inline;
        return;
      }
    }
    assert found == inline;
    found, full := ScanFiles(files, pregMatch, regex, maxMatches, before, after, found);
  }

  // ---------------------------------------------------------------------------
  // handle

  /** The compiled pattern: the pattern itself, or its preg_quote escape for a
      fixed-string search, between slashes, with the i flag to ignore case. */
  function Regex(pattern: string, fixed: bool, ignoreCase: bool, quote: string -> string): (rx: string)
    ensures |rx| >= 2 && rx[0] == '/'
    ensures ignoreCase <==> rx[|rx| - 1] == 'i'
    ensures var end := |rx| - (if ignoreCase then 2 else 1);
      && 1 <= end && rx[end] == '/'
      && rx[1..end] == (if fixed then quote(pattern) else pattern)
  {
    var body := if fixed then quote(pattern) else pattern;
    "/" + body + "/" + (if ignoreCase then "i" else "")
  }

  datatype SearchRequest = SearchRequest(
    pattern: string, fixed: bool, ignoreCase: bool, text: Option<string>,
    maxMatches: int, before: int, after: int)

  method Handle(req: SearchRequest, files: seq<SourceText>, quote: string -> string, pregMatch: (string, string) -> bool)
    returns (matches: seq<Match>)
    ensures var rx := Regex(req.pattern, req.fixed, req.ignoreCase, quote);
      matches == Capped(AllMatches(req.text, files, pregMatch, rx, req.before, req.after), req.maxMatches)
  {
    var rx := Regex(req.pattern, req.fixed, req.ignoreCase, quote);
    matches := Search(req.text, files, pregMatch, rx, req.maxMatches, req.before, req.after);
  }
}
