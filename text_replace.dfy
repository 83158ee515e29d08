/** The text.replace tool: one regex or literal replacement over a piece of
    text, answered with the updated text, whether it changed, and a
    whole-text unified diff preview (nothing is written anywhere).
    PCRE itself is a parameter: `replace(pattern, replacement, subject, limit)`
    stands for preg_replace and answers None where PHP answers null. */
module TextReplace {
  import opened Common
  import opened Strings

  // ---------------------------------------------------------------------------
  // The diff preview

  /** Each line with a one-character marker in front. */
  function Prefixed(c: char, lines: seq<string>): seq<string>
  {
    seq(|lines|, k requires 0 <= k < |lines| => [c] + lines[k])
  }

  /** The single hunk header, covering every line of both sides. */
  function HunkHeader(nb: nat, na: nat): string
  {
    "@@ 1," + NatToString(nb) + " 1," + NatToString(na) + " @@"
  }

  /** The preview's lines: the two file headers, the hunk header, every
      line of the old text marked '-', then every line of the new text
      marked '+'. Lines are the "\n"-separated pieces, so there is always
      at least one on each side. */
  function DiffLines(before: string, after: string, file: string): (out: seq<string>)
    ensures var b := Split(before, '\n'); var a := Split(after, '\n');
      && |b| >= 1 && |a| >= 1
      && |out| == 3 + |b| + |a|
      && out[0] == "--- a/" + file
      && out[1] == "+++ b/" + file
      && out[2] == HunkHeader(|b|, |a|)
      && (forall k | 0 <= k < |b| :: out[3 + k] == "-" + b[k])
      && (forall k | 0 <= k < |a| :: out[3 + |b| + k] == "+" + a[k])
  {
    var b := Split(before, '\n');
    var a := Split(after, '\n');
    ["--- a/" + file, "+++ b/" + file, HunkHeader(|b|, |a|)] + Prefixed('-', b) + Prefixed('+', a)
  }

  /** The preview text: the lines joined by "\n", with a final "\n". */
  function DiffText(before: string, after: string, file: string): (diff: string)
    ensures |diff| >= 1 && diff[|diff| - 1] == '\n'
  {
    Join(DiffLines(before, after, file), "\n") + "\n"
  }

  /** unifiedDiff: builds the line list with one loop per side and joins it. */
  method UnifiedDiff(before: string, after: string, file: string) returns (diff: string)
    ensures diff == DiffText(before, after, file)
  {
    var b := Split(before, '\n');
    var a := Split(after, '\n');
    var out := ["--- a/" + file, "+++ b/" + file, HunkHeader(|b|, |a|)];
    ghost var head := out;
    for k := 0 to |b|
      invariant out == head + Prefixed('-', b[..k])
    {
      out := out + ["-" + b[k]];
    }
    assert b[..|b|] == b;
    for k := 0 to |a|
      invariant out == head + Prefixed('-', b) + Prefixed('+', a[..k])
    {
      out := out + ["+" + a[k]];
    }
    assert a[..|a|] == a;
    diff := Join(out, "\n") + "\n";
  }

  // ---------------------------------------------------------------------------
  // Reading a preview back

  predicate AllDigits(s: string)
  {
    forall i | 0 <= i < |s| :: IsDigit(s[i])
  }

  /** The two line counts of a hunk header, if it has the header's shape. */
  function HunkCounts(header: string): Option<(nat, nat)>
  {
    var parts := Split(header, ' ');
    if |parts| == 4 && |parts[1]| >= 2 && |parts[2]| >= 2 && AllDigits(parts[1][2..]) && AllDigits(parts[2][2..])
    then Some((ParseNat(parts[1][2..]), ParseNat(parts[2][2..])))
    else None
  }

  /** Each line with its first character (the marker) removed. */
  function Unprefixed(lines: seq<string>): seq<string>
  {
    seq(|lines|, k requires 0 <= k < |lines| => if lines[k] == [] then [] else lines[k][1..])
  }

  /** Recovers the old and new text from a preview, using the hunk header's
      counts to tell the '-' block from the '+' block. */
  function ParseDiff(diff: string): Option<(string, string)>
  {
    var lines := Split(diff, '\n');
    if |lines| < 3 then None
    else match HunkCounts(lines[2])
      case None => None
      case Some(counts) =>
        var nb := counts.0;
        var na := counts.1;
        if |lines| < 3 + nb + na then None
        else Some((Join(Unprefixed(lines[3..3 + nb]), "\n"), Join(Unprefixed(lines[3 + nb..3 + nb + na]), "\n")))
  }

  lemma NoSpaceInDigits(x: string)
    requires AllDigits(x)
    ensures ' ' !in x && '\n' !in x
  {
    assert forall i | 0 <= i < |x| :: x[i] != ' ' && x[i] != '\n';
  }

  lemma SplitFour<T>(p0: seq<T>, p1: seq<T>, p2: seq<T>, p3: seq<T>, d: T)
    requires d !in p0 && d !in p1 && d !in p2 && d !in p3
    ensures Split(p0 + [d] + (p1 + [d] + (p2 + [d] + p3)), d) == [p0, p1, p2, p3]
  {
    SplitWithout(p3, d);
    SplitAfterPiece(p2, d, p3);
    SplitAfterPiece(p1, d, p2 + [d] + p3);
    SplitAfterPiece(p0, d, p1 + [d] + (p2 + [d] + p3));
  }

  lemma HunkCountsRoundTrip(nb: nat, na: nat)
    ensures HunkCounts(HunkHeader(nb, na)) == Some((nb, na))
  {
    var x := NatToString(nb);
    var y := NatToString(na);
    var p1 := "1," + x;
    var p2 := "1," + y;
    NoSpaceInDigits(x);
    NoSpaceInDigits(y);
    assert HunkHeader(nb, na) == "@@" + [' '] + (p1 + [' '] + (p2 + [' '] + "@@"));
    SplitFour("@@", p1, p2, "@@", ' ');
    var parts := Split(HunkHeader(nb, na), ' ');
    assert parts == ["@@", p1, p2, "@@"];
    assert parts[1][2..] == x && AllDigits(x);
    assert parts[2][2..] == y && AllDigits(y);
    ParseNatToString(nb);
    ParseNatToString(na);
  }

  lemma UnprefixedPrefixed(c: char, lines: seq<string>)
    ensures Unprefixed(Prefixed(c, lines)) == lines
  {
    forall k | 0 <= k < |lines|
      ensures Unprefixed(Prefixed(c, lines))[k] == lines[k]
    {
      assert ([c] + lines[k])[1..] == lines[k];
    }
  }

  /** Joining with one more, empty, piece adds one separator at the end. */
  lemma {:induction false} JoinEmptyLast(parts: seq<string>, sep: string)
    requires |parts| >= 1
    ensures Join(parts + [""], sep) == Join(parts, sep) + sep
    decreases |parts|
  {
    var ps := parts + [""];
    assert ps[1..] == parts[1..] + [""];
    if |parts| == 1 {
      assert Join(ps[1..], sep) == "";
    } else {
      JoinEmptyLast(parts[1..], sep);
    }
  }

  lemma DiffLinesHaveNoNewline(before: string, after: string, file: string)
    requires '\n' !in file
    ensures forall l | l in DiffLines(before, after, file) :: '\n' !in l
  {
    var b := Split(before, '\n');
    var a := Split(after, '\n');
    var out := DiffLines(before, after, file);
    NoSpaceInDigits(NatToString(|b|));
    NoSpaceInDigits(NatToString(|a|));
    assert '\n' !in HunkHeader(|b|, |a|);
    forall l | l in out
      ensures '\n' !in l
    {
      var k :| 0 <= k < |out| && out[k] == l;
      if 3 <= k < 3 + |b| {
        assert b[k - 3] in b;
      } else if 3 + |b| <= k {
        assert a[k - 3 - |b|] in a;
      }
    }
  }

  /** The preview splits back into its lines (and the empty piece after
      the final newline). */
  lemma DiffTextSplit(before: string, after: string, file: string)
    requires '\n' !in file
    ensures Split(DiffText(before, after, file), '\n') == DiffLines(before, after, file) + [""]
  {
    var out := DiffLines(before, after, file);
    DiffLinesHaveNoNewline(before, after, file);
    JoinEmptyLast(out, "\n");
    assert forall l | l in out + [""] :: '\n' !in l;
    SplitJoin(out + [""], '\n');
  }

  /** The preview is lossless: both texts can be read back from it, as long
      as the file label is a single line. */
  lemma DiffRoundTrip(before: string, after: string, file: string)
    requires '\n' !in file
    ensures ParseDiff(DiffText(before, after, file)) == Some((before, after))
  {
    var b := Split(before, '\n');
    var a := Split(after, '\n');
    var lines := Split(DiffText(before, after, file), '\n');
    DiffTextSplit(before, after, file);
    HunkCountsRoundTrip(|b|, |a|);
    assert lines[2] == HunkHeader(|b|, |a|);
    assert lines[3..3 + |b|] == Prefixed('-', b);
    assert lines[3 + |b|..3 + |b| + |a|] == Prefixed('+', a);
    UnprefixedPrefixed('-', b);
    UnprefixedPrefixed('+', a);
    JoinSplit(before, '\n');
    JoinSplit(after, '\n');
  }

  // ---------------------------------------------------------------------------
  // The replacement

  /** The pattern modifiers PCRE accepts after the closing delimiter. */
  predicate IsPcreModifier(c: char)
  {
    c in "imsxuADSUXJn"
  }

  /** The characters after the last '/' of a delimited pattern. */
  function Modifiers(rx: string): (m: string)
    ensures '/' !in m
    ensures |m| <= |rx|
  {
    if rx == [] || rx[|rx| - 1] == '/' then [] else Modifiers(rx[..|rx| - 1]) + [rx[|rx| - 1]]
  }

  predicate ValidModifiers(rx: string)
  {
    forall c | c in Modifiers(rx) :: IsPcreModifier(c)
  }

  /** An engine that, like PCRE, refuses a pattern with an unknown modifier. */
  ghost predicate RejectsUnknownModifiers(replace: (string, string, string, int) -> Option<string>)
  {
    forall rx, rep, subject, limit :: !ValidModifiers(rx) ==> replace(rx, rep, subject, limit) == None
  }

  lemma {:induction false} ModifiersAfterDelimiter(body: string, flags: string)
    requires '/' !in flags
    ensures Modifiers(body + "/" + flags) == flags
    decreases |flags|
  {
    var rx := body + "/" + flags;
    if flags != [] {
      var last := flags[|flags| - 1];
      var init := flags[..|flags| - 1];
      assert rx[..|rx| - 1] == body + "/" + init;
      assert rx[|rx| - 1] == last;
      ModifiersAfterDelimiter(body, init);
      assert init + [last] == flags;
    } else {
      assert rx[|rx| - 1] == '/';
    }
  }

  datatype ReplaceRequest = ReplaceRequest(
    pattern: string, replacement: string, text: string,
    regex: bool, global: bool, ignoreCase: bool)

  /** The pattern between slashes: as given for a regex, escaped by
      preg_quote for a literal. */
  function Delimited(req: ReplaceRequest, quote: string -> string, flags: string): (rx: string)
    ensures |rx| >= 2 && rx[0] == '/'
    ensures '/' !in flags ==> Modifiers(rx) == flags
  {
    var body := if req.regex then req.pattern else quote(req.pattern);
    var rx := "/" + body + "/" + flags;
    if '/' !in flags then ModifiersAfterDelimiter("/" + body, flags); rx else rx
  }

  /** The modifiers as the tool writes them: 'g' for a global replace and
      'i' to ignore case. */
  function FlagsAsWritten(req: ReplaceRequest): string
  {
    (if req.global then "g" else "") + (if req.ignoreCase then "i" else "")
  }

  /** The updated text as written: preg_replace with the tool's pattern,
      replacing every match, and the input again when it answers null. */
  function UpdatedAsWritten(req: ReplaceRequest, quote: string -> string,
                            replace: (string, string, string, int) -> Option<string>): (t: string)
    ensures var rx := Delimited(req, quote, FlagsAsWritten(req));
      && Modifiers(rx) == FlagsAsWritten(req)
      && ('g' in Modifiers(rx) <==> req.global)
      && (replace(rx, req.replacement, req.text, -1).None? ==> t == req.text)
      && (replace(rx, req.replacement, req.text, -1).Some? ==>
            t == replace(rx, req.replacement, req.text, -1).value)
  {
    match replace(Delimited(req, quote, FlagsAsWritten(req)), req.replacement, req.text, -1)
    case None => req.text
    case Some(t) => t
  }

  /** As written, a global replace (the default) never replaces anything:
      'g' is not a PCRE modifier, so the engine refuses the pattern and the
      text comes back unchanged. */
  lemma GlobalNeverReplaces(req: ReplaceRequest, quote: string -> string,
                            replace: (string, string, string, int) -> Option<string>)
    requires RejectsUnknownModifiers(replace)
    requires req.global
    ensures UpdatedAsWritten(req, quote, replace) == req.text
  {
    var flags := FlagsAsWritten(req);
    var rx := Delimited(req, quote, flags);
    assert 'g' in Modifiers(rx) by {
      assert flags[0] == 'g';
    }
  }

  /** The corrected modifiers: only 'i'. The code passes no limit to
      preg_replace, so every match is replaced whether or not `global` is
      set; dropping the invalid 'g' keeps that. */
  function Flags(req: ReplaceRequest): (flags: string)
    ensures forall c | c in flags :: IsPcreModifier(c)
    ensures '/' !in flags
    ensures 'i' in flags <==> req.ignoreCase
  {
    if req.ignoreCase then "i" else ""
  }

  /** The updated text: preg_replace with its default limit (-1, every
      match), or the input when the engine fails. */
  function Updated(req: ReplaceRequest, quote: string -> string,
                   replace: (string, string, string, int) -> Option<string>): (t: string)
    ensures var rx := Delimited(req, quote, Flags(req));
      && ValidModifiers(rx)
      && Modifiers(rx) == Flags(req)
      && (replace(rx, req.replacement, req.text, -1).None? ==> t == req.text)
      && (replace(rx, req.replacement, req.text, -1).Some? ==>
            t == replace(rx, req.replacement, req.text, -1).value)
  {
    var rx := Delimited(req, quote, Flags(req));
    match replace(rx, req.replacement, req.text, -1)
    case None => req.text
    case Some(t) => t
  }

  /** Without `global` the corrected and the written replacement agree, for
      every engine. */
  lemma AgreeWithoutGlobal(req: ReplaceRequest, quote: string -> string,
                           replace: (string, string, string, int) -> Option<string>)
    requires !req.global
    ensures Updated(req, quote, replace) == UpdatedAsWritten(req, quote, replace)
  {
    assert FlagsAsWritten(req) == Flags(req);
  }

  /** The corrected replacement does not depend on `global`: as in the code,
      the flag never reaches preg_replace's limit. */
  lemma UpdatedIgnoresGlobal(req: ReplaceRequest, quote: string -> string,
                             replace: (string, string, string, int) -> Option<string>)
    ensures Updated(req, quote, replace) == Updated(req.(global := !req.global), quote, replace)
  {
    assert Flags(req) == Flags(req.(global := !req.global));
  }

  datatype ReplaceResponse = ReplaceResponse(previewDiff: string, changed: bool, updatedText: string)

  /** The preview's file label. */
  const Label := "inline"

  /** The response for a replacement: the result, whether it differs from the
      input, and the preview diffing the two. */
  method Respond(text: string, after: string) returns (resp: ReplaceResponse)
    ensures resp.updatedText == after
    ensures resp.changed <==> after != text
    ensures resp.previewDiff == DiffText(text, after, Label)
    ensures ParseDiff(resp.previewDiff) == Some((text, after))
  {
    var diff := UnifiedDiff(text, after, Label);
    DiffRoundTrip(text, after, Label);
    resp := ReplaceResponse(diff, after != text, after);
  }

  /** handle as written: the pattern carries `g` for a global replace, so
      with an engine that refuses unknown modifiers the default request
      never changes anything. */
  method HandleAsWritten(req: ReplaceRequest, quote: string -> string,
                         replace: (string, string, string, int) -> Option<string>) returns (resp: ReplaceResponse)
    ensures resp.updatedText == UpdatedAsWritten(req, quote, replace)
    ensures resp.changed <==> resp.updatedText != req.text
    ensures resp.previewDiff == DiffText(req.text, resp.updatedText, Label)
    ensures ParseDiff(resp.previewDiff) == Some((req.text, resp.updatedText))
    ensures req.global && RejectsUnknownModifiers(replace) ==> !resp.changed && resp.updatedText == req.text
  {
    var after := UpdatedAsWritten(req, quote, replace);
    if req.global && RejectsUnknownModifiers(replace) {
      GlobalNeverReplaces(req, quote, replace);
    }
    resp := Respond(req.text, after);
  }

  /** handle with the corrected pattern (no `g` modifier): replace every
      match, then diff the input against the result. */
  method Handle(req: ReplaceRequest, quote: string -> string,
                replace: (string, string, string, int) -> Option<string>) returns (resp: ReplaceResponse)
    ensures resp.updatedText == Updated(req, quote, replace)
    ensures resp.changed <==> resp.updatedText != req.text
    ensures resp.previewDiff == DiffText(req.text, resp.updatedText, Label)
    ensures ParseDiff(resp.previewDiff) == Some((req.text, resp.updatedText))
  {
    resp := Respond(req.text, Updated(req, quote, replace));
  }
}
