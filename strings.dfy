/** The string primitives the tools lean on, written out: PHP's explode and
    implode, strtolower, trim/rtrim, str_contains, the decimal rendering of an
    integer, and the "replace each maximal run of a character class by one
    character" that the tools perform with preg_replace. */
module Strings {

  // ---------------------------------------------------------------------------
  // Character classes (PCRE without the u modifier, C locale)

  predicate IsDigit(c: char) { '0' <= c <= '9' }

  predicate IsUpper(c: char) { 'A' <= c <= 'Z' }

  predicate IsLowerLetter(c: char) { 'a' <= c <= 'z' }

  /** PCRE's \w: [a-zA-Z0-9_]. */
  predicate IsWordChar(c: char) { IsLowerLetter(c) || IsUpper(c) || IsDigit(c) || c == '_' }

  /** PCRE's \s: space, tab, line feed, vertical tab, form feed, carriage return. */
  predicate IsPcreSpace(c: char)
  {
    c == ' ' || c == '\t' || c == '\n' || c == '\r' || c as int == 11 || c as int == 12
  }

  // ---------------------------------------------------------------------------
  // explode / implode

  /** explode(d, s) for a one-element delimiter: the pieces between the
      occurrences of d, one more piece than there are occurrences. */
  function Split<T(==)>(s: seq<T>, d: T): (parts: seq<seq<T>>)
    ensures |parts| >= 1
    ensures forall p | p in parts :: d !in p
  {
    if s == [] then [[]]
    else
      var rest := Split(s[1..], d);
      assert s == [s[0]] + s[1..];
      if s[0] == d then [[]] + rest else [[s[0]] + rest[0]] + rest[1..]
  }

  /** There is one more piece than there are occurrences of the delimiter. */
  lemma {:induction false} SplitCount<T>(s: seq<T>, d: T)
    ensures |Split(s, d)| == multiset(s)[d] + 1
  {
    if s != [] {
      SplitCount(s[1..], d);
      assert s == [s[0]] + s[1..];
    }
  }

  /** implode(sep, parts). */
  function Join<T>(parts: seq<seq<T>>, sep: seq<T>): seq<T>
  {
    if parts == [] then []
    else if |parts| == 1 then parts[0]
    else parts[0] + sep + Join(parts[1..], sep)
  }

  /** Joining the pieces with the delimiter gives the text back. */
  lemma {:induction false} JoinSplit<T>(s: seq<T>, d: T)
    ensures Join(Split(s, d), [d]) == s
  {
    if s != [] {
      var rest := Split(s[1..], d);
      JoinSplit(s[1..], d);
      if s[0] == d {
        assert Split(s, d) == [[]] + rest;
        assert ([[]] + rest)[1..] == rest;
      } else {
        var parts := [[s[0]] + rest[0]] + rest[1..];
        assert Split(s, d) == parts;
        if |rest| > 1 {
          assert parts[1..] == rest[1..];
          assert Join(rest, [d]) == rest[0] + [d] + Join(rest[1..], [d]);
        }
      }
    }
  }

  lemma {:induction false} SplitWithout<T>(a: seq<T>, d: T)
    requires d !in a
    ensures Split(a, d) == [a]
  {
    if a != [] {
      SplitWithout(a[1..], d);
      assert [a[0]] + a[1..] == a;
    }
  }

  lemma {:induction false} SplitAfterPiece<T>(a: seq<T>, d: T, b: seq<T>)
    requires d !in a
    ensures Split(a + [d] + b, d) == [a] + Split(b, d)
  {
    if a == [] {
      assert a + [d] + b == [d] + b;
      assert ([d] + b)[1..] == b;
    } else {
      assert (a + [d] + b)[1..] == a[1..] + [d] + b;
      SplitAfterPiece(a[1..], d, b);
      assert [a[0]] + a[1..] == a;
    }
  }

  /** Splitting pieces that were joined with the delimiter gives the pieces back,
      provided no piece contains the delimiter. */
  lemma {:induction false} SplitJoin<T>(parts: seq<seq<T>>, d: T)
    requires |parts| >= 1
    requires forall p | p in parts :: d !in p
    ensures Split(Join(parts, [d]), d) == parts
  {
    if |parts| == 1 {
      SplitWithout(parts[0], d);
    } else {
      SplitJoin(parts[1..], d);
      SplitAfterPiece(parts[0], d, Join(parts[1..], [d]));
      assert [parts[0]] + parts[1..] == parts;
    }
  }

  // ---------------------------------------------------------------------------
  // Runs

  /** The length of the longest prefix of s whose elements all satisfy p. */
  function RunEnd<T>(s: seq<T>, p: T -> bool): (k: nat)
    ensures k <= |s|
    ensures forall i | 0 <= i < k :: p(s[i])
    ensures k < |s| ==> !p(s[k])
  {
    if s == [] || !p(s[0]) then 0 else 1 + RunEnd(s[1..], p)
  }

  lemma RunEndUnique<T>(s: seq<T>, p: T -> bool, k: nat)
    requires k <= |s|
    requires forall i | 0 <= i < k :: p(s[i])
    requires k < |s| ==> !p(s[k])
    ensures RunEnd(s, p) == k
  {
  }

  lemma RunEndAppend<T>(a: seq<T>, b: seq<T>, p: T -> bool)
    ensures RunEnd(a + b, p) == if RunEnd(a, p) < |a| then RunEnd(a, p) else |a| + RunEnd(b, p)
  {
    var k := RunEnd(a, p);
    if k < |a| {
      RunEndUnique(a + b, p, k);
    } else {
      var m := RunEnd(b, p);
      assert forall i | 0 <= i < |a| + m :: p((a + b)[i]) by {
        forall i | 0 <= i < |a| + m ensures p((a + b)[i]) {
          if i >= |a| { assert (a + b)[i] == b[i - |a|]; }
        }
      }
      if |a| + m < |a + b| { assert (a + b)[|a| + m] == b[m]; }
      RunEndUnique(a + b, p, |a| + m);
    }
  }

  /** Every maximal run of elements satisfying p replaced by the single element
      rep; preg_replace('/[class]+/', rep, s) does this for a character class. */
  function ReplaceRuns<T(==)>(s: seq<T>, p: T -> bool, rep: T): (r: seq<T>)
    ensures |r| <= |s|
    ensures r == [] <==> s == []
    ensures forall i | 0 <= i < |r| :: r[i] == rep || !p(r[i])
    decreases |s|
  {
    if s == [] then []
    else if p(s[0]) then
      var k := RunEnd(s, p);
      var tail := ReplaceRuns(s[k..], p, rep);
      [rep] + tail
    else
      var tail := ReplaceRuns(s[1..], p, rep);
      [s[0]] + tail
  }

  /** A text with no element of the class is left as it is. */
  lemma {:induction false} ReplaceRunsOutside<T>(s: seq<T>, p: T -> bool, rep: T)
    requires forall i | 0 <= i < |s| :: !p(s[i])
    ensures ReplaceRuns(s, p, rep) == s
  {
    if s != [] {
      ReplaceRunsOutside(s[1..], p, rep);
      assert [s[0]] + s[1..] == s;
    }
  }

  /** No two neighbours both in the class p. */
  predicate NoAdjacent<T>(r: seq<T>, p: T -> bool)
  {
    forall i | 0 <= i < |r| - 1 :: !p(r[i]) || !p(r[i + 1])
  }

  lemma NoAdjacentCons<T>(x: T, tail: seq<T>, p: T -> bool)
    requires NoAdjacent(tail, p)
    requires tail == [] || !p(x) || !p(tail[0])
    ensures NoAdjacent([x] + tail, p)
  {
    var r := [x] + tail;
    forall i | 0 <= i < |r| - 1
      ensures !p(r[i]) || !p(r[i + 1])
    {
      if i > 0 {
        assert r[i] == tail[i - 1] && r[i + 1] == tail[i];
      }
    }
  }

  /** When rep itself belongs to the class, no two class elements are left
      next to each other: every run has collapsed. */
  lemma {:induction false} ReplaceRunsNoAdjacent<T>(s: seq<T>, p: T -> bool, rep: T)
    requires p(rep)
    ensures NoAdjacent(ReplaceRuns(s, p, rep), p)
    decreases |s|
  {
    if s != [] {
      if p(s[0]) {
        var k := RunEnd(s, p);
        var tail := ReplaceRuns(s[k..], p, rep);
        ReplaceRunsNoAdjacent(s[k..], p, rep);
        if k < |s| {
          assert s[k..][0] == s[k];
          assert tail[0] == s[k];
        }
        NoAdjacentCons(rep, tail, p);
      } else {
        ReplaceRunsNoAdjacent(s[1..], p, rep);
        NoAdjacentCons(s[0], ReplaceRuns(s[1..], p, rep), p);
      }
    }
  }

  /** A non-empty run of the class becomes one rep. */
  lemma ReplaceRunsWholeRun<T>(s: seq<T>, p: T -> bool, rep: T)
    requires s != []
    requires forall i | 0 <= i < |s| :: p(s[i])
    ensures ReplaceRuns(s, p, rep) == [rep]
  {
    RunEndUnique(s, p, |s|);
    assert s[|s|..] == [];
  }

  /** The replacement works piecewise: cutting the text where a run cannot be
      split (one side is empty, or ends or starts outside the class) commutes
      with it. */
  lemma {:induction false} ReplaceRunsAppend<T>(a: seq<T>, b: seq<T>, p: T -> bool, rep: T)
    requires a == [] || b == [] || !p(a[|a| - 1]) || !p(b[0])
    ensures ReplaceRuns(a + b, p, rep) == ReplaceRuns(a, p, rep) + ReplaceRuns(b, p, rep)
    decreases |a|, 1
  {
    if a == [] {
      assert a + b == b;
    } else if b == [] {
      assert a + b == a;
    } else if p(a[0]) {
      ReplaceRunsAppendRun(a, b, p, rep);
    } else {
      assert (a + b)[1..] == a[1..] + b;
      ReplaceRunsAppend(a[1..], b, p, rep);
    }
  }

  /** The case where the text starts with a run: the run ends inside the
      first piece, or exactly at the cut. */
  lemma {:induction false} ReplaceRunsAppendRun<T>(a: seq<T>, b: seq<T>, p: T -> bool, rep: T)
    requires a != [] && b != [] && p(a[0])
    requires !p(a[|a| - 1]) || !p(b[0])
    ensures ReplaceRuns(a + b, p, rep) == ReplaceRuns(a, p, rep) + ReplaceRuns(b, p, rep)
    decreases |a|, 0
  {
    var k := RunEnd(a, p);
    RunEndAppend(a, b, p);
    if k == |a| {
      assert RunEnd(b, p) == 0;
    }
    assert (a + b)[k..] == a[k..] + b;
    ReplaceRunsAppend(a[k..], b, p, rep);
  }

  // ---------------------------------------------------------------------------
  // strtolower: ASCII letters only, as in PHP 8.2 and later (earlier
  // versions follow the C locale's case table)

  function LowerChar(c: char): char
  {
    if IsUpper(c) then (c as int + 32) as char else c
  }

  function Lower(s: string): (r: string)
    ensures |r| == |s|
    ensures forall i | 0 <= i < |s| :: r[i] == LowerChar(s[i])
  {
    seq(|s|, i requires 0 <= i < |s| => LowerChar(s[i]))
  }

  /** What strtolower promises: no uppercase ASCII letter survives, the only
      characters that change are uppercase letters, each to its lowercase
      partner, and lowering again changes nothing. */
  lemma LowerCase(s: string)
    ensures forall i | 0 <= i < |s| :: !IsUpper(Lower(s)[i])
    ensures forall i | 0 <= i < |s| :: Lower(s)[i] != s[i] ==>
      IsUpper(s[i]) && IsLowerLetter(Lower(s)[i]) && Lower(s)[i] as int - s[i] as int == 'a' as int - 'A' as int
    ensures forall i | 0 <= i < |s| :: IsUpper(s[i]) ==> Lower(s)[i] != s[i]
    ensures Lower(Lower(s)) == Lower(s)
  {
  }

  lemma LowerAppend(a: string, b: string)
    ensures Lower(a + b) == Lower(a) + Lower(b)
  {
    assert forall i | 0 <= i < |a + b| :: Lower(a + b)[i] == (Lower(a) + Lower(b))[i];
  }

  // ---------------------------------------------------------------------------
  // str_contains, trim, rtrim

  predicate Contains<T(==)>(s: seq<T>, w: seq<T>)
  {
    exists i | 0 <= i <= |s| :: w <= s[i..]
  }

  lemma ContainsMiddle<T>(x: seq<T>, w: seq<T>, y: seq<T>)
    ensures Contains(x + w + y, w)
  {
    assert (x + w + y)[|x|..] == w + y;
  }

  /** ltrim(s, cs): drops the leading elements that belong to cs. */
  function TrimLeft<T(==)>(s: seq<T>, cs: set<T>): (r: seq<T>)
    ensures |r| <= |s| && r == s[|s| - |r|..]
    ensures forall i | 0 <= i < |s| - |r| :: s[i] in cs
    ensures r != [] ==> r[0] !in cs
  {
    if s != [] && s[0] in cs then TrimLeft(s[1..], cs) else s
  }

  /** rtrim(s, cs): drops the trailing elements that belong to cs. */
  function TrimRight<T(==)>(s: seq<T>, cs: set<T>): (r: seq<T>)
    ensures r <= s
    ensures forall i | |r| <= i < |s| :: s[i] in cs
    ensures r != [] ==> r[|r| - 1] !in cs
  {
    if s != [] && s[|s| - 1] in cs then TrimRight(s[..|s| - 1], cs) else s
  }

  /** Trimming stops at an element outside the set. */
  lemma TrimLeftStops<T>(s: seq<T>, cs: set<T>)
    requires s != [] && s[0] !in cs
    ensures TrimLeft(s, cs) == s
  {
  }

  lemma TrimRightStops<T>(s: seq<T>, cs: set<T>)
    requires s != [] && s[|s| - 1] !in cs
    ensures TrimRight(s, cs) == s
  {
  }

  /** trim(s, cs). */
  function Trim<T(==)>(s: seq<T>, cs: set<T>): seq<T>
  {
    TrimRight(TrimLeft(s, cs), cs)
  }

  lemma TrimRightPrefix<T>(s: seq<T>, cs: set<T>)
    ensures |TrimRight(s, cs)| <= |s|
    ensures forall i | 0 <= i < |TrimRight(s, cs)| :: TrimRight(s, cs)[i] == s[i]
  {
  }

  lemma TrimLeftSuffix<T>(s: seq<T>, cs: set<T>)
    ensures forall i | 0 <= i < |TrimLeft(s, cs)| :: TrimLeft(s, cs)[i] == s[|s| - |TrimLeft(s, cs)| + i]
  {
  }

  /** A trimmed text is a slice of the input, starting after the leading
      trimmed elements, that neither starts nor ends with a trimmed element. */
  lemma TrimSlice<T>(s: seq<T>, cs: set<T>)
    ensures |s| - |TrimLeft(s, cs)| + |Trim(s, cs)| <= |s|
    ensures forall i | 0 <= i < |Trim(s, cs)| :: Trim(s, cs)[i] == s[|s| - |TrimLeft(s, cs)| + i]
    ensures Trim(s, cs) != [] ==> Trim(s, cs)[0] !in cs && Trim(s, cs)[|Trim(s, cs)| - 1] !in cs
  {
    var l := TrimLeft(s, cs);
    TrimRightPrefix(l, cs);
    TrimLeftSuffix(s, cs);
    if Trim(s, cs) != [] {
      assert Trim(s, cs)[0] == l[0];
    }
  }

  /** A piece whose first and last elements are not trimmed survives trimming. */
  lemma TrimKeepsInner(x: string, w: string, y: string, cs: set<char>)
    requires w != [] && w[0] !in cs && w[|w| - 1] !in cs
    ensures Contains(Trim(x + w + y, cs), w)
  {
    var s := x + w + y;
    TrimLeftKeeps(x, w, y, cs);
    var u := x[|s| - |TrimLeft(s, cs)|..];
    TrimRightKeeps(u, w, y, cs);
  }

  /** ltrim stops at the first element of a piece that does not start with a
      trimmed element. */
  lemma TrimLeftKeeps(x: string, w: string, y: string, cs: set<char>)
    requires w != [] && w[0] !in cs
    ensures |x + w + y| - |TrimLeft(x + w + y, cs)| <= |x|
    ensures TrimLeft(x + w + y, cs) == x[|x + w + y| - |TrimLeft(x + w + y, cs)|..] + w + y
  {
    var s := x + w + y;
    assert s[|x|] == w[0];
    TrimLeftBefore(s, |x|, cs);
    DropInFirst(x, w, y, |s| - |TrimLeft(s, cs)|);
  }

  /** ltrim removes nothing at or after an element outside the trimmed set. */
  lemma TrimLeftBefore(s: string, j: nat, cs: set<char>)
    requires j < |s| && s[j] !in cs
    ensures |s| - |TrimLeft(s, cs)| <= j
  {
  }

  lemma DropInFirst(x: string, w: string, y: string, k: nat)
    requires k <= |x|
    ensures (x + w + y)[k..] == x[k..] + w + y
  {
  }

  /** rtrim stops at the last element of a piece that does not end with a
      trimmed element. */
  lemma TrimRightKeeps(u: string, w: string, y: string, cs: set<char>)
    requires w != [] && w[|w| - 1] !in cs
    ensures Contains(TrimRight(u + w + y, cs), w)
  {
    var s := u + w + y;
    assert s[|u| + |w| - 1] == w[|w| - 1];
    TrimRightBefore(s, |u| + |w| - 1, cs);
    var r := TrimRight(s, cs);
    var v := y[..|r| - |u| - |w|];
    TakeInLast(u, w, y, |r| - |u| - |w|);
    assert r == s[..|r|] == u + w + v;
    ContainsMiddle(u, w, v);
  }

  /** rtrim removes nothing at or before an element outside the trimmed set. */
  lemma TrimRightBefore(s: string, j: nat, cs: set<char>)
    requires j < |s| && s[j] !in cs
    ensures j < |TrimRight(s, cs)|
  {
  }

  lemma TakeInLast(u: string, w: string, y: string, k: nat)
    requires k <= |y|
    ensures (u + w + y)[..|u| + |w| + k] == u + w + y[..k]
  {
  }

  // ---------------------------------------------------------------------------
  // Decimal rendering of integers (PHP's int-to-string conversion)

  function DigitChar(d: nat): (c: char)
    requires d < 10
    ensures IsDigit(c)
  {
    (d + '0' as int) as char
  }

  function DigitValue(c: char): nat
    requires IsDigit(c)
  {
    c as int - '0' as int
  }

  /** No leading zero: zero renders as "0", and no other number starts with '0'. */
  function NatToString(n: nat): (s: string)
    ensures |s| >= 1
    ensures forall i | 0 <= i < |s| :: IsDigit(s[i])
    ensures n == 0 ==> s == "0"
    ensures s[0] == '0' ==> n == 0
  {
    if n < 10 then [DigitChar(n)] else NatToString(n / 10) + [DigitChar(n % 10)]
  }

  /** The value a string of decimal digits denotes. */
  function ParseNat(s: string): nat
    requires forall i | 0 <= i < |s| :: IsDigit(s[i])
  {
    if s == [] then 0 else ParseNat(s[..|s| - 1]) * 10 + DigitValue(s[|s| - 1])
  }

  /** Reading the rendered digits back gives the number: the rendering is exact
      and, in particular, different numbers render differently. */
  lemma {:induction false} ParseNatToString(n: nat)
    ensures ParseNat(NatToString(n)) == n
  {
    if n >= 10 {
      var s := NatToString(n);
      ParseNatToString(n / 10);
      assert s[..|s| - 1] == NatToString(n / 10);
    }
  }

  lemma NatToStringInjective(m: nat, n: nat)
    requires NatToString(m) == NatToString(n)
    ensures m == n
  {
    ParseNatToString(m);
    ParseNatToString(n);
  }

  function IntToString(i: int): (s: string)
    ensures |s| >= 1
  {
    if i < 0 then "-" + NatToString(-i) else NatToString(i)
  }
}
