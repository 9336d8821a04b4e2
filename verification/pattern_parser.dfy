/**
 The per-line logic of the flat-grid engine's pattern loader. Each line is
 trimmed of white space, stripped of every leading and trailing parenthesis,
 split on commas, and accepted only when it has exactly two fields that each
 parse as a `u16` after trimming. Lines that fail are skipped; the others
 give points in input order.
 */
module PatternParser {
  import opened Life
  import FlatGrid

  type Point = FlatGrid.Point

  // ---------------------------------------------------------------------
  // Trimming
  // ---------------------------------------------------------------------

  /** Unicode `White_Space`, the set `str::trim` removes. */
  predicate IsWhitespace(c: char)
  {
    ('\t' <= c <= '\r') || c == ' ' || c == '\U{0085}' || c == '\U{00A0}' || c == '\U{1680}'
    || ('\U{2000}' <= c <= '\U{200A}') || c == '\U{2028}' || c == '\U{2029}'
    || c == '\U{202F}' || c == '\U{205F}' || c == '\U{3000}'
  }

  /** The characters `trim_matches` removes from the pattern line. */
  predicate IsParen(c: char)
  {
    c == '(' || c == ')'
  }

  /** The characters a `trim_matches` call strips, given as the test it applies to each one. */
  type Strip = char -> bool

  /** `s` without its longest prefix of characters satisfying `drop`. */
  function StripStart(s: string, drop: Strip): (r: string)
    ensures |r| <= |s| && r == s[|s| - |r|..]
    decreases |s|
  {
    if |s| > 0 && drop(s[0]) then StripStart(s[1..], drop) else s
  }

  /** Everything `StripStart` removes matches `drop`, and what it keeps starts with a non-match. */
  lemma {:induction false} StripStartSpec(s: string, drop: Strip)
    ensures var r := StripStart(s, drop);
      && (forall i | 0 <= i < |s| - |r| :: drop(s[i]))
      && (|r| > 0 ==> !drop(r[0]))
    decreases |s|
  {
    if |s| > 0 && drop(s[0]) {
      StripStartSpec(s[1..], drop);
    }
  }

  /** `s` without its longest suffix of characters satisfying `drop`. */
  function StripEnd(s: string, drop: Strip): (r: string)
    ensures |r| <= |s| && r == s[..|r|]
    decreases |s|
  {
    if |s| > 0 && drop(s[|s| - 1]) then StripEnd(s[..|s| - 1], drop) else s
  }

  /** Everything `StripEnd` removes matches `drop`, and what it keeps ends with a non-match. */
  lemma {:induction false} StripEndSpec(s: string, drop: Strip)
    ensures var r := StripEnd(s, drop);
      && (forall i | |r| <= i < |s| :: drop(s[i]))
      && (|r| > 0 ==> !drop(r[|r| - 1]))
    decreases |s|
  {
    if |s| > 0 && drop(s[|s| - 1]) {
      StripEndSpec(s[..|s| - 1], drop);
    }
  }

  /** `trim_matches`: strip matching characters from both ends. */
  function TrimMatches(s: string, drop: Strip): string
  {
    StripEnd(StripStart(s, drop), drop)
  }

  /** `r` is the stretch of `s` starting at `k`, and everything around it matches `drop`. */
  predicate KeptStretch(s: string, r: string, drop: Strip, k: int)
  {
    && 0 <= k <= |s| - |r|
    && r == s[k..k + |r|]
    && (forall i | 0 <= i < k :: drop(s[i]))
    && (forall i | k + |r| <= i < |s| :: drop(s[i]))
  }

  /** Stripping a matching prefix and then a matching suffix keeps one stretch. */
  lemma StretchAfterStrips(s: string, t: string, r: string, drop: Strip)
    requires |t| <= |s| && t == s[|s| - |t|..]
    requires |r| <= |t| && r == t[..|r|]
    requires forall i | 0 <= i < |s| - |t| :: drop(s[i])
    requires forall i | |r| <= i < |t| :: drop(t[i])
    ensures KeptStretch(s, r, drop, |s| - |t|)
  {
    var k := |s| - |t|;
    assert r == s[k..k + |r|];
    forall i | k + |r| <= i < |s|
      ensures drop(s[i])
    {
      assert s[i] == t[i - k];
    }
  }

  /** What `StripStart` keeps starts with a non-match. */
  lemma {:induction false} StripStartHead(s: string, drop: Strip)
    ensures |StripStart(s, drop)| > 0 ==> !drop(StripStart(s, drop)[0])
    decreases |s|
  {
    if |s| > 0 && drop(s[0]) {
      StripStartHead(s[1..], drop);
    }
  }

  /** What `StripEnd` keeps ends with a non-match. */
  lemma {:induction false} StripEndLast(s: string, drop: Strip)
    ensures var r := StripEnd(s, drop); |r| > 0 ==> !drop(r[|r| - 1])
    decreases |s|
  {
    if |s| > 0 && drop(s[|s| - 1]) {
      StripEndLast(s[..|s| - 1], drop);
    }
  }

  /** Whatever `StripEnd` keeps starts where the string did. */
  lemma {:induction false} StripEndHead(s: string, drop: Strip)
    ensures |StripEnd(s, drop)| > 0 ==> StripEnd(s, drop)[0] == s[0]
    decreases |s|
  {
    if |s| > 0 && drop(s[|s| - 1]) {
      StripEndHead(s[..|s| - 1], drop);
    }
  }

  /** What `trim_matches` keeps neither starts nor ends with a match. */
  lemma TrimMatchesEnds(s: string, drop: Strip)
    ensures |TrimMatches(s, drop)| > 0 ==>
      !drop(TrimMatches(s, drop)[0]) && !drop(TrimMatches(s, drop)[|TrimMatches(s, drop)| - 1])
  {
    var t := StripStart(s, drop);
    assert TrimMatches(s, drop) == StripEnd(t, drop);
    StripStartHead(s, drop);
    StripEndLast(t, drop);
    StripEndHead(t, drop);
  }

  /** What `trim_matches` keeps is one stretch of `s`, and everything before and after it matches. */
  lemma TrimMatchesStretch(s: string, drop: Strip)
    ensures exists k :: KeptStretch(s, TrimMatches(s, drop), drop, k)
  {
    var t := StripStart(s, drop);
    StripStartSpec(s, drop);
    StripEndSpec(t, drop);
    assert TrimMatches(s, drop) == StripEnd(t, drop);
    StretchAfterStrips(s, t, StripEnd(t, drop), drop);
  }

  /** `str::trim`. */
  function Trim(s: string): string
  {
    TrimMatches(s, IsWhitespace)
  }

  /** `str::trim` keeps one stretch of `s` with white space only before and after it. */
  lemma TrimSpec(s: string)
    ensures var r := Trim(s);
      && (|r| > 0 ==> !IsWhitespace(r[0]) && !IsWhitespace(r[|r| - 1]))
      && exists k :: KeptStretch(s, r, IsWhitespace, k)
  {
    TrimMatchesEnds(s, IsWhitespace);
    TrimMatchesStretch(s, IsWhitespace);
  }

  lemma TrimMatchesUnchanged(s: string, drop: Strip)
    requires |s| > 0 && !drop(s[0]) && !drop(s[|s| - 1])
    ensures TrimMatches(s, drop) == s
  {
  }

  /** A string with one matching character at each end and none at the ends of the middle loses exactly that pair. */
  lemma TrimMatchesPair(open: char, mid: string, close: char, drop: Strip)
    requires drop(open) && drop(close)
    requires |mid| > 0 && !drop(mid[0]) && !drop(mid[|mid| - 1])
    ensures TrimMatches([open] + mid + [close], drop) == mid
  {
    var s := [open] + mid + [close];
    assert s[1..] == mid + [close];
    assert StripStart(s, drop) == mid + [close];
    assert (mid + [close])[..|mid|] == mid;
    assert StripEnd(mid, drop) == mid;
  }

  // ---------------------------------------------------------------------
  // Splitting on commas
  // ---------------------------------------------------------------------

  /** The fields joined back with commas between them. */
  function Join(fields: seq<string>): string
    requires |fields| > 0
  {
    if |fields| == 1 then fields[0] else fields[0] + "," + Join(fields[1..])
  }

  /** `split(',')`: the comma-free fields that, joined with commas, give back `s`. */
  function Split(s: string): (fields: seq<string>)
    ensures |fields| > 0
    ensures Join(fields) == s
    ensures forall k | 0 <= k < |fields| :: ',' !in fields[k]
    decreases |s|
  {
    if |s| == 0 then [""]
    else if s[0] == ',' then
      var rest := Split(s[1..]);
      assert Join([""] + rest) == "," + Join(rest) by {
        assert ([""] + rest)[1..] == rest;
      }
      assert s == "," + s[1..];
      [""] + rest
    else
      var rest := Split(s[1..]);
      var fields := [[s[0]] + rest[0]] + rest[1..];
      assert Join(fields) == s by {
        if |rest| == 1 {
          assert s == [s[0]] + s[1..];
        } else {
          assert fields[1..] == rest[1..];
          assert Join(rest) == rest[0] + "," + Join(rest[1..]);
          assert s == [s[0]] + s[1..];
        }
      }
      fields
  }

  /** Splitting a comma-free field followed by a comma peels off that field. */
  lemma {:induction false} SplitFirstField(a: string, rest: string)
    requires ',' !in a
    ensures Split(a + "," + rest) == [a] + Split(rest)
    decreases |a|
  {
    if |a| == 0 {
      assert (a + "," + rest)[1..] == rest;
    } else {
      var s := a + "," + rest;
      assert s[0] == a[0];
      assert s[1..] == a[1..] + "," + rest;
      SplitFirstField(a[1..], rest);
      assert [a[0]] + a[1..] == a;
    }
  }

  /** A comma-free string is a single field. */
  lemma {:induction false} SplitNoComma(a: string)
    requires ',' !in a
    ensures Split(a) == [a]
    decreases |a|
  {
    if |a| > 0 {
      SplitNoComma(a[1..]);
      assert [a[0]] + a[1..] == a;
    }
  }

  /** `Split` inverts `Join` on comma-free fields. */
  lemma {:induction false} SplitJoin(fields: seq<string>)
    requires |fields| > 0
    requires forall k | 0 <= k < |fields| :: ',' !in fields[k]
    ensures Split(Join(fields)) == fields
    decreases |fields|
  {
    if |fields| == 1 {
      SplitNoComma(fields[0]);
    } else {
      SplitJoin(fields[1..]);
      SplitFirstField(fields[0], Join(fields[1..]));
    }
  }

  // ---------------------------------------------------------------------
  // Parsing a u16
  // ---------------------------------------------------------------------

  predicate IsDigit(c: char)
  {
    '0' <= c <= '9'
  }

  predicate AllDigits(s: string)
  {
    forall i | 0 <= i < |s| :: IsDigit(s[i])
  }

  /** The decimal value of a digit string, most significant digit first. */
  function DigitsValue(s: string): nat
    requires AllDigits(s)
  {
    if |s| == 0 then 0
    else DigitsValue(s[..|s| - 1]) * 10 + (s[|s| - 1] as int - '0' as int)
  }

  /**
   `str::parse::<u16>`: an optional leading `+`, then at least one decimal
   digit, with a value of at most 65535. The empty string, a lone `+`, any
   `-` and any other character are rejected.
   */
  function ParseU16(s: string): (r: Option<U16>)
    ensures r.Some? ==> |s| > 0 && s[0] != '-' && (s[0] == '+' ==> |s| > 1)
    ensures r.Some? && s[0] != '+' ==> AllDigits(s) && r.value == DigitsValue(s)
    ensures r.Some? && s[0] == '+' ==> AllDigits(s[1..]) && r.value == DigitsValue(s[1..])
    ensures |s| > 0 && AllDigits(s) && DigitsValue(s) < 0x1_0000 ==> r == Some(DigitsValue(s))
    ensures AllDigits(s) && DigitsValue(s) >= 0x1_0000 ==> r.None?
  {
    if |s| == 0 then None
    else
      var digits := if s[0] == '+' then s[1..] else s;
      if |digits| > 0 && AllDigits(digits) && DigitsValue(digits) < 0x1_0000
      then Some(DigitsValue(digits))
      else None
  }

  /** A single leading `+` is ignored: `+d` parses exactly as `d` does. */
  lemma ParsePlus(d: string)
    requires |d| > 0 && d[0] != '+'
    ensures ParseU16("+" + d) == ParseU16(d)
  {
    assert ("+" + d)[1..] == d;
  }

  /** The decimal rendering of `n`, without sign or leading zeros. */
  function Show(n: nat): (s: string)
    ensures |s| > 0 && AllDigits(s)
  {
    if n < 10 then ['0' + n as char] else Show(n / 10) + ['0' + (n % 10) as char]
  }

  /** Parsing a rendered number gives the number back. */
  lemma {:induction false} ShowValue(n: nat)
    ensures DigitsValue(Show(n)) == n
  {
    if n >= 10 {
      var s := Show(n);
      assert s[..|s| - 1] == Show(n / 10);
      ShowValue(n / 10);
    }
  }

  lemma ParseShow(n: U16)
    ensures ParseU16(Show(n)) == Some(n)
  {
    ShowValue(n);
  }

  // ---------------------------------------------------------------------
  // Lines and files
  // ---------------------------------------------------------------------

  /** The comma-separated fields of a line once white space and enclosing parentheses are gone. */
  function Fields(line: string): seq<string>
  {
    Split(TrimMatches(Trim(line), IsParen))
  }

  /**
   The per-line body of the loader: a point, or `None` for a line that is
   skipped. A point's `x` is the first field and its `y` the second; a line
   is skipped when it does not have exactly two fields or one of them is
   not a `u16`.
   */
  function ParseLine(line: string): (r: Option<Point>)
    ensures r.Some? ==> |Fields(line)| == 2
    ensures r.Some? ==>
      ParseU16(Trim(Fields(line)[0])) == Some(r.value.x) && ParseU16(Trim(Fields(line)[1])) == Some(r.value.y)
    ensures r.None? ==>
      (|Fields(line)| != 2 || ParseU16(Trim(Fields(line)[0])).None? || ParseU16(Trim(Fields(line)[1])).None?)
  {
    var coords := Fields(line);
    if |coords| != 2 then None
    else
      var x := ParseU16(Trim(coords[0]));
      var y := ParseU16(Trim(coords[1]));
      if x.Some? && y.Some? then Some(FlatGrid.Point(x.value, y.value)) else None
  }

  /** The pattern line `(x,y)`. */
  function Format(p: Point): string
  {
    "(" + Show(p.x) + "," + Show(p.y) + ")"
  }

  lemma NoCommaInDigits(s: string)
    requires AllDigits(s)
    ensures ',' !in s
  {
  }

  /** A decimal number is its own trim. */
  lemma TrimDigits(s: string)
    requires |s| > 0 && AllDigits(s)
    ensures Trim(s) == s
  {
    assert IsDigit(s[0]) && IsDigit(s[|s| - 1]);
    TrimMatchesUnchanged(s, IsWhitespace);
  }

  /** A line that starts with `(` and ends with `)` has no white space to trim. */
  lemma TrimParenthesized(line: string)
    requires |line| > 0 && line[0] == '(' && line[|line| - 1] == ')'
    ensures Trim(line) == line
  {
    TrimMatchesUnchanged(line, IsWhitespace);
  }

  lemma StripOnePair(inner: string)
    requires |inner| > 0 && IsDigit(inner[0]) && IsDigit(inner[|inner| - 1])
    ensures TrimMatches("(" + inner + ")", IsParen) == inner
  {
    assert "(" + inner + ")" == ['('] + inner + [')'];
    TrimMatchesPair('(', inner, ')', IsParen);
  }

  lemma SplitDigits(sx: string, sy: string)
    requires AllDigits(sx) && AllDigits(sy)
    ensures Split(sx + "," + sy) == [sx, sy]
  {
    assert Join([sx, sy]) == sx + "," + sy;
    NoCommaInDigits(sx);
    NoCommaInDigits(sy);
    SplitJoin([sx, sy]);
  }

  lemma FieldsFromParts(line: string, inner: string, sx: string, sy: string)
    requires Trim(line) == line
    requires TrimMatches(line, IsParen) == inner
    requires Split(inner) == [sx, sy]
    ensures Fields(line) == [sx, sy]
  {
  }

  lemma FieldsOfDigits(sx: string, sy: string)
    requires |sx| > 0 && AllDigits(sx) && |sy| > 0 && AllDigits(sy)
    ensures Fields("(" + sx + "," + sy + ")") == [sx, sy]
  {
    var inner := sx + "," + sy;
    var line := "(" + sx + "," + sy + ")";
    assert line == "(" + inner + ")" && line[0] == '(' && line[|line| - 1] == ')';
    assert inner[0] == sx[0] && inner[|inner| - 1] == sy[|sy| - 1];
    TrimParenthesized(line);
    StripOnePair(inner);
    SplitDigits(sx, sy);
    FieldsFromParts(line, inner, sx, sy);
  }

  /** The line `(sx,sy)` of two decimal numbers below 65536 gives the point with those coordinates. */
  lemma ParseDigitLine(sx: string, sy: string)
    requires |sx| > 0 && AllDigits(sx) && DigitsValue(sx) < 0x1_0000
    requires |sy| > 0 && AllDigits(sy) && DigitsValue(sy) < 0x1_0000
    ensures ParseLine("(" + sx + "," + sy + ")") == Some(FlatGrid.Point(DigitsValue(sx), DigitsValue(sy)))
  {
    var line := "(" + sx + "," + sy + ")";
    assert Fields(line) == [sx, sy] by {
      FieldsOfDigits(sx, sy);
    }
    assert ParseU16(Trim(sx)) == Some(DigitsValue(sx)) by {
      TrimDigits(sx);
      ParseDigits(sx);
    }
    assert ParseU16(Trim(sy)) == Some(DigitsValue(sy)) by {
      TrimDigits(sy);
      ParseDigits(sy);
    }
    ParseFromFields(line, sx, sy);
  }

  lemma ParseDigits(s: string)
    requires |s| > 0 && AllDigits(s) && DigitsValue(s) < 0x1_0000
    ensures ParseU16(s) == Some(DigitsValue(s))
  {
  }

  /** A line is decided by its two fields alone. */
  lemma ParseFromFields(line: string, a: string, b: string)
    requires Fields(line) == [a, b]
    ensures ParseLine(line) ==
      if ParseU16(Trim(a)).Some? && ParseU16(Trim(b)).Some?
      then Some(FlatGrid.Point(ParseU16(Trim(a)).value, ParseU16(Trim(b)).value))
      else None
  {
  }

  /** Formatting a point and parsing the line gives the point back. */
  lemma ParseFormat(p: Point)
    ensures ParseLine(Format(p)) == Some(p)
  {
    ShowValue(p.x);
    ShowValue(p.y);
    ParseDigitLine(Show(p.x), Show(p.y));
  }

  /**
   A line whose stripped content is exactly two comma-free fields yields a
   point precisely when both fields, trimmed, parse as `u16`; the first
   becomes `x` and the second `y`.
   */
  lemma ParseTwoFields(line: string, a: string, b: string)
    requires ',' !in a && ',' !in b
    requires TrimMatches(Trim(line), IsParen) == a + "," + b
    ensures ParseLine(line).Some? <==> ParseU16(Trim(a)).Some? && ParseU16(Trim(b)).Some?
    ensures ParseLine(line).Some? ==>
      ParseLine(line).value == FlatGrid.Point(ParseU16(Trim(a)).value, ParseU16(Trim(b)).value)
  {
    assert Join([a, b]) == a + "," + b;
    SplitJoin([a, b]);
  }

  /** A line without a comma between its parentheses is skipped. */
  lemma ParseNoComma(line: string)
    requires ',' !in TrimMatches(Trim(line), IsParen)
    ensures ParseLine(line) == None
  {
    SplitNoComma(TrimMatches(Trim(line), IsParen));
  }

  /** A line with more than one comma between its parentheses is skipped, whatever the fields hold. */
  lemma ParseExtraFields(line: string, a: string, b: string, rest: string)
    requires ',' !in a && ',' !in b
    requires TrimMatches(Trim(line), IsParen) == a + "," + b + "," + rest
    ensures ParseLine(line) == None
  {
    var tail := b + "," + rest;
    assert a + "," + b + "," + rest == a + "," + tail;
    assert |Fields(line)| > 2 by {
      SplitFirstField(b, rest);
      SplitFirstField(a, tail);
    }
  }

  /** The filter-map at the heart of the loader: keep the parsed points, drop the failures, keep the order. */
  function Collect(parsed: seq<Option<Point>>): (points: seq<Point>)
    ensures |points| <= |parsed|
    ensures forall k | 0 <= k < |points| :: Some(points[k]) in parsed
  {
    if |parsed| == 0 then []
    else
      var rest := Collect(parsed[1..]);
      assert forall k | 0 <= k < |rest| :: Some(rest[k]) in parsed by {
        forall k | 0 <= k < |rest|
          ensures Some(rest[k]) in parsed
        {
          var i :| 0 <= i < |parsed[1..]| && parsed[1..][i] == Some(rest[k]);
          assert parsed[i + 1] == parsed[1..][i];
        }
      }
      match parsed[0]
      case Some(p) => [p] + rest
      case None => rest
  }

  /** Each line's parse result, in line order. */
  function ParseEach(lines: seq<string>): (parsed: seq<Option<Point>>)
    ensures |parsed| == |lines|
    ensures forall i | 0 <= i < |lines| :: parsed[i] == ParseLine(lines[i])
  {
    seq(|lines|, i requires 0 <= i < |lines| => ParseLine(lines[i]))
  }

  /** The loader's loop: the points of the lines that parse, in line order. */
  function ParseLines(lines: seq<string>): (points: seq<Point>)
    ensures |points| <= |lines|
  {
    Collect(ParseEach(lines))
  }

  /** Every point the loader returns is the parse of one of the lines. */
  lemma PointsFromLines(lines: seq<string>)
    ensures var points := ParseLines(lines);
      forall k | 0 <= k < |points| :: exists i | 0 <= i < |lines| :: ParseLine(lines[i]) == Some(points[k])
  {
    var points := ParseLines(lines);
    var parsed := ParseEach(lines);
    forall k | 0 <= k < |points|
      ensures exists i | 0 <= i < |lines| :: ParseLine(lines[i]) == Some(points[k])
    {
      var i :| 0 <= i < |parsed| && parsed[i] == Some(points[k]);
      assert ParseLine(lines[i]) == Some(points[k]);
    }
  }

  /** Collecting from two runs of results is collecting from each and concatenating. */
  lemma {:induction false} CollectAppend(a: seq<Option<Point>>, b: seq<Option<Point>>)
    ensures Collect(a + b) == Collect(a) + Collect(b)
    decreases |a|
  {
    if |a| > 0 {
      assert (a + b)[0] == a[0];
      assert (a + b)[1..] == a[1..] + b;
      CollectAppend(a[1..], b);
      match a[0]
      case Some(p) =>
        assert Collect(a + b) == [p] + (Collect(a[1..]) + Collect(b));
        assert Collect(a) == [p] + Collect(a[1..]);
      case None =>
    } else {
      assert a + b == b;
    }
  }

  lemma ParseEachAppend(a: seq<string>, b: seq<string>)
    ensures ParseEach(a + b) == ParseEach(a) + ParseEach(b)
  {
  }

  /** Parsing a file is parsing its two halves and concatenating: a line only ever affects its own output. */
  lemma ParseLinesAppend(a: seq<string>, b: seq<string>)
    ensures ParseLines(a + b) == ParseLines(a) + ParseLines(b)
  {
    ParseEachAppend(a, b);
    CollectAppend(ParseEach(a), ParseEach(b));
  }

  /** A single line gives its point, or nothing. */
  lemma ParseOneLine(line: string)
    ensures ParseLines([line]) == (if ParseLine(line).Some? then [ParseLine(line).value] else [])
  {
    assert ParseEach([line]) == [ParseLine(line)];
    assert [ParseLine(line)][1..] == [];
  }

  /** A line that does not parse is skipped without shifting the points of the lines after it. */
  lemma SkipBadLine(before: seq<string>, bad: string, after: seq<string>)
    requires ParseLine(bad) == None
    ensures ParseLines(before + [bad] + after) == ParseLines(before) + ParseLines(after)
  {
    assert ParseLines(before + [bad] + after) == ParseLines(before + [bad]) + ParseLines(after) by {
      ParseLinesAppend(before + [bad], after);
    }
    assert ParseLines(before + [bad]) == ParseLines(before) by {
      ParseLinesAppend(before, [bad]);
      ParseOneLine(bad);
    }
  }

  /**
   A file whose every line is well formed parses to exactly the points of
   its lines, one per line, in order.
   */
  lemma {:induction false} ParseGoodLines(lines: seq<string>, points: seq<Point>)
    requires |lines| == |points|
    requires forall k | 0 <= k < |lines| :: ParseLine(lines[k]) == Some(points[k])
    ensures ParseLines(lines) == points
    decreases |lines|
  {
    if |lines| == 0 {
      assert ParseEach(lines) == [];
    } else {
      ParseGoodLines(lines[1..], points[1..]);
      ParseGoodStep(lines, points);
    }
  }

  lemma ParseGoodStep(lines: seq<string>, points: seq<Point>)
    requires |lines| == |points| > 0
    requires ParseLine(lines[0]) == Some(points[0])
    requires ParseLines(lines[1..]) == points[1..]
    ensures ParseLines(lines) == points
  {
    HeadTail(lines);
    HeadTail(points);
    ParseGoodCons(lines[0], lines[1..], points[0], points[1..]);
  }

  lemma HeadTail<T>(s: seq<T>)
    requires |s| > 0
    ensures s == [s[0]] + s[1..]
  {
  }

  /** A line that parses, put in front of a file, puts its point in front of the file's points. */
  lemma ParseGoodCons(line: string, rest: seq<string>, p: Point, points: seq<Point>)
    requires ParseLine(line) == Some(p)
    requires ParseLines(rest) == points
    ensures ParseLines([line] + rest) == [p] + points
  {
    ParseLinesAppend([line], rest);
    ParseOneLine(line);
  }

  /** One `(x,y)` line per point. */
  function FormatAll(points: seq<Point>): (lines: seq<string>)
    ensures |lines| == |points|
    ensures forall k | 0 <= k < |points| :: lines[k] == Format(points[k])
  {
    seq(|points|, k requires 0 <= k < |points| => Format(points[k]))
  }

  /** A file of formatted points parses back to exactly those points, in order. */
  lemma ParseFormattedLines(points: seq<Point>)
    ensures ParseLines(FormatAll(points)) == points
  {
    var lines := FormatAll(points);
    forall k | 0 <= k < |lines|
      ensures ParseLine(lines[k]) == Some(points[k])
    {
      ParseFormat(points[k]);
    }
    ParseGoodLines(lines, points);
  }

  /** Stripping the front of a string that keeps a character does not reach what is appended. */
  lemma {:induction false} StripStartAppend(m: string, t: string, drop: Strip)
    requires |StripStart(m, drop)| > 0
    ensures StripStart(m + t, drop) == StripStart(m, drop) + t
    decreases |m|
  {
    if |m| > 0 && drop(m[0]) {
      assert (m + t)[1..] == m[1..] + t;
      StripStartAppend(m[1..], t, drop);
    }
  }

  lemma StripEndDrop(x: string, c: char, drop: Strip)
    requires drop(c)
    ensures StripEnd(x + [c], drop) == StripEnd(x, drop)
  {
    assert (x + [c])[..|x|] == x;
  }

  lemma StripStartOpen(open: char, rest: string, drop: Strip)
    requires drop(open)
    ensures StripStart([open] + rest, drop) == StripStart(rest, drop)
  {
    assert ([open] + rest)[1..] == rest;
  }

  /** One more matching character at each end changes nothing once something survives the stripping. */
  lemma TrimMatchesWrapped(open: char, m: string, close: char, drop: Strip)
    requires drop(open) && drop(close)
    requires |StripStart(m, drop)| > 0
    ensures TrimMatches([open] + m + [close], drop) == TrimMatches(m, drop)
  {
    StripStartOpen(open, m + [close], drop);
    assert [open] + m + [close] == [open] + (m + [close]);
    StripStartAppend(m, [close], drop);
    StripEndDrop(StripStart(m, drop), close, drop);
  }

  /**
   An extra pair of parentheses around a line that starts and ends with
   one changes nothing, as long as the line is more than parentheses.
   */
  lemma ExtraParenthesesIgnored(line: string)
    requires |line| > 0 && line[0] == '(' && line[|line| - 1] == ')'
    requires |StripStart(line, IsParen)| > 0
    ensures ParseLine("(" + line + ")") == ParseLine(line)
  {
    var wrapped := "(" + line + ")";
    assert wrapped == ['('] + line + [')'];
    WrappedSameCore(line, wrapped);
    SameCoreSameParse(wrapped, line);
  }

  lemma WrappedSameCore(line: string, wrapped: string)
    requires |line| > 0 && line[0] == '(' && line[|line| - 1] == ')'
    requires |StripStart(line, IsParen)| > 0
    requires wrapped == ['('] + line + [')']
    ensures TrimMatches(Trim(wrapped), IsParen) == TrimMatches(Trim(line), IsParen)
  {
    WrappedParensStripped(line, wrapped);
    WrappedTrimmed(line, wrapped);
    TrimParenthesized(line);
  }

  lemma WrappedParensStripped(line: string, wrapped: string)
    requires |line| > 0 && |StripStart(line, IsParen)| > 0
    requires wrapped == ['('] + line + [')']
    ensures TrimMatches(wrapped, IsParen) == TrimMatches(line, IsParen)
  {
    TrimMatchesWrapped('(', line, ')', IsParen);
  }

  lemma WrappedTrimmed(line: string, wrapped: string)
    requires wrapped == ['('] + line + [')']
    ensures Trim(wrapped) == wrapped
  {
    TrimParenthesized(wrapped);
  }

  /** Two lines with the same content between white space and parentheses parse alike. */
  lemma SameCoreSameParse(l1: string, l2: string)
    requires TrimMatches(Trim(l1), IsParen) == TrimMatches(Trim(l2), IsParen)
    ensures ParseLine(l1) == ParseLine(l2)
  {
  }

  /** Every enclosing parenthesis is stripped, not just one pair: `((x,y))` still gives the point. */
  lemma NestedParenthesesAccepted(p: Point)
    ensures ParseLine("(" + Format(p) + ")") == Some(p)
  {
    var sx, sy := Show(p.x), Show(p.y);
    var line := Format(p);
    assert |StripStart(line, IsParen)| > 0 by {
      assert line[1..] == sx + "," + sy + ")";
      assert line[1..][0] == sx[0] && IsDigit(sx[0]);
    }
    ExtraParenthesesIgnored(line);
    ParseFormat(p);
  }
}
