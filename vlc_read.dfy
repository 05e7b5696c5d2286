/**
 * Reading and writing coverage data files of verilator_coverage.  A data
 * file is a sequence of lines; a point line reads "C '<name>' <count>", and
 * every other line is ignored.  The stream itself is not modelled: the file
 * is given as its sequence of lines without the newline characters.
 */
module VlcRead {
  import opened Decimal

  const Header: string := "# SystemC::Coverage-3"

  /** Hit counts are 64-bit unsigned values. */
  const Two64: nat := 0x1_0000_0000_0000_0000
  const Two63: nat := 0x8000_0000_0000_0000

  /** There is a quote followed by a space at index k of the line. */
  predicate QuoteSpaceAt(line: string, k: nat)
  {
    k + 1 < |line| && line[k] == '\'' && line[k + 1] == ' '
  }

  /** The first quote-space at or after index i, or |line| when there is none. */
  function SecSpace(line: string, i: nat): (q: nat)
    requires i <= |line|
    ensures i <= q <= |line|
    ensures q < |line| ==> QuoteSpaceAt(line, q)
    ensures forall k | i <= k < q :: !QuoteSpaceAt(line, k)
    decreases |line| - i
  {
    if i == |line| || QuoteSpaceAt(line, i) then i else SecSpace(line, i + 1)
  }

  /** The white-space characters skipped by atoll. */
  predicate IsSpace(c: char)
  {
    c == ' ' || 9 <= c as int <= 13
  }

  function SkipSpace(s: string): (t: string)
    ensures |t| <= |s| && t == s[|s| - |t|..]
    ensures |t| > 0 ==> !IsSpace(t[0])
  {
    if |s| > 0 && IsSpace(s[0]) then SkipSpace(s[1..]) else s
  }

  /** The length of the run of decimal digits that starts s. */
  function DigitRun(s: string): (n: nat)
    ensures n <= |s|
    ensures forall k | 0 <= k < n :: IsDigit(s[k])
    ensures n < |s| ==> !IsDigit(s[n])
  {
    if |s| > 0 && IsDigit(s[0]) then 1 + DigitRun(s[1..]) else 0
  }

  /** The value of the digits that start s (0 when there are none). */
  function LeadingValue(s: string): nat
  {
    ParseDecimal(s[..DigitRun(s)])
  }

  /**
   * atoll: leading white space, an optional sign, then digits.  Values beyond
   * the range of a long long are not modelled (see the README).
   */
  function Atoll(s: string): int
  {
    var t := SkipSpace(s);
    if |t| > 0 && t[0] == '-' then 0 - LeadingValue(t[1..]) as int
    else if |t| > 0 && t[0] == '+' then LeadingValue(t[1..])
    else LeadingValue(t)
  }

  /** The conversion of a long long to uint64_t. */
  function Wrap64(v: int): (r: nat)
    ensures r < Two64
    ensures 0 <= v < Two64 ==> r == v
  {
    v % Two64
  }

  /** What reading one line of a data file gives. */
  datatype LineRead =
    | NotPoint                      // the line does not start with 'C'
    | Filtered(name: string)        // the point's type is not selected
    | Point(name: string, hits: nat)
    | NameOutOfRange                // a 'C' line too short for substr(3, ...)
    | CountPastEnd(name: string)    // no "' " after the name: atoll reads past the text

  /**
   * One line as the reader treats it: the name runs from index 3 to the first
   * quote-space at or after index 3, and the count follows that quote.
   */
  function ParseLine(line: string, typeMatch: string -> bool): (r: LineRead)
    ensures r.NotPoint? <==> |line| == 0 || line[0] != 'C'
    ensures r.NameOutOfRange? <==> |line| > 0 && line[0] == 'C' && |line| < 3
    ensures r.Point? ==> r.hits < Two64 && typeMatch(r.name)
    ensures r.Filtered? ==> !typeMatch(r.name)
  {
    if |line| == 0 || line[0] != 'C' then NotPoint
    else if |line| < 3 then NameOutOfRange
    else
      var q := SecSpace(line, 3);
      var name := line[3..q];
      if !typeMatch(name) then Filtered(name)
      else if q == |line| then CountPastEnd(name)
      else Point(name, HitsAfter(line, q))
  }

  /**
   * The reader with its two failure modes turned into skipped lines: a line
   * with no well-formed name contributes no point.
   */
  function ParseLineChecked(line: string, typeMatch: string -> bool): (r: LineRead)
    ensures !r.NameOutOfRange? && !r.CountPastEnd?
  {
    if |line| < 3 || line[0] != 'C' then NotPoint
    else
      var q := SecSpace(line, 3);
      var name := line[3..q];
      if !typeMatch(name) then Filtered(name)
      else if q == |line| then NotPoint
      else Point(name, HitsAfter(line, q))
  }

  /** The checked reader differs from the reader only where the reader fails. */
  lemma CheckedAgrees(line: string, typeMatch: string -> bool)
    ensures var r := ParseLine(line, typeMatch);
      if r.NameOutOfRange? || r.CountPastEnd? then ParseLineChecked(line, typeMatch) == NotPoint
      else ParseLineChecked(line, typeMatch) == r
  {
  }

  /** The one-character line "C" makes substr(3, ...) throw. */
  lemma ShortPointLineThrows(typeMatch: string -> bool)
    ensures ParseLine("C", typeMatch) == NameOutOfRange
    ensures ParseLineChecked("C", typeMatch) == NotPoint
  {
  }

  /** A 'C' line without a closing quote-space makes atoll read past the text. */
  lemma UnterminatedNameReadsPastEnd()
    ensures ParseLine("C 'abc", _ => true) == CountPastEnd("abc")
    ensures ParseLineChecked("C 'abc", _ => true) == NotPoint
  {
    var line := "C 'abc";
    assert !QuoteSpaceAt(line, 3) && !QuoteSpaceAt(line, 4) && !QuoteSpaceAt(line, 5);
    assert SecSpace(line, 3) == 6;
  }

  /** The reader's scan for the end of the name, by index as the source does it. */
  method ScanSecSpace(line: string) returns (secspace: nat)
    requires |line| >= 3
    ensures secspace == SecSpace(line, 3)
  {
    secspace := 3;
    while secspace < |line|
      invariant 3 <= secspace <= |line|
      invariant SecSpace(line, secspace) == SecSpace(line, 3)
      decreases |line| - secspace
    {
      if line[secspace] == '\'' && secspace + 1 < |line| && line[secspace + 1] == ' ' {
        return;
      }
      secspace := secspace + 1;
    }
  }

  /** The count after the quote-space at q, as atoll reads it and converted to uint64_t. */
  function HitsAfter(line: string, q: nat): (hits: nat)
    requires q < |line|
    ensures hits < Two64
  {
    Wrap64(Atoll(line[q + 1..]))
  }

  /** Reads one line, with the failures turned into skipped lines. */
  method ReadLine(line: string, typeMatch: string -> bool) returns (r: LineRead)
    ensures r == ParseLineChecked(line, typeMatch)
  {
    if |line| < 3 || line[0] != 'C' {
      r := NotPoint;
    } else {
      var secspace := ScanSecSpace(line);
      var point := line[3..secspace];
      if !typeMatch(point) {
        r := Filtered(point);
      } else if secspace == |line| {
        r := NotPoint;
      } else {
        r := Point(point, HitsAfter(line, secspace));
      }
    }
  }

  /** The (name, hits) pairs the reader hands to the point table, in order. */
  function Recorded(lines: seq<string>, typeMatch: string -> bool): seq<(string, nat)>
  {
    if lines == [] then []
    else
      var r := ParseLineChecked(lines[|lines| - 1], typeMatch);
      Recorded(lines[..|lines| - 1], typeMatch) + (if r.Point? then [(r.name, r.hits)] else [])
  }

  /** The names the test's buckets receive when ranking: points hit at least `sufficient` times. */
  function Covering(lines: seq<string>, typeMatch: string -> bool, sufficient: nat): set<string>
  {
    if lines == [] then {}
    else
      var r := ParseLineChecked(lines[|lines| - 1], typeMatch);
      Covering(lines[..|lines| - 1], typeMatch, sufficient)
        + (if r.Point? && r.hits >= sufficient then {r.name} else {})
  }

  /**
   * readCoverage over the lines of one file: the points recorded and, when
   * ranking, the points the file's test covers.
   */
  method ReadCoverage(lines: seq<string>, typeMatch: string -> bool, rank: bool, sufficient: nat)
    returns (points: seq<(string, nat)>, buckets: set<string>)
    ensures points == Recorded(lines, typeMatch)
    ensures buckets == if rank then Covering(lines, typeMatch, sufficient) else {}
  {
    points, buckets := [], {};
    var i := 0;
    while i < |lines|
      invariant 0 <= i <= |lines|
      invariant points == Recorded(lines[..i], typeMatch)
      invariant buckets == if rank then Covering(lines[..i], typeMatch, sufficient) else {}
    {
      assert lines[..i + 1][..i] == lines[..i];
      var r := ReadLine(lines[i], typeMatch);
      if r.Point? {
        points := points + [(r.name, r.hits)];
        if rank && r.hits >= sufficient {
          buckets := buckets + {r.name};
        }
      }
      i := i + 1;
    }
    assert lines[..i] == lines;
  }

  /** writeCoverage's line for one point. */
  function FormatPoint(name: string, count: nat): string
  {
    "C '" + name + "' " + ToDecimal(count)
  }

  /** writeCoverage: the header, then one line per point. */
  function WriteCoverage(points: seq<(string, nat)>): (lines: seq<string>)
    ensures |lines| == |points| + 1 && lines[0] == Header
    ensures forall k | 0 <= k < |points| :: lines[k + 1] == FormatPoint(points[k].0, points[k].1)
  {
    if points == [] then [Header]
    else WriteCoverage(points[..|points| - 1]) + [FormatPoint(points[|points| - 1].0, points[|points| - 1].1)]
  }

  /** A name the reader can find the end of: it holds no quote followed by a space. */
  predicate NoQuoteSpace(name: string)
  {
    forall k | 0 <= k < |name| :: !QuoteSpaceAt(name, k)
  }

  /** A point that survives a write and a read: its name is readable, its count fits a long long. */
  predicate Writable(p: (string, nat))
  {
    NoQuoteSpace(p.0) && p.1 < Two63
  }

  lemma {:induction false} LeadingDecimal(n: nat)
    ensures DigitRun(ToDecimal(n)) == |ToDecimal(n)|
    ensures LeadingValue(ToDecimal(n)) == n
  {
    var s := ToDecimal(n);
    DigitsRun(s);
    assert s[..|s|] == s;
    DecimalRoundTrip(n);
  }

  lemma {:induction false} DigitsRun(s: string)
    requires forall k | 0 <= k < |s| :: IsDigit(s[k])
    ensures DigitRun(s) == |s|
    decreases |s|
  {
    if |s| > 0 {
      DigitsRun(s[1..]);
    }
  }

  /** The count field written as " <digits>" reads back as the count. */
  lemma CountRoundTrip(count: nat)
    requires count < Two63
    ensures Wrap64(Atoll(" " + ToDecimal(count))) == count
  {
    var d := ToDecimal(count);
    assert SkipSpace(" " + d) == SkipSpace(d) by {
      assert (" " + d)[1..] == d;
    }
    assert SkipSpace(d) == d by {
      assert IsDigit(d[0]);
    }
    LeadingDecimal(count);
  }

  /** Where the parts of a point line sit. */
  lemma FormatPointShape(name: string, count: nat)
    ensures var line, q := FormatPoint(name, count), 3 + |name|;
      q + 1 < |line| && line[0] == 'C' && line[q] == '\'' && line[q + 1] == ' ' &&
      line[3..q] == name && line[q + 1..] == " " + ToDecimal(count) &&
      forall k | 3 <= k < q :: line[k] == name[k - 3]
  {
  }

  /** The first quote-space of a point line is the one after its name. */
  lemma {:induction false} FormatPointSecSpace(name: string, count: nat)
    requires NoQuoteSpace(name)
    ensures SecSpace(FormatPoint(name, count), 3) == 3 + |name|
  {
    var line, q := FormatPoint(name, count), 3 + |name|;
    FormatPointShape(name, count);
    forall k | 3 <= k < q
      ensures !QuoteSpaceAt(line, k)
    {
      if k + 1 < q {
        assert !QuoteSpaceAt(name, k - 3);
        assert line[k + 1] == name[k - 2];
      } else {
        assert line[k + 1] == '\'';
        assert line[k] == name[|name| - 1];
      }
    }
    SecSpaceIs(line, 3, q);
  }

  /** A written point line reads back as the same point, or as filtered out. */
  lemma {:induction false} PointLineRoundTrip(p: (string, nat), typeMatch: string -> bool)
    requires Writable(p)
    ensures typeMatch(p.0) ==> ParseLineChecked(FormatPoint(p.0, p.1), typeMatch) == Point(p.0, p.1)
    ensures !typeMatch(p.0) ==> ParseLineChecked(FormatPoint(p.0, p.1), typeMatch) == Filtered(p.0)
  {
    FormatPointShape(p.0, p.1);
    FormatPointSecSpace(p.0, p.1);
    CountRoundTrip(p.1);
  }

  lemma {:induction false} SecSpaceIs(line: string, i: nat, q: nat)
    requires i <= q < |line| && QuoteSpaceAt(line, q)
    requires forall k | i <= k < q :: !QuoteSpaceAt(line, k)
    ensures SecSpace(line, i) == q
    decreases q - i
  {
    if i < q {
      SecSpaceIs(line, i + 1, q);
    }
  }

  /** The header line is not a point line. */
  lemma HeaderIsNotPoint(typeMatch: string -> bool)
    ensures ParseLineChecked(Header, typeMatch) == NotPoint
  {
    assert Header[0] == '#';
  }

  /** The points of the selected types, in order. */
  function Selected(points: seq<(string, nat)>, typeMatch: string -> bool): seq<(string, nat)>
  {
    if points == [] then []
    else
      var last := points[|points| - 1];
      Selected(points[..|points| - 1], typeMatch) + (if typeMatch(last.0) then [last] else [])
  }

  /** Reading a written file gives back the selected points in order. */
  lemma {:induction false} CoverageRoundTrip(points: seq<(string, nat)>, typeMatch: string -> bool)
    requires forall k | 0 <= k < |points| :: Writable(points[k])
    ensures Recorded(WriteCoverage(points), typeMatch) == Selected(points, typeMatch)
  {
    if points == [] {
      HeaderIsNotPoint(typeMatch);
      assert WriteCoverage(points)[..0] == [];
    } else {
      var init, last := points[..|points| - 1], points[|points| - 1];
      var lines := WriteCoverage(points);
      assert lines[..|lines| - 1] == WriteCoverage(init);
      CoverageRoundTrip(init, typeMatch);
      PointLineRoundTrip(last, typeMatch);
    }
  }

  /** The selected points hit at least `sufficient` times. */
  function SufficientNames(points: seq<(string, nat)>, typeMatch: string -> bool, sufficient: nat): set<string>
  {
    if points == [] then {}
    else
      var last := points[|points| - 1];
      SufficientNames(points[..|points| - 1], typeMatch, sufficient)
        + (if typeMatch(last.0) && last.1 >= sufficient then {last.0} else {})
  }

  /** Membership in SufficientNames. */
  lemma {:induction false} SufficientNamesMeaning(points: seq<(string, nat)>, typeMatch: string -> bool, sufficient: nat, name: string)
    ensures name in SufficientNames(points, typeMatch, sufficient) <==>
      exists k | 0 <= k < |points| :: points[k].0 == name && typeMatch(name) && points[k].1 >= sufficient
  {
    if points != [] {
      var init := points[..|points| - 1];
      SufficientNamesMeaning(init, typeMatch, sufficient, name);
      if exists k | 0 <= k < |init| :: init[k].0 == name && typeMatch(name) && init[k].1 >= sufficient {
        var k :| 0 <= k < |init| && init[k].0 == name && typeMatch(name) && init[k].1 >= sufficient;
        assert points[k] == init[k];
      }
      if exists k | 0 <= k < |points| :: points[k].0 == name && typeMatch(name) && points[k].1 >= sufficient {
        var k :| 0 <= k < |points| && points[k].0 == name && typeMatch(name) && points[k].1 >= sufficient;
        if k < |init| {
          assert init[k] == points[k];
        }
      }
    }
  }

  /** Reading a written file while ranking covers exactly the selected points hit `sufficient` times. */
  lemma {:induction false} CoveringRoundTrip(points: seq<(string, nat)>, typeMatch: string -> bool, sufficient: nat)
    requires forall k | 0 <= k < |points| :: Writable(points[k])
    ensures Covering(WriteCoverage(points), typeMatch, sufficient) == SufficientNames(points, typeMatch, sufficient)
  {
    if points == [] {
      HeaderIsNotPoint(typeMatch);
      assert WriteCoverage(points)[..0] == [];
    } else {
      var init, last := points[..|points| - 1], points[|points| - 1];
      var lines := WriteCoverage(points);
      assert lines[..|lines| - 1] == WriteCoverage(init);
      CoveringRoundTrip(init, typeMatch, sufficient);
      PointLineRoundTrip(last, typeMatch);
    }
  }
}
