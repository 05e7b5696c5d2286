/**
 * Source annotation of verilator_coverage: which source lines each coverage
 * point counts for (its own line and the lines listed in its linescov text,
 * such as "3-7,9"), and how annotated lines are prefixed.
 */
module VlcAnnotate {
  import opened Decimal
  import opened VlcRead

  /** The pieces of linescov text the parser reacts to; other characters are skipped. */
  datatype Token = Comma | Dash | Num(v: nat)

  function Tokens(s: string): seq<Token>
    decreases |s|
  {
    if s == [] then []
    else if s[0] == ',' then [Comma] + Tokens(s[1..])
    else if s[0] == '-' then [Dash] + Tokens(s[1..])
    else if IsDigit(s[0]) then
      var n := DigitRun(s);
      [Num(ParseDecimal(s[..n]))] + Tokens(s[n..])
    else Tokens(s[1..])
  }

  /** The lines start..end, inserted when an entry ends; nothing when start is 0. */
  function Emit(start: nat, end: nat): (r: seq<nat>)
    ensures start == 0 ==> r == []
  {
    if start == 0 || end < start then [] else seq(end - start + 1, k => start + k)
  }

  /** The lines an entry inserts are exactly start..end, and none when start is 0. */
  lemma EmitMeaning(start: nat, end: nat, l: nat)
    ensures l in Emit(start, end) <==> start != 0 && start <= l <= end
  {
    if start != 0 && start <= l <= end {
      assert Emit(start, end)[l - start] == l;
    }
  }

  /**
   * The parser's state machine over tokens: a number sets the start unless a
   * dash was seen, and always sets the end; a comma or the end of the text
   * emits the entry.
   */
  function Run(ts: seq<Token>, range: bool, start: nat, end: nat): seq<nat>
    decreases |ts|
  {
    if ts == [] then Emit(start, end)
    else
      match ts[0]
      case Comma => Emit(start, end) + Run(ts[1..], false, 0, 0)
      case Dash => Run(ts[1..], true, start, end)
      case Num(v) => Run(ts[1..], range, if range then start else v, v)
  }

  /** The lines a linescov text adds, in the order they are inserted. */
  function LinesCov(s: string): seq<nat>
  {
    Run(Tokens(s), false, 0, 0)
  }

  /** The inner loop inserting start..end at the end of an entry. */
  method EmitLines(start: nat, end: nat) returns (lines: seq<nat>)
    ensures lines == Emit(start, end)
  {
    lines := [];
    var lni := start;
    while start != 0 && lni <= end
      invariant start != 0 ==> start <= lni && lines == seq(lni - start, k => start + k)
      invariant start != 0 ==> lni == start || lni <= end + 1
      invariant start == 0 ==> lines == []
      decreases end - lni
    {
      lines := lines + [lni];
      lni := lni + 1;
    }
    assert start != 0 && start <= end ==> lni == end + 1;
  }

  /** The digit run starting at index i ends at index j. */
  method SkipDigits(s: string, i: nat) returns (j: nat)
    requires i < |s| && IsDigit(s[i])
    ensures i < j <= |s| && j - i == DigitRun(s[i..])
  {
    j := i;
    while j < |s| && IsDigit(s[j])
      invariant i <= j <= |s|
      invariant forall k | i <= k < j :: IsDigit(s[k])
      invariant DigitRun(s[i..]) == (j - i) + DigitRun(s[j..])
    {
      assert s[j..][1..] == s[j + 1..];
      j := j + 1;
    }
  }

  /** What the tokens of s[i..] are when s[i] is a comma, a dash, or another non-digit. */
  lemma {:induction false} TokensAt(s: string, i: nat)
    requires i < |s| && !IsDigit(s[i])
    ensures s[i] == ',' ==> Tokens(s[i..]) == [Comma] + Tokens(s[i + 1..])
    ensures s[i] == '-' ==> Tokens(s[i..]) == [Dash] + Tokens(s[i + 1..])
    ensures s[i] != ',' && s[i] != '-' ==> Tokens(s[i..]) == Tokens(s[i + 1..])
  {
    assert s[i..][1..] == s[i + 1..];
  }

  lemma {:induction false} TokensDigits(s: string, i: nat, j: nat)
    requires i < j <= |s| && IsDigit(s[i]) && j - i == DigitRun(s[i..])
    ensures Tokens(s[i..]) == [Num(ParseDecimal(s[i..j]))] + Tokens(s[j..])
  {
    assert s[i..][..j - i] == s[i..j];
    assert s[i..][j - i..] == s[j..];
  }

  /** One step of the state machine. */
  lemma {:induction false} RunCons(t: Token, ts: seq<Token>, range: bool, start: nat, end: nat)
    ensures t == Comma ==> Run([t] + ts, range, start, end) == Emit(start, end) + Run(ts, false, 0, 0)
    ensures t == Dash ==> Run([t] + ts, range, start, end) == Run(ts, true, start, end)
    ensures t.Num? ==> Run([t] + ts, range, start, end) == Run(ts, range, if range then start else t.v, t.v)
  {
    assert ([t] + ts)[0] == t && ([t] + ts)[1..] == ts;
  }

  /** The linescov parser of annotateCalc, character by character. */
  method ParseLinesCov(s: string) returns (lines: seq<nat>)
    ensures lines == LinesCov(s)
  {
    var range, start, end := false, 0, 0;
    lines := [];
    var i := 0;
    while i < |s|
      invariant 0 <= i <= |s|
      invariant lines + Run(Tokens(s[i..]), range, start, end) == LinesCov(s)
      decreases |s| - i
    {
      var more, i', range', start', end' := ParseStep(s, i, range, start, end);
      assert lines + Run(Tokens(s[i..]), range, start, end) == (lines + more) + Run(Tokens(s[i'..]), range', start', end');
      lines := lines + more;
      i, range, start, end := i', range', start', end';
    }
    // the end of the text closes a pending line or range like a comma
    var more := EmitLines(start, end);
    assert s[i..] == [];
    lines := lines + more;
  }

  /** One pass of the parser's loop from character i: the lines it emits and the state after it. */
  method ParseStep(s: string, i: nat, range: bool, start: nat, end: nat)
    returns (more: seq<nat>, i': nat, range': bool, start': nat, end': nat)
    requires i < |s|
    ensures i < i' <= |s|
    ensures Run(Tokens(s[i..]), range, start, end) == more + Run(Tokens(s[i'..]), range', start', end')
  {
    more, i', range', start', end' := [], i + 1, range, start, end;
    if s[i] == ',' {
      more := EmitLines(start, end);
      TokensAt(s, i);
      RunCons(Comma, Tokens(s[i + 1..]), range, start, end);
      start', end', range' := 0, 0, false;
    } else if s[i] == '-' {
      TokensAt(s, i);
      RunCons(Dash, Tokens(s[i + 1..]), range, start, end);
      range' := true;
    } else if IsDigit(s[i]) {
      var j := SkipDigits(s, i);
      TokensDigits(s, i, j);
      var v := ParseDecimal(s[i..j]);
      RunCons(Num(v), Tokens(s[j..]), range, start, end);
      if !range {
        start' := v;
      }
      end' := v;
      i' := j;
    } else {
      TokensAt(s, i);
    }
  }

  /** An entry of a linescov text as the compiler writes it: a line or a range of lines. */
  datatype Entry = Single(line: nat) | Span(first: nat, last: nat)

  function Render(e: Entry): string
  {
    match e
    case Single(l) => ToDecimal(l)
    case Span(a, b) => ToDecimal(a) + "-" + ToDecimal(b)
  }

  /** The entries joined with commas. */
  function RenderAll(es: seq<Entry>): string
  {
    if es == [] then ""
    else if |es| == 1 then Render(es[0])
    else Render(es[0]) + "," + RenderAll(es[1..])
  }

  /** The lines an entry stands for. */
  function Expand(e: Entry): seq<nat>
  {
    match e
    case Single(l) => Emit(l, l)
    case Span(a, b) => Emit(a, b)
  }

  function ExpandAll(es: seq<Entry>): seq<nat>
  {
    if es == [] then [] else Expand(es[0]) + ExpandAll(es[1..])
  }

  /** A number followed by text that does not continue it is one token. */
  lemma {:induction false} TokensDecimal(n: nat, rest: string)
    requires rest == [] || !IsDigit(rest[0])
    ensures Tokens(ToDecimal(n) + rest) == [Num(n)] + Tokens(rest)
  {
    var d := ToDecimal(n);
    var s := d + rest;
    DigitsRun(d);
    assert IsDigit(s[0]);
    assert DigitRun(s) == |d| by {
      DigitRunPrefix(d, rest);
    }
    assert s[..|d|] == d && s[|d|..] == rest;
    DecimalRoundTrip(n);
  }

  lemma {:induction false} DigitRunPrefix(d: string, rest: string)
    requires forall k | 0 <= k < |d| :: IsDigit(d[k])
    requires rest == [] || !IsDigit(rest[0])
    ensures DigitRun(d + rest) == |d|
    decreases |d|
  {
    if d != [] {
      assert (d + rest)[1..] == d[1..] + rest;
      DigitRunPrefix(d[1..], rest);
    } else {
      assert d + rest == rest;
    }
  }

  function EntryTokens(e: Entry): seq<Token>
  {
    match e
    case Single(l) => [Num(l)]
    case Span(a, b) => [Num(a), Dash, Num(b)]
  }

  lemma {:induction false} TokensDash(rest: string)
    ensures Tokens("-" + rest) == [Dash] + Tokens(rest)
  {
    assert ("-" + rest)[1..] == rest;
  }

  lemma {:induction false} TokensEntry(e: Entry, rest: string)
    requires rest == [] || rest[0] == ','
    ensures Tokens(Render(e) + rest) == EntryTokens(e) + Tokens(rest)
  {
    match e
    case Single(l) => TokensDecimal(l, rest);
    case Span(a, b) => TokensSpan(a, b, rest);
  }

  lemma {:induction false} TokensSpan(a: nat, b: nat, rest: string)
    requires rest == [] || rest[0] == ','
    ensures Tokens(Render(Span(a, b)) + rest) == [Num(a), Dash, Num(b)] + Tokens(rest)
  {
    var tail := ToDecimal(b) + rest;
    calc {
      Tokens(Render(Span(a, b)) + rest);
      { RenderSpan(a, b, rest); }
      Tokens(ToDecimal(a) + ("-" + tail));
      { TokensNumberDash(a, tail); }
      [Num(a), Dash] + Tokens(tail);
      { TokensDecimal(b, rest); }
      [Num(a), Dash] + ([Num(b)] + Tokens(rest));
      [Num(a), Dash, Num(b)] + Tokens(rest);
    }
  }

  lemma {:induction false} RenderSpan(a: nat, b: nat, rest: string)
    ensures Render(Span(a, b)) + rest == ToDecimal(a) + ("-" + (ToDecimal(b) + rest))
  {
  }

  lemma {:induction false} TokensNumberDash(a: nat, tail: string)
    ensures Tokens(ToDecimal(a) + ("-" + tail)) == [Num(a), Dash] + Tokens(tail)
  {
    TokensDecimal(a, "-" + tail);
    TokensDash(tail);
  }

  lemma {:induction false} RunEntry(e: Entry, ts: seq<Token>)
    requires ts == [] || ts[0] == Comma
    ensures Run(EntryTokens(e) + ts, false, 0, 0) == Expand(e) + (if ts == [] then [] else Run(ts[1..], false, 0, 0))
  {
    match e
    case Single(l) =>
      assert (EntryTokens(e) + ts)[1..] == ts;
    case Span(a, b) =>
      var all := EntryTokens(e) + ts;
      assert all[0] == Num(a) && all[1..][0] == Dash && all[1..][1..][0] == Num(b);
      assert all[1..][1..][1..] == ts;
      assert Run(all, false, 0, 0) == Run(all[1..], false, a, a);
      assert Run(all[1..], false, a, a) == Run(all[1..][1..], true, a, a);
      assert Run(all[1..][1..], true, a, a) == Run(ts, true, a, b);
  }

  /** The lines of a written linescov text are the lines of its entries, in order. */
  lemma {:induction false} LinesCovRendered(es: seq<Entry>)
    ensures LinesCov(RenderAll(es)) == ExpandAll(es)
    decreases |es|
  {
    if es == [] {
    } else if |es| == 1 {
      TokensEntry(es[0], "");
      assert Render(es[0]) + "" == Render(es[0]);
      RunEntry(es[0], []);
      assert EntryTokens(es[0]) + [] == EntryTokens(es[0]);
      assert ExpandAll(es) == Expand(es[0]) + ExpandAll([]);
    } else {
      var rest := "," + RenderAll(es[1..]);
      TokensEntry(es[0], rest);
      assert Render(es[0]) + rest == RenderAll(es);
      assert rest[1..] == RenderAll(es[1..]);
      var ts := Tokens(rest);
      assert ts == [Comma] + Tokens(RenderAll(es[1..]));
      RunEntry(es[0], ts);
      LinesCovRendered(es[1..]);
    }
  }

  /** "a-b,c" adds the lines a..b, then c. */
  lemma RangeThenLine(a: nat, b: nat, c: nat)
    requires 0 < a <= b && 0 < c
    ensures LinesCov(RenderAll([Span(a, b), Single(c)])) == seq(b - a + 1, k => a + k) + [c]
  {
    var es := [Span(a, b), Single(c)];
    LinesCovRendered(es);
    assert es[1..] == [Single(c)] && es[1..][1..] == [];
    assert ExpandAll(es) == Expand(Span(a, b)) + (Expand(Single(c)) + ExpandAll([]));
    assert Expand(Single(c)) == [c];
  }

  /** An entry with no start, such as "-5", adds nothing. */
  lemma LeadingDashAddsNothing(b: nat)
    ensures LinesCov("-" + ToDecimal(b)) == []
  {
    var d := ToDecimal(b);
    TokensDash(d);
    TokensDecimal(b, "");
    assert d + "" == d;
    var ts := [Dash, Num(b)];
    assert Tokens("-" + d) == ts;
    assert ts[1..] == [Num(b)] && ts[1..][1..] == [];
    assert Run(ts, false, 0, 0) == Run([Num(b)], true, 0, 0);
    assert Run([Num(b)], true, 0, 0) == Run([], true, 0, b);
  }

  /** A coverage point as annotateCalc sees it. */
  datatype CovPoint = CovPoint(filename: string, lineno: nat, linescov: string)

  /** The lines a point is inserted on: its own line, then its linescov lines. */
  function PointLines(p: CovPoint): seq<nat>
  {
    if p.filename == "" || p.lineno == 0 then [] else [p.lineno] + LinesCov(p.linescov)
  }

  /** Point p is inserted on line l of file f. */
  predicate OnLine(p: CovPoint, f: string, l: nat)
  {
    f == p.filename && l in PointLines(p)
  }

  /** A point with no file or no line number is on no line at all. */
  lemma UnplacedPointsOnNoLine(p: CovPoint, f: string, l: nat)
    requires p.filename == "" || p.lineno == 0
    ensures !OnLine(p, f, l)
  {
  }

  /** A placed point is always on its own line. */
  lemma PlacedPointOnOwnLine(p: CovPoint)
    requires p.filename != "" && p.lineno != 0
    ensures OnLine(p, p.filename, p.lineno)
  {
  }

  /**
   * annotateCalc: the points of each (file, line), as indices into points.
   * A pair is present only when some point is on it.
   */
  method AnnotateCalc(points: seq<CovPoint>) returns (sources: map<(string, nat), set<nat>>)
    ensures forall f, l: nat, k | 0 <= k < |points| ::
      OnLine(points[k], f, l) <==> (f, l) in sources && k in sources[(f, l)]
    ensures forall key | key in sources :: sources[key] != {} && forall k | k in sources[key] :: k < |points|
  {
    sources := map[];
    var i := 0;
    while i < |points|
      invariant 0 <= i <= |points|
      invariant forall f, l: nat, k | 0 <= k < i ::
        OnLine(points[k], f, l) <==> (f, l) in sources && k in sources[(f, l)]
      invariant forall key | key in sources :: sources[key] != {} && forall k | k in sources[key] :: k < i
    {
      var p := points[i];
      if p.filename != "" && p.lineno != 0 {
        var more := ParseLinesCov(p.linescov);
        sources := InsertPoint(sources, p.filename, [p.lineno] + more, i);
      } else {
        forall f, l: nat ensures !OnLine(p, f, l) {
          UnplacedPointsOnNoLine(p, f, l);
        }
      }
      i := i + 1;
    }
  }

  /** insertPoint for each line of lns: point k joins the set of (f, line). */
  method InsertPoint(sources: map<(string, nat), set<nat>>, f: string, lns: seq<nat>, k: nat)
    returns (sources': map<(string, nat), set<nat>>)
    ensures forall key :: key in sources' <==> key in sources || (key.0 == f && key.1 in lns)
    ensures forall key | key in sources' ::
      sources'[key] == (if key in sources then sources[key] else {}) + (if key.0 == f && key.1 in lns then {k} else {})
  {
    sources' := sources;
    var j := 0;
    while j < |lns|
      invariant 0 <= j <= |lns|
      invariant forall key :: key in sources' <==> key in sources || (key.0 == f && key.1 in lns[..j])
      invariant forall key | key in sources' ::
        sources'[key] == (if key in sources then sources[key] else {}) + (if key.0 == f && key.1 in lns[..j] then {k} else {})
    {
      assert lns[..j + 1] == lns[..j] + [lns[j]];
      var key := (f, lns[j]);
      sources' := sources'[key := (if key in sources' then sources'[key] else {}) + {k}];
      j := j + 1;
    }
    assert lns[..j] == lns;
  }

  /** The marker of an annotated line: the minimum count passes, only the maximum does, or neither. */
  function Marker(minOk: bool, maxOk: bool): (c: char)
    ensures c == ' ' <==> minOk
    ensures c == '~' <==> !minOk && maxOk
    ensures c == '%' <==> !minOk && !maxOk
  {
    if minOk then ' ' else if maxOk then '~' else '%'
  }

  function Zeros(n: nat): (z: string)
    ensures |z| == n && forall k | 0 <= k < n :: z[k] == '0'
  {
    if n == 0 then [] else Zeros(n - 1) + ['0']
  }

  /** setfill('0') << setw(6): the count zero-padded to at least six digits. */
  function Pad6(n: nat): (s: string)
    ensures |s| == if |ToDecimal(n)| < 6 then 6 else |ToDecimal(n)|
    ensures forall k | 0 <= k < |s| :: IsDigit(s[k])
    ensures ParseDecimal(s) == n
  {
    var d := ToDecimal(n);
    var s := Zeros(if |d| < 6 then 6 - |d| else 0) + d;
    LeadingZerosValue(if |d| < 6 then 6 - |d| else 0, d);
    DecimalRoundTrip(n);
    s
  }

  lemma {:induction false} ZerosValue(n: nat)
    ensures ParseDecimal(Zeros(n)) == 0
  {
    if n > 0 {
      ZerosValue(n - 1);
      assert Zeros(n)[..n - 1] == Zeros(n - 1);
    }
  }

  /** Leading zeros do not change the value of a digit string. */
  lemma {:induction false} LeadingZerosValue(n: nat, d: string)
    requires forall k | 0 <= k < |d| :: IsDigit(d[k])
    ensures ParseDecimal(Zeros(n) + d) == ParseDecimal(d)
    decreases |d|
  {
    if d == [] {
      assert Zeros(n) + d == Zeros(n);
      ZerosValue(n);
    } else {
      var s := Zeros(n) + d;
      assert s[..|s| - 1] == Zeros(n) + d[..|d| - 1];
      LeadingZerosValue(n, d[..|d| - 1]);
    }
  }

  /** The eight blank columns in front of a line without coverage. */
  const Blank8: string := "        "

  /** A line of the annotated output: marker, padded maximum count, a space, the source text. */
  function AnnotatedLine(sc: (nat, nat), countOk: nat -> bool, line: string): string
  {
    [Marker(countOk(sc.0), countOk(sc.1))] + Pad6(sc.1) + " " + line
  }

  const AnnotationHeader: string := "//      // verilator_coverage annotation"

  /**
   * The output for source line number lineno with text line: the line with
   * its counts, followed, when points are annotated, by the lines the
   * line's points dump (pointLines, given), or the line indented when it
   * has no counts.
   */
  function Block(lineno: nat, line: string, counts: map<nat, (nat, nat)>, countOk: nat -> bool,
                 annotatePoints: bool, pointLines: nat -> seq<string>): seq<string>
  {
    if lineno in counts then
      [AnnotatedLine(counts[lineno], countOk, line)] + (if annotatePoints then pointLines(lineno) else [])
    else [Blank8 + line]
  }

  /** The blocks of all the lines of text, line numbers counted from 1. */
  function Annotation(text: seq<string>, counts: map<nat, (nat, nat)>, countOk: nat -> bool,
                      annotatePoints: bool, pointLines: nat -> seq<string>): seq<string>
  {
    if text == [] then []
    else Annotation(text[..|text| - 1], counts, countOk, annotatePoints, pointLines)
         + Block(|text|, text[|text| - 1], counts, countOk, annotatePoints, pointLines)
  }

  /** Without point annotation, output line i + 1 is source line i with its prefix, and nothing else is written. */
  lemma {:induction false} AnnotationNoPoints(text: seq<string>, counts: map<nat, (nat, nat)>, countOk: nat -> bool,
                                              pointLines: nat -> seq<string>)
    ensures var a := Annotation(text, counts, countOk, false, pointLines);
      |a| == |text| &&
      forall i | 0 <= i < |text| ::
        a[i] == if i + 1 in counts then AnnotatedLine(counts[i + 1], countOk, text[i]) else Blank8 + text[i]
  {
    if text != [] {
      var t := text[..|text| - 1];
      AnnotationNoPoints(t, counts, countOk, pointLines);
      var a := Annotation(text, counts, countOk, false, pointLines);
      assert a == Annotation(t, counts, countOk, false, pointLines) + Block(|text|, text[|text| - 1], counts, countOk, false, pointLines);
      forall i | 0 <= i < |text|
        ensures a[i] == if i + 1 in counts then AnnotatedLine(counts[i + 1], countOk, text[i]) else Blank8 + text[i]
      {
        if i < |t| {
          assert text[i] == t[i];
        }
      }
    }
  }

  /**
   * With point annotation, each annotated line is followed by exactly its
   * points' lines: the output of a file is that of any prefix of it, then
   * the next line's counts, then that line's point lines.
   */
  lemma AnnotationPoints(text: seq<string>, counts: map<nat, (nat, nat)>, countOk: nat -> bool,
                         pointLines: nat -> seq<string>, i: nat)
    requires i < |text| && i + 1 in counts
    ensures var pre := Annotation(text[..i], counts, countOk, true, pointLines);
      Annotation(text[..i + 1], counts, countOk, true, pointLines)
        == pre + [AnnotatedLine(counts[i + 1], countOk, text[i])] + pointLines(i + 1)
  {
    AnnotationStep(text, counts, countOk, true, pointLines, i);
  }

  lemma AnnotationStep(text: seq<string>, counts: map<nat, (nat, nat)>, countOk: nat -> bool,
                       annotatePoints: bool, pointLines: nat -> seq<string>, i: nat)
    requires i < |text|
    ensures Annotation(text[..i + 1], counts, countOk, annotatePoints, pointLines)
      == Annotation(text[..i], counts, countOk, annotatePoints, pointLines)
         + Block(i + 1, text[i], counts, countOk, annotatePoints, pointLines)
  {
    assert text[..i + 1][..i] == text[..i];
  }

  /** The annotated file: a header, then each source line with or without its counts, and its points when asked. */
  method AnnotateOutput(text: seq<string>, counts: map<nat, (nat, nat)>, countOk: nat -> bool,
                        annotatePoints: bool, pointLines: nat -> seq<string>)
    returns (out: seq<string>)
    ensures out == [AnnotationHeader] + Annotation(text, counts, countOk, annotatePoints, pointLines)
    ensures !annotatePoints ==> |out| == |text| + 1
    ensures !annotatePoints ==> forall i | 0 <= i < |text| ::
      out[i + 1] == if i + 1 in counts then AnnotatedLine(counts[i + 1], countOk, text[i]) else Blank8 + text[i]
  {
    var body := AnnotateLines(text, counts, countOk, annotatePoints, pointLines);
    out := [AnnotationHeader] + body;
    if !annotatePoints {
      AnnotationNoPoints(text, counts, countOk, pointLines);
    }
  }

  /** One turn of the line loop: the output for line number lineno, appended to body. */
  method AnnotateLine(body: seq<string>, lineno: nat, line: string, counts: map<nat, (nat, nat)>, countOk: nat -> bool,
                      annotatePoints: bool, pointLines: nat -> seq<string>)
    returns (body': seq<string>)
    ensures body' == body + Block(lineno, line, counts, countOk, annotatePoints, pointLines)
  {
    if lineno in counts {
      body' := body + [AnnotatedLine(counts[lineno], countOk, line)];
      if annotatePoints {
        body' := body' + pointLines(lineno);
      }
    } else {
      body' := body + [Blank8 + line];
    }
  }

  /** The line loop of annotateOutputFiles: what it writes after the header. */
  method AnnotateLines(text: seq<string>, counts: map<nat, (nat, nat)>, countOk: nat -> bool,
                       annotatePoints: bool, pointLines: nat -> seq<string>)
    returns (body: seq<string>)
    ensures body == Annotation(text, counts, countOk, annotatePoints, pointLines)
  {
    body := [];
    var lineno := 0;
    while lineno < |text|
      invariant 0 <= lineno <= |text|
      invariant body == Annotation(text[..lineno], counts, countOk, annotatePoints, pointLines)
    {
      var line := text[lineno];
      AnnotationStep(text, counts, countOk, annotatePoints, pointLines, lineno);
      lineno := lineno + 1;
      body := AnnotateLine(body, lineno, line, counts, countOk, annotatePoints, pointLines);
    }
    assert text[..lineno] == text;
  }

  /**
   * annotateCalcNeeded for one source: every line counts as a case, and
   * as an ok case when its minimum count passes; the source is needed
   * when all sources are annotated or some line fails.
   */
  method SourceNeeded(counts: map<nat, (nat, nat)>, countOk: nat -> bool, annotateAll: bool)
    returns (needed: bool, cases: nat, ok: nat)
    ensures cases == |counts| && ok <= cases
    ensures ok == cases <==> forall l | l in counts :: countOk(counts[l].0)
    ensures needed <==> annotateAll || exists l | l in counts :: !countOk(counts[l].0)
  {
    needed := annotateAll;
    cases, ok := 0, 0;
    var rest := counts.Keys;
    while rest != {}
      invariant rest <= counts.Keys && cases + |rest| == |counts| && ok <= cases
      invariant ok == cases <==> forall l | l in counts && l !in rest :: countOk(counts[l].0)
      invariant needed <==> annotateAll || exists l | l in counts && l !in rest :: !countOk(counts[l].0)
      decreases |rest|
    {
      var l :| l in rest;
      cases := cases + 1;
      if countOk(counts[l].0) {
        ok := ok + 1;
      } else {
        needed := true;
      }
      rest := rest - {l};
    }
  }

  /**
   * annotateCalcNeeded over all sources: which are needed, and the totals
   * behind the coverage summary. The totals agree exactly when every line
   * of every source passes, which is when no "%00" hint is printed.
   */
  method AnnotateCalcNeeded(sources: seq<map<nat, (nat, nat)>>, countOk: nat -> bool, annotateAll: bool)
    returns (needed: seq<bool>, totCases: nat, totOk: nat)
    ensures |needed| == |sources| && totOk <= totCases
    ensures forall i | 0 <= i < |sources| ::
      needed[i] <==> annotateAll || exists l | l in sources[i] :: !countOk(sources[i][l].0)
    ensures totOk == totCases <==> forall i, l | 0 <= i < |sources| && l in sources[i] :: countOk(sources[i][l].0)
  {
    needed, totCases, totOk := [], 0, 0;
    for i := 0 to |sources|
      invariant |needed| == i && totOk <= totCases
      invariant forall k | 0 <= k < i :: needed[k] <==> annotateAll || exists l | l in sources[k] :: !countOk(sources[k][l].0)
      invariant totOk == totCases <==> forall k, l | 0 <= k < i && l in sources[k] :: countOk(sources[k][l].0)
    {
      var n, c, o := SourceNeeded(sources[i], countOk, annotateAll);
      needed := needed + [n];
      totCases, totOk := totCases + c, totOk + o;
    }
  }

  /**
   * annotateOutputFiles: an output for exactly the needed sources, each
   * being the annotation of that source's text.
   */
  method AnnotateOutputFiles(texts: seq<seq<string>>, sources: seq<map<nat, (nat, nat)>>, needed: seq<bool>,
                             countOk: nat -> bool, annotatePoints: bool, pointLines: nat -> nat -> seq<string>)
    returns (outs: map<nat, seq<string>>)
    requires |texts| == |sources| == |needed|
    ensures outs.Keys == set i | 0 <= i < |needed| && needed[i]
    ensures forall i | i in outs ::
      outs[i] == [AnnotationHeader] + Annotation(texts[i], sources[i], countOk, annotatePoints, pointLines(i))
  {
    outs := map[];
    for i := 0 to |sources|
      invariant outs.Keys == set k | 0 <= k < i && needed[k]
      invariant forall k | k in outs ::
        outs[k] == [AnnotationHeader] + Annotation(texts[k], sources[k], countOk, annotatePoints, pointLines(k))
    {
      if needed[i] {
        var out := AnnotateOutput(texts[i], sources[i], countOk, annotatePoints, pointLines(i));
        outs := outs[i := out];
      }
    }
  }

  /**
   * Both kinds of output line keep the source text intact after the prefix,
   * the annotated one holds the maximum count, and while the count has at
   * most six digits the source text starts in column 8 either way.
   */
  lemma AnnotatedLineShape(sc: (nat, nat), countOk: nat -> bool, line: string)
    ensures var a, w := AnnotatedLine(sc, countOk, line), |Pad6(sc.1)|;
      a[w + 2..] == line && ParseDecimal(a[1..w + 1]) == sc.1 &&
      (sc.1 < 1000000 ==> w + 2 == 8)
    ensures (Blank8 + line)[8..] == line
  {
    var a, w := AnnotatedLine(sc, countOk, line), |Pad6(sc.1)|;
    assert a[1..w + 1] == Pad6(sc.1);
    if sc.1 < 1000000 {
      assert Pow10(6) == 1000000 by {
        assert Pow10(1) == 10 && Pow10(2) == 100 && Pow10(3) == 1000;
      }
      DecimalLength(sc.1, 6);
    }
  }

  function Pow10(k: nat): nat
  {
    if k == 0 then 1 else 10 * Pow10(k - 1)
  }

  /** A number below 10^k has at most k digits. */
  lemma {:induction false} DecimalLength(n: nat, k: nat)
    requires 1 <= k && n < Pow10(k)
    ensures |ToDecimal(n)| <= k
  {
    if n >= 10 {
      assert Pow10(1) == 10;
      assert n / 10 < Pow10(k - 1);
      DecimalLength(n / 10, k - 1);
    }
  }
}
