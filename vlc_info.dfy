/**
 * The lcov output of verilator_coverage (writeInfo) for one source file:
 * a DA record per line and BRDA records for the points of lines with more
 * than one point, closed by the branch totals BRF and BRH.
 */
module VlcInfo {
  import opened Decimal

  /** A source line: its number, its maximum count, and the counts of its points. */
  datatype SourceLine = SourceLine(lineno: nat, maxCount: nat, points: seq<nat>)

  /** The records of the lcov format that writeInfo emits. */
  datatype InfoRecord =
    | TN(test: string)
    | SF(name: string)
    | DA(lineno: nat, count: nat)
    | BRDA(lineno: nat, block: nat, branch: nat, taken: nat)
    | BRF(found: nat)
    | BRH(hit: nat)
    | EndOfRecord

  /** The text of a record, as written to the .info file. */
  function FormatRecord(r: InfoRecord): string
  {
    match r
    case TN(test) => "TN:" + test
    case SF(name) => "SF:" + name
    case DA(l, c) => "DA:" + ToDecimal(l) + "," + ToDecimal(c)
    case BRDA(l, b, n, t) => "BRDA:" + ToDecimal(l) + "," + ToDecimal(b) + "," + ToDecimal(n) + "," + ToDecimal(t)
    case BRF(n) => "BRF:" + ToDecimal(n)
    case BRH(n) => "BRH:" + ToDecimal(n)
    case EndOfRecord => "end_of_record"
  }

  /** The BRDA records of the first n points of a line. */
  function Branches(lineno: nat, points: seq<nat>, n: nat): seq<InfoRecord>
    requires n <= |points|
  {
    if n == 0 then [] else Branches(lineno, points, n - 1) + [BRDA(lineno, 0, n - 1, points[n - 1])]
  }

  /** The records of one line: its DA record, then BRDA records unless it has exactly one point. */
  function LineRecords(l: SourceLine): seq<InfoRecord>
  {
    [DA(l.lineno, l.maxCount)] + (if |l.points| == 1 then [] else Branches(l.lineno, l.points, |l.points|))
  }

  function LinesRecords(lines: seq<SourceLine>): seq<InfoRecord>
  {
    if lines == [] then [] else LinesRecords(lines[..|lines| - 1]) + LineRecords(lines[|lines| - 1])
  }

  /** The number of BRDA records among rs. */
  function CountBRDA(rs: seq<InfoRecord>): nat
  {
    if rs == [] then 0 else CountBRDA(rs[..|rs| - 1]) + (if rs[|rs| - 1].BRDA? then 1 else 0)
  }

  /** The number of BRDA records among rs whose taken count passes countOk. */
  function CountHitBRDA(rs: seq<InfoRecord>, countOk: nat -> bool): nat
  {
    if rs == [] then 0
    else CountHitBRDA(rs[..|rs| - 1], countOk) + (if rs[|rs| - 1].BRDA? && countOk(rs[|rs| - 1].taken) then 1 else 0)
  }

  /** The number of DA records among rs. */
  function CountDA(rs: seq<InfoRecord>): nat
  {
    if rs == [] then 0 else CountDA(rs[..|rs| - 1]) + (if rs[|rs| - 1].DA? then 1 else 0)
  }

  lemma {:induction false} CountsAppend(a: seq<InfoRecord>, b: seq<InfoRecord>, countOk: nat -> bool)
    ensures CountBRDA(a + b) == CountBRDA(a) + CountBRDA(b)
    ensures CountHitBRDA(a + b, countOk) == CountHitBRDA(a, countOk) + CountHitBRDA(b, countOk)
    ensures CountDA(a + b) == CountDA(a) + CountDA(b)
    decreases |b|
  {
    if b == [] {
      assert a + b == a;
    } else {
      CountsAppend(a, b[..|b| - 1], countOk);
      assert (a + b)[..|a + b| - 1] == a + b[..|b| - 1];
    }
  }

  /** The number of points among the first n whose count passes countOk. */
  function HitPoints(points: seq<nat>, n: nat, countOk: nat -> bool): nat
    requires n <= |points|
  {
    if n == 0 then 0 else HitPoints(points, n - 1, countOk) + (if countOk(points[n - 1]) then 1 else 0)
  }

  lemma {:induction false} BranchesCounts(lineno: nat, points: seq<nat>, n: nat, countOk: nat -> bool)
    requires n <= |points|
    ensures CountBRDA(Branches(lineno, points, n)) == n
    ensures CountHitBRDA(Branches(lineno, points, n), countOk) == HitPoints(points, n, countOk)
    ensures CountDA(Branches(lineno, points, n)) == 0
  {
    if n > 0 {
      BranchesCounts(lineno, points, n - 1, countOk);
      var bs := Branches(lineno, points, n);
      assert bs[..|bs| - 1] == Branches(lineno, points, n - 1);
    }
  }

  /** The branches found on a line: its points, unless it has exactly one. */
  function LineFound(l: SourceLine): nat
  {
    if |l.points| == 1 then 0 else |l.points|
  }

  function LineHit(l: SourceLine, countOk: nat -> bool): nat
  {
    if |l.points| == 1 then 0 else HitPoints(l.points, |l.points|, countOk)
  }

  lemma LineCounts(l: SourceLine, countOk: nat -> bool)
    ensures CountBRDA(LineRecords(l)) == LineFound(l)
    ensures CountHitBRDA(LineRecords(l), countOk) == LineHit(l, countOk)
    ensures CountDA(LineRecords(l)) == 1
  {
    var tail := if |l.points| == 1 then [] else Branches(l.lineno, l.points, |l.points|);
    CountsAppend([DA(l.lineno, l.maxCount)], tail, countOk);
    assert [DA(l.lineno, l.maxCount)][..0] == [];
    if |l.points| != 1 {
      BranchesCounts(l.lineno, l.points, |l.points|, countOk);
    }
  }

  /** The BRDA records pass countOk at most as often as there are BRDA records. */
  lemma {:induction false} HitAtMostFound(rs: seq<InfoRecord>, countOk: nat -> bool)
    ensures CountHitBRDA(rs, countOk) <= CountBRDA(rs)
  {
    if rs != [] {
      HitAtMostFound(rs[..|rs| - 1], countOk);
    }
  }

  /**
   * writeInfo for one source: the records it emits, whose BRF and BRH values
   * count its BRDA records and those of them passing countOk.
   */
  method WriteInfoSource(name: string, lines: seq<SourceLine>, countOk: nat -> bool)
    returns (recs: seq<InfoRecord>)
    ensures recs == SourceRecords(name, lines, countOk)
  {
    var body: seq<InfoRecord> := [];
    var branchesFound, branchesHit := 0, 0;
    var i := 0;
    while i < |lines|
      invariant 0 <= i <= |lines|
      invariant body == LinesRecords(lines[..i])
      invariant branchesFound == CountBRDA(body) && branchesHit == CountHitBRDA(body, countOk)
    {
      var l := lines[i];
      assert lines[..i + 1][..i] == lines[..i];
      var recs, found, hit := WriteLine(l, countOk);
      LineCounts(l, countOk);
      CountsAppend(body, recs, countOk);
      body := body + recs;
      branchesFound := branchesFound + found;
      branchesHit := branchesHit + hit;
      i := i + 1;
    }
    assert lines[..i] == lines;
    recs := [SF(name)] + body + [BRF(branchesFound), BRH(branchesHit), EndOfRecord];
  }

  /** The body of writeInfo's loop over lines: one line's records and its branch counts. */
  method WriteLine(l: SourceLine, countOk: nat -> bool) returns (recs: seq<InfoRecord>, found: nat, hit: nat)
    ensures recs == LineRecords(l) && found == LineFound(l) && hit == LineHit(l, countOk)
  {
    recs := [DA(l.lineno, l.maxCount)];
    found, hit := 0, 0;
    var numBranches := |l.points|;
    if numBranches == 1 {
      return;
    }
    found := numBranches;
    var pointNum := 0;
    while pointNum < numBranches
      invariant 0 <= pointNum <= numBranches
      invariant recs == [DA(l.lineno, l.maxCount)] + Branches(l.lineno, l.points, pointNum)
      invariant hit == HitPoints(l.points, pointNum, countOk)
    {
      recs := recs + [BRDA(l.lineno, 0, pointNum, l.points[pointNum])];
      if countOk(l.points[pointNum]) {
        hit := hit + 1;
      }
      pointNum := pointNum + 1;
    }
  }

  /** A line with exactly one point gets a DA record and no BRDA record. */
  lemma SinglePointNoBranches(l: SourceLine)
    requires |l.points| == 1
    ensures LineRecords(l) == [DA(l.lineno, l.maxCount)]
  {
  }

  /** The BRDA records of a multi-point line number its points 0, 1, ... with their counts. */
  lemma {:induction false} BranchesNumbered(lineno: nat, points: seq<nat>, n: nat)
    requires n <= |points|
    ensures |Branches(lineno, points, n)| == n
    ensures forall k | 0 <= k < n :: Branches(lineno, points, n)[k] == BRDA(lineno, 0, k, points[k])
  {
    if n > 0 {
      BranchesNumbered(lineno, points, n - 1);
    }
  }

  /**
   * The records of a source: SF, one DA record per line, the BRDA records,
   * then BRF with the number of BRDA records and BRH with the number of those
   * passing countOk, which is never more.
   */
  lemma SourceRecordsShape(name: string, lines: seq<SourceLine>, countOk: nat -> bool)
    ensures var body := LinesRecords(lines);
      SourceRecords(name, lines, countOk) ==
        [SF(name)] + body + [BRF(CountBRDA(body)), BRH(CountHitBRDA(body, countOk)), EndOfRecord] &&
      CountDA(body) == |lines| &&
      CountHitBRDA(body, countOk) <= CountBRDA(body)
  {
    LinesCountDA(lines, countOk);
    HitAtMostFound(LinesRecords(lines), countOk);
  }

  lemma {:induction false} LinesCountDA(lines: seq<SourceLine>, countOk: nat -> bool)
    ensures CountDA(LinesRecords(lines)) == |lines|
  {
    if lines != [] {
      var init, last := lines[..|lines| - 1], lines[|lines| - 1];
      LinesCountDA(init, countOk);
      LineCounts(last, countOk);
      CountsAppend(LinesRecords(init), LineRecords(last), countOk);
    }
  }

  /** The records of one source file. */
  function SourceRecords(name: string, lines: seq<SourceLine>, countOk: nat -> bool): seq<InfoRecord>
  {
    var body := LinesRecords(lines);
    [SF(name)] + body + [BRF(CountBRDA(body)), BRH(CountHitBRDA(body, countOk)), EndOfRecord]
  }

  function SourcesRecords(sources: seq<(string, seq<SourceLine>)>, countOk: nat -> bool): seq<InfoRecord>
  {
    if sources == [] then []
    else
      var last := sources[|sources| - 1];
      SourcesRecords(sources[..|sources| - 1], countOk) + SourceRecords(last.0, last.1, countOk)
  }

  /** writeInfo: the test-name record, then the records of every source in turn. */
  method WriteInfo(sources: seq<(string, seq<SourceLine>)>, countOk: nat -> bool) returns (recs: seq<InfoRecord>)
    ensures recs == [TN("verilator_coverage")] + SourcesRecords(sources, countOk)
  {
    var body := [];
    var i := 0;
    while i < |sources|
      invariant 0 <= i <= |sources|
      invariant body == SourcesRecords(sources[..i], countOk)
    {
      var more := WriteInfoSource(sources[i].0, sources[i].1, countOk);
      SourcesRecordsSnoc(sources, i, countOk);
      body := body + more;
      i := i + 1;
    }
    assert sources[..i] == sources;
    recs := [TN("verilator_coverage")] + body;
  }

  lemma SourcesRecordsSnoc(sources: seq<(string, seq<SourceLine>)>, i: nat, countOk: nat -> bool)
    requires i < |sources|
    ensures SourcesRecords(sources[..i + 1], countOk)
      == SourcesRecords(sources[..i], countOk) + SourceRecords(sources[i].0, sources[i].1, countOk)
  {
    assert sources[..i + 1][..i] == sources[..i];
  }
}
