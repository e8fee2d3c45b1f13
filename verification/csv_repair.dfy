/** Row repair of the commit-change export (`fix_csv_structure` in
    Approach1/get_metadata_from_commit.py): every non-blank line becomes one
    row of exactly eight fields, and the first ten irregular lines are kept
    as diagnostics. */
module CsvRepair {
  import opened Text

  const ExpectedColumns: seq<string> :=
    ["PROJECT_ID", "FILE", "COMMIT_HASH", "DATE", "COMMITTER_ID", "LINES_ADDED", "LINES_REMOVED", "NOTE"]
  /** The number of expected columns, `len(expected_columns)`. */
  const FieldCount: nat := 8
  /** The field count is the number of expected columns. */
  lemma FieldCountIsColumns()
    ensures |ExpectedColumns| == FieldCount
  {
  }

  /** Extra fields are glued back onto NOTE with this separator. */
  const NoteSeparator := ", "
  const MaxSamples: nat := 10
  const SampleWidth: nat := 100

  /** What `csv.reader` yields for one stripped line: its fields, or an exception. */
  datatype CsvParse = Fields(fields: seq<string>) | ParseError

  /** One diagnostic: 1-based line number, the field count reported, the first 100 characters. */
  datatype Problem = Problem(lineNumber: nat, fieldCount: nat, sample: string)

  /** The `while len(fields) < expected` loop: right-pad with empty strings. */
  function PadFields(fields: seq<string>): (r: seq<string>)
    requires |fields| <= FieldCount
    ensures |r| == FieldCount
    ensures r[..|fields|] == fields
    ensures forall i :: |fields| <= i < FieldCount ==> r[i] == ""
    decreases FieldCount - |fields|
  {
    if |fields| == FieldCount then fields else PadFields(fields + [""])
  }

  /** Keep the first seven fields and join the rest into NOTE. */
  function MergeOverflow(fields: seq<string>): (r: seq<string>)
    requires |fields| >= FieldCount
    ensures |r| == FieldCount
    ensures r[..FieldCount - 1] == fields[..FieldCount - 1]
    ensures r[FieldCount - 1] == Join(fields[FieldCount - 1..], NoteSeparator)
  {
    fields[..FieldCount - 1] + [Join(fields[FieldCount - 1..], NoteSeparator)]
  }

  /** Repair of the fields `csv.reader` produced. */
  function RepairFields(fields: seq<string>): (r: seq<string>)
    ensures |r| == FieldCount
    ensures |fields| == FieldCount ==> r == fields
    ensures |fields| > FieldCount ==>
      r[..FieldCount - 1] == fields[..FieldCount - 1]
      && r[FieldCount - 1] == Join(fields[FieldCount - 1..], NoteSeparator)
    ensures |fields| < FieldCount ==>
      r[..|fields|] == fields && forall i :: |fields| <= i < FieldCount ==> r[i] == ""
  {
    if |fields| == FieldCount then fields
    else if |fields| > FieldCount then MergeOverflow(fields)
    else PadFields(fields)
  }

  /** Repair after `csv.reader` raised: naive split on ',' and the same
      overflow/underflow handling, with `>=` instead of `>`. */
  function FallbackFields(line: string): (r: seq<string>)
    ensures |r| == FieldCount
  {
    var fields := Split(line, ',');
    if |fields| >= FieldCount then MergeOverflow(fields) else PadFields(fields)
  }

  /** The fallback branch repairs exactly as the `csv.reader` branch would
      repair the naive split: merging a single trailing field is the identity. */
  lemma FallbackAgrees(line: string)
    ensures FallbackFields(line) == RepairFields(Split(line, ','))
  {
    var fields := Split(line, ',');
    if |fields| == FieldCount {
      assert fields[FieldCount - 1..] == [fields[FieldCount - 1]];
      assert MergeOverflow(fields) == fields[..FieldCount - 1] + [fields[FieldCount - 1]];
    }
  }

  /** Repair loses no text of an overlong row: re-joining the repaired row with
      the note separator gives the same text as re-joining the parsed fields. */
  lemma OverflowKeepsText(fields: seq<string>)
    requires |fields| > FieldCount
    ensures Join(RepairFields(fields), NoteSeparator) == Join(fields, NoteSeparator)
  {
    var head := fields[..FieldCount - 1];
    var tail := fields[FieldCount - 1..];
    assert fields == head + tail;
    JoinAppend(head, tail, NoteSeparator);
    JoinAppend(head, [Join(tail, NoteSeparator)], NoteSeparator);
  }

  /** The row one stripped, non-blank line becomes. */
  function RepairLine(line: string, parse: string -> CsvParse): (r: seq<string>)
    ensures |r| == FieldCount
  {
    match parse(line)
    case Fields(f) => RepairFields(f)
    case ParseError => FallbackFields(line)
  }

  function Prefix(line: string, n: nat): (r: string)
    ensures |r| <= n && StartsWith(line, r)
  {
    if |line| <= n then line else line[..n]
  }

  /** The diagnostic as written: for a short row the list has already been
      padded when `len(fields)` is taken, so the reported count is always 8. */
  function SampleAsWritten(lineNumber: nat, fields: seq<string>, line: string): (p: Problem)
    ensures p.lineNumber == lineNumber && |p.sample| <= SampleWidth && StartsWith(line, p.sample)
    ensures p.fieldCount >= FieldCount
    ensures |fields| >= FieldCount ==> p.fieldCount == |fields|
  {
    var reported := if |fields| < FieldCount then FieldCount else |fields|;
    Problem(lineNumber, reported, Prefix(line, SampleWidth))
  }

  /** A two-field line is reported as having eight fields, the count of a good row. */
  lemma SampleAsWrittenHidesShortRow()
    ensures SampleAsWritten(3, ["p", "f"], "p,f").fieldCount == FieldCount
  {
  }

  /** The diagnostic as intended: the number of fields the line was parsed into. */
  function Sample(lineNumber: nat, fields: seq<string>, line: string): (p: Problem)
    ensures p.lineNumber == lineNumber && p.fieldCount == |fields|
    ensures |p.sample| <= SampleWidth && StartsWith(line, p.sample)
  {
    Problem(lineNumber, |fields|, Prefix(line, SampleWidth))
  }

  /** Rows produced by one raw line (none when it strips to nothing). */
  function LineRows(raw: string, parse: string -> CsvParse): seq<seq<string>>
  {
    var line := Strip(raw);
    if line == "" then [] else [RepairLine(line, parse)]
  }

  /** Which diagnostic is recorded: the job's, or the intended one. */
  datatype Recorder = AsWritten | Intended

  /** The diagnostic for line `lineNumber`, parsed into `fields`. */
  function Record(record: Recorder, lineNumber: nat, fields: seq<string>, line: string): (p: Problem)
    ensures p.lineNumber == lineNumber && |p.sample| <= SampleWidth
  {
    match record
    case AsWritten => SampleAsWritten(lineNumber, fields, line)
    case Intended => Sample(lineNumber, fields, line)
  }

  /** Diagnostics produced by the raw line numbered `lineNumber`. */
  function LineProblems(raw: string, lineNumber: nat, parse: string -> CsvParse, record: Recorder): (r: seq<Problem>)
    ensures |r| <= 1 && (|r| == 1 ==> r[0].lineNumber == lineNumber)
  {
    var line := Strip(raw);
    if line == "" then []
    else match parse(line)
      case Fields(f) => if |f| != FieldCount then [Record(record, lineNumber, f, line)] else []
      case ParseError => []
  }

  /** All repaired rows of a file, in line order. */
  function RowsOf(lines: seq<string>, parse: string -> CsvParse): seq<seq<string>>
  {
    if |lines| == 0 then []
    else RowsOf(lines[..|lines| - 1], parse) + LineRows(lines[|lines| - 1], parse)
  }

  /** Every irregular line of a file parsed by `csv.reader`, in line order. */
  function ProblemsOf(lines: seq<string>, parse: string -> CsvParse, record: Recorder): seq<Problem>
  {
    if |lines| == 0 then []
    else ProblemsOf(lines[..|lines| - 1], parse, record) + LineProblems(lines[|lines| - 1], |lines|, parse, record)
  }

  /** The stripped lines that are not blank, in order. */
  function NonBlank(lines: seq<string>): seq<string>
  {
    if |lines| == 0 then []
    else NonBlank(lines[..|lines| - 1]) + (if Strip(lines[|lines| - 1]) == "" then [] else [Strip(lines[|lines| - 1])])
  }

  function FirstN<T>(s: seq<T>, n: nat): (r: seq<T>)
    ensures |r| <= n && |r| <= |s| && r == s[..|r|]
    ensures |s| <= n ==> r == s
    ensures |s| > n ==> |r| == n
  {
    if |s| <= n then s else s[..n]
  }

  /** Keeping the first `n` of a sequence that grows by at most one element. */
  lemma FirstNExtend<T>(s: seq<T>, x: seq<T>, n: nat)
    requires |x| <= 1
    ensures |FirstN(s, n)| < n ==> FirstN(s + x, n) == FirstN(s, n) + x
    ensures |FirstN(s, n)| >= n ==> FirstN(s + x, n) == FirstN(s, n)
  {
    if |FirstN(s, n)| >= n && |x| == 1 {
      assert (s + x)[..n] == s[..n];
    }
  }

  /** One row per non-blank line, in order: the k-th row is the repair of the
      k-th non-blank stripped line. */
  lemma {:induction false} RowsMatchNonBlank(lines: seq<string>, parse: string -> CsvParse)
    ensures |RowsOf(lines, parse)| == |NonBlank(lines)|
    ensures forall k :: 0 <= k < |NonBlank(lines)| ==>
      RowsOf(lines, parse)[k] == RepairLine(NonBlank(lines)[k], parse)
  {
    if |lines| > 0 {
      var init := lines[..|lines| - 1];
      var line := Strip(lines[|lines| - 1]);
      RowsMatchNonBlank(init, parse);
      assert RowsOf(lines, parse) == RowsOf(init, parse) + LineRows(lines[|lines| - 1], parse);
      assert NonBlank(lines) == NonBlank(init) + (if line == "" then [] else [line]);
    }
  }

  /** `p` is a diagnostic that line `p.lineNumber` of `lines` produces. */
  ghost predicate FromItsLine(p: Problem, lines: seq<string>, parse: string -> CsvParse, record: Recorder)
  {
    1 <= p.lineNumber <= |lines| && LineProblems(lines[p.lineNumber - 1], p.lineNumber, parse, record) == [p]
  }

  /** Every diagnostic of a file is one its own line produced. */
  lemma {:induction false} ProblemFromItsLine(lines: seq<string>, parse: string -> CsvParse, record: Recorder, k: nat)
    requires k < |ProblemsOf(lines, parse, record)|
    ensures FromItsLine(ProblemsOf(lines, parse, record)[k], lines, parse, record)
    decreases |lines|
  {
    var init := lines[..|lines| - 1];
    var before := ProblemsOf(init, parse, record);
    var last := LineProblems(lines[|lines| - 1], |lines|, parse, record);
    assert ProblemsOf(lines, parse, record) == before + last;
    if k < |before| {
      ProblemFromItsLine(init, parse, record, k);
      assert ProblemsOf(lines, parse, record)[k] == before[k];
      FromItsLineExtend(before[k], init, lines, parse, record);
    } else {
      assert ProblemsOf(lines, parse, record)[k] == last[0];
      FromLastLine(lines, parse, record);
    }
  }

  /** The diagnostic of the last line, if any, is the diagnostic of its line. */
  lemma FromLastLine(lines: seq<string>, parse: string -> CsvParse, record: Recorder)
    requires |lines| > 0 && |LineProblems(lines[|lines| - 1], |lines|, parse, record)| == 1
    ensures FromItsLine(LineProblems(lines[|lines| - 1], |lines|, parse, record)[0], lines, parse, record)
  {
    var last := LineProblems(lines[|lines| - 1], |lines|, parse, record);
    assert last == [last[0]];
  }

  /** A diagnostic stays the diagnostic of its line when later lines follow. */
  lemma FromItsLineExtend(p: Problem, init: seq<string>, lines: seq<string>, parse: string -> CsvParse, record: Recorder)
    requires FromItsLine(p, init, parse, record) && |init| <= |lines| && init == lines[..|init|]
    ensures FromItsLine(p, lines, parse, record)
  {
    assert lines[p.lineNumber - 1] == init[p.lineNumber - 1];
  }

  /** A line's own diagnostic: the line parsed into a number of fields other
      than eight, and the diagnostic is made from them. */
  lemma LineProblemMeaning(raw: string, lineNumber: nat, parse: string -> CsvParse, record: Recorder, p: Problem)
    requires LineProblems(raw, lineNumber, parse, record) == [p]
    ensures parse(Strip(raw)).Fields? && |parse(Strip(raw)).fields| != FieldCount
    ensures p == Record(record, lineNumber, parse(Strip(raw)).fields, Strip(raw))
  {
  }

  /** How the job reports a raw line: a long line with its field count, a
      short line with eight, the count it has after padding. */
  ghost predicate LineReportedAsWritten(p: Problem, raw: string, parse: string -> CsvParse)
  {
    && |p.sample| <= SampleWidth
    && var fields := parse(Strip(raw));
    && fields.Fields?
    && (p.fieldCount > FieldCount ==> |fields.fields| == p.fieldCount)
    && (p.fieldCount == FieldCount ==> |fields.fields| < FieldCount)
    && p.fieldCount >= FieldCount
  }

  /** How a raw line is reported as intended: with the number of fields it
      parsed into, which is never eight. */
  ghost predicate LineReportedIntended(p: Problem, raw: string, parse: string -> CsvParse)
  {
    && |p.sample| <= SampleWidth
    && var fields := parse(Strip(raw));
    && fields.Fields?
    && p.fieldCount == |fields.fields|
    && p.fieldCount != FieldCount
  }

  /** The job's diagnostic `p` describes line `p.lineNumber` of `lines`. */
  ghost predicate ReportedAsWritten(p: Problem, lines: seq<string>, parse: string -> CsvParse)
  {
    1 <= p.lineNumber <= |lines| && LineReportedAsWritten(p, lines[p.lineNumber - 1], parse)
  }

  /** The intended diagnostic `p` describes line `p.lineNumber` of `lines`. */
  ghost predicate ReportedIntended(p: Problem, lines: seq<string>, parse: string -> CsvParse)
  {
    1 <= p.lineNumber <= |lines| && LineReportedIntended(p, lines[p.lineNumber - 1], parse)
  }

  /** The job's diagnostic of one line is reported as described above. */
  lemma LineAsWritten(p: Problem, lines: seq<string>, parse: string -> CsvParse)
    requires FromItsLine(p, lines, parse, AsWritten)
    ensures ReportedAsWritten(p, lines, parse)
  {
    LineProblemMeaning(lines[p.lineNumber - 1], p.lineNumber, parse, AsWritten, p);
  }

  /** The intended diagnostic of one line is reported as described above. */
  lemma LineIntended(p: Problem, lines: seq<string>, parse: string -> CsvParse)
    requires FromItsLine(p, lines, parse, Intended)
    ensures ReportedIntended(p, lines, parse)
  {
    LineProblemMeaning(lines[p.lineNumber - 1], p.lineNumber, parse, Intended, p);
  }

  /** In the job's diagnostics, a long line is reported with its field count
      and a short line with eight, so a short line looks like a good row. */
  lemma ProblemsAreIrregular(lines: seq<string>, parse: string -> CsvParse, k: nat)
    requires k < |ProblemsOf(lines, parse, AsWritten)|
    ensures ReportedAsWritten(ProblemsOf(lines, parse, AsWritten)[k], lines, parse)
  {
    var p := ProblemsOf(lines, parse, AsWritten)[k];
    ProblemFromItsLine(lines, parse, AsWritten, k);
    LineAsWritten(p, lines, parse);
  }

  /** With the intended diagnostic every recorded count differs from eight,
      so the count alone tells a long line from a short one. */
  lemma ProblemsAreIrregularIntended(lines: seq<string>, parse: string -> CsvParse, k: nat)
    requires k < |ProblemsOf(lines, parse, Intended)|
    ensures ReportedIntended(ProblemsOf(lines, parse, Intended)[k], lines, parse)
  {
    var p := ProblemsOf(lines, parse, Intended)[k];
    ProblemFromItsLine(lines, parse, Intended, k);
    LineIntended(p, lines, parse);
  }

  /** The count the job reports for a diagnostic whose parsed count is known. */
  function Reported(p: Problem): Problem
  {
    p.(fieldCount := if p.fieldCount < FieldCount then FieldCount else p.fieldCount)
  }

  /** `written` is `intended` with each short line's count raised to eight. */
  ghost predicate Corresponds(written: seq<Problem>, intended: seq<Problem>)
  {
    |written| == |intended| && forall k :: 0 <= k < |intended| ==> written[k] == Reported(intended[k])
  }

  lemma CorrespondsAppend(a0: seq<Problem>, i0: seq<Problem>, a1: seq<Problem>, i1: seq<Problem>)
    requires Corresponds(a0, i0) && Corresponds(a1, i1)
    ensures Corresponds(a0 + a1, i0 + i1)
  {
    forall k | 0 <= k < |i0 + i1|
      ensures (a0 + a1)[k] == Reported((i0 + i1)[k])
    {
      if k >= |i0| {
        assert (a0 + a1)[k] == a1[k - |a0|];
      }
    }
  }

  /** One line's two diagnostics, when it has any, differ only in the count. */
  lemma LineCorresponds(raw: string, lineNumber: nat, parse: string -> CsvParse)
    ensures Corresponds(LineProblems(raw, lineNumber, parse, AsWritten), LineProblems(raw, lineNumber, parse, Intended))
  {
  }

  /** The job's diagnostics are the intended ones, line for line, except that
      a short line's count is raised to eight. */
  lemma {:induction false} ProblemsCorrespond(lines: seq<string>, parse: string -> CsvParse)
    ensures Corresponds(ProblemsOf(lines, parse, AsWritten), ProblemsOf(lines, parse, Intended))
  {
    if |lines| > 0 {
      var init := lines[..|lines| - 1];
      ProblemsCorrespond(init, parse);
      LineCorresponds(lines[|lines| - 1], |lines|, parse);
      CorrespondsAppend(ProblemsOf(init, parse, AsWritten), ProblemsOf(init, parse, Intended),
        LineProblems(lines[|lines| - 1], |lines|, parse, AsWritten), LineProblems(lines[|lines| - 1], |lines|, parse, Intended));
    }
  }

  /** The repair loop: one pass over the raw lines of the file. */
  method FixCsvStructure(lines: seq<string>, parse: string -> CsvParse)
    returns (rows: seq<seq<string>>, samples: seq<Problem>)
    ensures rows == RowsOf(lines, parse)
    ensures samples == FirstN(ProblemsOf(lines, parse, AsWritten), MaxSamples)
    ensures |rows| == |NonBlank(lines)|
    ensures forall k :: 0 <= k < |rows| ==> |rows[k]| == FieldCount
    ensures |samples| <= MaxSamples
  {
    rows := [];
    samples := [];
    var i := 0;
    while i < |lines|
      invariant 0 <= i <= |lines|
      invariant rows == RowsOf(lines[..i], parse)
      invariant samples == FirstN(ProblemsOf(lines[..i], parse, AsWritten), MaxSamples)
    {
      assert lines[..i + 1][..i] == lines[..i];
      ghost var before := ProblemsOf(lines[..i], parse, AsWritten);
      var added := LineProblems(lines[i], i + 1, parse, AsWritten);
      assert RowsOf(lines[..i + 1], parse) == rows + LineRows(lines[i], parse);
      assert ProblemsOf(lines[..i + 1], parse, AsWritten) == before + added;
      FirstNExtend(before, added, MaxSamples);
      rows := rows + LineRows(lines[i], parse);
      if |samples| < MaxSamples {
        samples := samples + added;
      }
      i := i + 1;
    }
    assert lines[..i] == lines;
    RowsMatchNonBlank(lines, parse);
  }
}
