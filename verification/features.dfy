/** Feature derivation over the repaired export (`enhance_fixed_csv` in
    Approach1/get_metadata_from_commit.py): a fix-keyword flag per row, and
    per-commit `files_changed` / `changed_tests` aggregates computed inside
    each chunk of 10000 rows and broadcast back onto the chunk's rows. */
module Features {
  import opened Text
  import opened Wrappers
  import CsvRepair

  const FixKeywords: seq<string> := [
    "fix", "fixes", "fixed", "fixing", "bug", "bugfix", "patch",
    "resolve", "resolves", "resolved", "resolving", "close", "closes",
    "closed", "closing", "issue", "error", "correct", "repair"
  ]

  /** Rows per chunk of the streaming reader. */
  const ChunkSize: nat := 10000

  /** Cell texts the CSV reader turns into a missing value (NaN) by default. */
  const NaValues: set<string> := {
    "", "#N/A", "#N/A N/A", "#NA", "-1.#IND", "-1.#QNAN", "-NaN", "-nan", "1.#IND",
    "1.#QNAN", "<NA>", "N/A", "NA", "NULL", "NaN", "None", "n/a", "nan", "null"
  }

  predicate IsNa(cell: string)
  {
    cell in NaValues
  }

  /** `str(value)` of a cell as read back: a missing value prints as "nan". */
  function Shown(cell: string): string
  {
    if IsNa(cell) then "nan" else cell
  }

  /** One row of the repaired export, one field per expected column. */
  datatype ChangeRecord = ChangeRecord(
    projectId: string, file: string, commitHash: string, date: string,
    committerId: string, linesAdded: string, linesRemoved: string, note: string)

  function FromFields(fields: seq<string>): (r: ChangeRecord)
    requires |fields| == CsvRepair.FieldCount
    ensures [r.projectId, r.file, r.commitHash, r.date, r.committerId,
             r.linesAdded, r.linesRemoved, r.note] == fields
  {
    ChangeRecord(fields[0], fields[1], fields[2], fields[3], fields[4], fields[5], fields[6], fields[7])
  }

  /** A row after enhancement. The temporary `is_test_file` column is not part
      of it; a row whose COMMIT_HASH is missing gets no aggregate (NaN). */
  datatype EnhancedRecord = EnhancedRecord(
    record: ChangeRecord, hasFixKeyword: bool,
    filesChanged: Option<nat>, changedTests: Option<bool>)

  /** Some keyword of `ks` is a substring of `m` (Python `any(k in m for k in ks)`). */
  predicate AnyKeyword(m: string, ks: seq<string>)
    decreases |ks|
  {
    |ks| > 0 && (Contains(m, ks[0]) || AnyKeyword(m, ks[1..]))
  }

  lemma {:induction false} AnyKeywordIff(m: string, ks: seq<string>)
    ensures AnyKeyword(m, ks) <==> exists k :: 0 <= k < |ks| && Contains(m, ks[k])
    decreases |ks|
  {
    if |ks| > 0 {
      AnyKeywordIff(m, ks[1..]);
      if exists k :: 0 <= k < |ks| && Contains(m, ks[k]) {
        var k :| 0 <= k < |ks| && Contains(m, ks[k]);
        if k > 0 { assert ks[1..][k - 1] == ks[k]; }
      }
      if AnyKeyword(m, ks[1..]) {
        var k :| 0 <= k < |ks[1..]| && Contains(m, ks[1..][k]);
        assert ks[k + 1] == ks[1..][k];
      }
    }
  }

  /** `has_fix_keyword`: some keyword is a substring of the lower-cased message. */
  predicate HasFixKeyword(message: string)
  {
    AnyKeyword(Lower(message), FixKeywords)
  }

  /** The flag holds exactly when one of the listed keywords occurs in the
      lower-cased message. */
  lemma FixKeywordMeaning(message: string)
    ensures HasFixKeyword(message) <==>
      exists k :: 0 <= k < |FixKeywords| && Contains(Lower(message), FixKeywords[k])
  {
    AnyKeywordIff(Lower(message), FixKeywords);
  }

  /** "fix" and "bug" are on the keyword list. */
  lemma FixAndBugListed()
    ensures FixKeywords[0] == "fix" && FixKeywords[4] == "bug"
  {
  }

  /** Worked example: "Fixes bug #123" is a fix. */
  lemma FixExample()
    ensures HasFixKeyword("Fixes bug #123")
  {
    var m := Lower("Fixes bug #123");
    assert m[..3] == "fix";
    assert StartsWith(m, FixKeywords[0]);
    FixKeywordMeaning("Fixes bug #123");
  }

  /** A letter of keyword `k` that the no-fix criterion looks for, and its
      position in the keyword. */
  function KeyLetter(k: nat): (char, nat)
  {
    if k <= 3 then ('f', 0) else if k <= 5 then ('b', 0) else if k == 6 then ('h', 4)
    else if k <= 10 then ('r', 0) else if k <= 14 then ('l', 1) else if k == 15 then ('s', 1)
    else if k == 16 then ('r', 1) else if k == 17 then ('r', 3) else ('r', 0)
  }

  lemma KeyLetterOf(k: nat)
    requires k < |FixKeywords|
    ensures KeyLetter(k).0 in "fbhrls"
    ensures KeyLetter(k).1 < |FixKeywords[k]| && FixKeywords[k][KeyLetter(k).1] == KeyLetter(k).0
  {
  }

  /** A message is no fix when its lower-cased text lacks the letters
      f, b, h, r, l and s: every keyword needs one of them. */
  lemma NoFixWithoutLetters(message: string)
    requires forall c :: c in "fbhrls" ==> c !in Lower(message)
    ensures !HasFixKeyword(message)
  {
    var m := Lower(message);
    FixKeywordMeaning(message);
    forall k | 0 <= k < |FixKeywords| ensures !Contains(m, FixKeywords[k]) {
      KeyLetterOf(k);
      var c := KeyLetter(k).0;
      assert c in FixKeywords[k];
      if Contains(m, FixKeywords[k]) {
        ContainsChar(m, FixKeywords[k], c);
      }
    }
  }

  lemma LowerUpdateDocumentation()
    ensures Lower("Update documentation") == "update documentation"
  {
    var m := Lower("Update documentation");
    assert LowerChar('U') == 'u';
    forall i | 0 <= i < |m| ensures m[i] == "update documentation"[i] {
      if i == 0 {
        assert m[0] == LowerChar('U');
      } else {
        assert "Update documentation"[i] == "update documentation"[i];
      }
    }
  }

  lemma UpdateDocumentationLetters()
    ensures forall c :: c in "fbhrls" ==> c !in "update documentation"
  {
    var t := "update documentation";
    assert forall i :: 0 <= i < |t| ==> t[i] in "updatecmnio ";
  }

  /** Worked example: the commit message "Update documentation" holds no keyword. */
  lemma NoFixExample()
    ensures !HasFixKeyword("Update documentation")
  {
    LowerUpdateDocumentation();
    UpdateDocumentationLetters();
    NoFixWithoutLetters("Update documentation");
  }

  /** Rows of `rows` with COMMIT_HASH `h` (the size of the group-by group). */
  function CountHash(rows: seq<ChangeRecord>, h: string): (n: nat)
    ensures n <= |rows|
  {
    if |rows| == 0 then 0
    else CountHash(rows[..|rows| - 1], h) + (if rows[|rows| - 1].commitHash == h then 1 else 0)
  }

  /** Some row of `rows` with COMMIT_HASH `h` touches a test file. */
  predicate GroupHasTest(rows: seq<ChangeRecord>, h: string, isTest: string -> bool)
    decreases |rows|
  {
    |rows| > 0 &&
    (GroupHasTest(rows[..|rows| - 1], h, isTest)
     || (rows[|rows| - 1].commitHash == h && isTest(Shown(rows[|rows| - 1].file))))
  }

  lemma {:induction false} GroupHasTestIff(rows: seq<ChangeRecord>, h: string, isTest: string -> bool)
    ensures GroupHasTest(rows, h, isTest) <==>
      exists j :: 0 <= j < |rows| && rows[j].commitHash == h && isTest(Shown(rows[j].file))
    decreases |rows|
  {
    if |rows| > 0 {
      var init := rows[..|rows| - 1];
      GroupHasTestIff(init, h, isTest);
      if exists j :: 0 <= j < |rows| && rows[j].commitHash == h && isTest(Shown(rows[j].file)) {
        var j :| 0 <= j < |rows| && rows[j].commitHash == h && isTest(Shown(rows[j].file));
        if j < |rows| - 1 { assert init[j] == rows[j]; }
      }
      if GroupHasTest(init, h, isTest) {
        var j :| 0 <= j < |init| && init[j].commitHash == h && isTest(Shown(init[j].file));
        assert rows[j] == init[j];
      }
    }
  }

  /** The group keys of a chunk: its non-missing commit hashes. */
  function GroupKeys(rows: seq<ChangeRecord>): set<string>
  {
    set j | 0 <= j < |rows| && !IsNa(rows[j].commitHash) :: rows[j].commitHash
  }

  /** The enhanced form of row `r` of `chunk`, aggregates taken over `chunk`. */
  function EnhanceRow(chunk: seq<ChangeRecord>, r: ChangeRecord, isTest: string -> bool, isFix: string -> bool): EnhancedRecord
  {
    var h := r.commitHash;
    EnhancedRecord(
      r, isFix(Shown(r.note)),
      if IsNa(h) then None else Some(CountHash(chunk, h)),
      if IsNa(h) then None else Some(GroupHasTest(chunk, h, isTest)))
  }

  /** The per-chunk derivation, stated row by row. */
  function EnhanceChunk(chunk: seq<ChangeRecord>, isTest: string -> bool, isFix: string -> bool): (out: seq<EnhancedRecord>)
    ensures |out| == |chunk|
    ensures forall i :: 0 <= i < |chunk| ==> out[i] == EnhanceRow(chunk, chunk[i], isTest, isFix)
  {
    seq(|chunk|, i requires 0 <= i < |chunk| => EnhanceRow(chunk, chunk[i], isTest, isFix))
  }

  lemma GroupHasTestSnoc(s: seq<ChangeRecord>, r: ChangeRecord, isTest: string -> bool)
    ensures forall h :: GroupHasTest(s + [r], h, isTest) <==>
      GroupHasTest(s, h, isTest) || (r.commitHash == h && isTest(Shown(r.file)))
  {
    assert (s + [r])[..|s|] == s;
  }

  lemma CountHashSnoc(s: seq<ChangeRecord>, r: ChangeRecord)
    ensures forall h :: CountHash(s + [r], h) == CountHash(s, h) + (if r.commitHash == h then 1 else 0)
  {
    assert (s + [r])[..|s|] == s;
  }

  lemma GroupKeysSnoc(s: seq<ChangeRecord>, r: ChangeRecord)
    ensures GroupKeys(s + [r]) == GroupKeys(s) + (if IsNa(r.commitHash) then {} else {r.commitHash})
  {
    var t := s + [r];
    forall h | h in GroupKeys(t) ensures h in GroupKeys(s) || (h == r.commitHash && !IsNa(h)) {
      var j :| 0 <= j < |t| && !IsNa(t[j].commitHash) && t[j].commitHash == h;
      if j < |s| { assert t[j] == s[j]; }
    }
    forall h | h in GroupKeys(s) ensures h in GroupKeys(t) {
      var j :| 0 <= j < |s| && !IsNa(s[j].commitHash) && s[j].commitHash == h;
      assert t[j] == s[j];
    }
    if !IsNa(r.commitHash) {
      assert t[|s|] == r;
    }
  }

  /** `sizes` and `tests` are the group-by dictionaries of `rows`. */
  ghost predicate Grouped(rows: seq<ChangeRecord>, sizes: map<string, nat>, tests: map<string, bool>, isTest: string -> bool)
  {
    && sizes.Keys == GroupKeys(rows) && tests.Keys == GroupKeys(rows)
    && (forall h :: h in sizes ==> sizes[h] == CountHash(rows, h) && sizes[h] > 0)
    && (forall h :: h in tests ==> (tests[h] <==> GroupHasTest(rows, h, isTest)))
    && (forall h :: h !in sizes && !IsNa(h) ==> CountHash(rows, h) == 0)
  }

  /** Folding one more row into the dictionaries; a missing hash is not a key. */
  function AddToGroups(sizes: map<string, nat>, tests: map<string, bool>, r: ChangeRecord, isTest: string -> bool)
    : (map<string, nat>, map<string, bool>)
  {
    var h := r.commitHash;
    var t := isTest(Shown(r.file));
    if IsNa(h) then (sizes, tests)
    else if h in sizes && h in tests then (sizes[h := sizes[h] + 1], tests[h := tests[h] || t])
    else (sizes[h := 1], tests[h := t])
  }

  lemma GroupStepKeys(rows: seq<ChangeRecord>, r: ChangeRecord, sizes: map<string, nat>, tests: map<string, bool>, isTest: string -> bool)
    requires Grouped(rows, sizes, tests, isTest)
    ensures AddToGroups(sizes, tests, r, isTest).0.Keys == GroupKeys(rows + [r])
    ensures AddToGroups(sizes, tests, r, isTest).1.Keys == GroupKeys(rows + [r])
  {
    GroupKeysSnoc(rows, r);
  }

  lemma GroupStepSizes(rows: seq<ChangeRecord>, r: ChangeRecord, sizes: map<string, nat>, tests: map<string, bool>, isTest: string -> bool)
    requires Grouped(rows, sizes, tests, isTest)
    ensures var s2 := AddToGroups(sizes, tests, r, isTest).0;
      (forall h :: h in s2 ==> s2[h] == CountHash(rows + [r], h) && s2[h] > 0)
      && (forall h :: h !in s2 && !IsNa(h) ==> CountHash(rows + [r], h) == 0)
  {
    CountHashSnoc(rows, r);
  }

  lemma GroupStepTests(rows: seq<ChangeRecord>, r: ChangeRecord, sizes: map<string, nat>, tests: map<string, bool>, isTest: string -> bool)
    requires Grouped(rows, sizes, tests, isTest)
    ensures var t2 := AddToGroups(sizes, tests, r, isTest).1;
      forall h :: h in t2 ==> (t2[h] <==> GroupHasTest(rows + [r], h, isTest))
  {
    GroupHasTestSnoc(rows, r, isTest);
    var h := r.commitHash;
    if !IsNa(h) && h !in sizes {
      if GroupHasTest(rows, h, isTest) { GroupHasTestCounted(rows, h, isTest); }
    }
  }

  /** A group with a test file is a group: its hash occurs. */
  lemma {:induction false} GroupHasTestCounted(rows: seq<ChangeRecord>, h: string, isTest: string -> bool)
    requires GroupHasTest(rows, h, isTest)
    ensures CountHash(rows, h) > 0
    decreases |rows|
  {
    var init := rows[..|rows| - 1];
    if GroupHasTest(init, h, isTest) {
      GroupHasTestCounted(init, h, isTest);
    }
  }

  lemma GroupStep(rows: seq<ChangeRecord>, r: ChangeRecord, sizes: map<string, nat>, tests: map<string, bool>, isTest: string -> bool)
    requires Grouped(rows, sizes, tests, isTest)
    ensures Grouped(rows + [r], AddToGroups(sizes, tests, r, isTest).0, AddToGroups(sizes, tests, r, isTest).1, isTest)
  {
    GroupStepKeys(rows, r, sizes, tests, isTest);
    GroupStepSizes(rows, r, sizes, tests, isTest);
    GroupStepTests(rows, r, sizes, tests, isTest);
  }

  /** The two group-by dictionaries (`size()` and `any()` of `is_test_file`). */
  method GroupByCommit(chunk: seq<ChangeRecord>, isTest: string -> bool)
    returns (sizes: map<string, nat>, tests: map<string, bool>)
    ensures sizes.Keys == GroupKeys(chunk) && tests.Keys == GroupKeys(chunk)
    ensures forall h :: h in sizes ==> sizes[h] == CountHash(chunk, h) && sizes[h] > 0
    ensures forall h :: h in tests ==> (tests[h] <==> GroupHasTest(chunk, h, isTest))
  {
    sizes := map[];
    tests := map[];
    var i := 0;
    while i < |chunk|
      invariant 0 <= i <= |chunk|
      invariant Grouped(chunk[..i], sizes, tests, isTest)
    {
      assert chunk[..i + 1] == chunk[..i] + [chunk[i]];
      GroupStep(chunk[..i], chunk[i], sizes, tests, isTest);
      sizes, tests := AddToGroups(sizes, tests, chunk[i], isTest).0, AddToGroups(sizes, tests, chunk[i], isTest).1;
      i := i + 1;
    }
    assert chunk[..i] == chunk;
  }

  /** Looking a row's hash up in the group-by dictionaries gives the row's
      aggregates, and nothing for a missing hash. */
  lemma LookupAgrees(chunk: seq<ChangeRecord>, i: nat, sizes: map<string, nat>, tests: map<string, bool>, isTest: string -> bool, isFix: string -> bool)
    requires i < |chunk|
    requires sizes.Keys == GroupKeys(chunk) && tests.Keys == GroupKeys(chunk)
    requires forall h :: h in sizes ==> sizes[h] == CountHash(chunk, h) && sizes[h] > 0
    requires forall h :: h in tests ==> (tests[h] <==> GroupHasTest(chunk, h, isTest))
    ensures var h := chunk[i].commitHash;
      (if h in sizes then Some(sizes[h]) else None) == EnhanceRow(chunk, chunk[i], isTest, isFix).filesChanged
      && (if h in tests then Some(tests[h]) else None) == EnhanceRow(chunk, chunk[i], isTest, isFix).changedTests
  {
    var h := chunk[i].commitHash;
    if !IsNa(h) { assert h in GroupKeys(chunk); }
  }

  /** The chunk step as the source computes it: group, then map every row's
      COMMIT_HASH through the two dictionaries. It agrees with the row-by-row
      statement, so `files_changed` is the size of the row's commit group and
      `changed_tests` holds iff some file of the group is a test file. */
  method EnhanceChunkByGroups(chunk: seq<ChangeRecord>, isTest: string -> bool, isFix: string -> bool)
    returns (out: seq<EnhancedRecord>)
    ensures out == EnhanceChunk(chunk, isTest, isFix)
    ensures |out| == |chunk|
    ensures forall i :: 0 <= i < |chunk| ==> out[i].record == chunk[i]
    ensures forall i :: 0 <= i < |chunk| && !IsNa(chunk[i].commitHash) ==>
      out[i].filesChanged == Some(CountHash(chunk, chunk[i].commitHash))
      && out[i].changedTests == Some(GroupHasTest(chunk, chunk[i].commitHash, isTest))
  {
    var sizes, tests := GroupByCommit(chunk, isTest);
    out := [];
    var i := 0;
    while i < |chunk|
      invariant 0 <= i <= |chunk|
      invariant |out| == i
      invariant forall k :: 0 <= k < i ==> out[k] == EnhanceRow(chunk, chunk[k], isTest, isFix)
    {
      var r := chunk[i];
      var files := if r.commitHash in sizes then Some(sizes[r.commitHash]) else None;
      var anyTest := if r.commitHash in tests then Some(tests[r.commitHash]) else None;
      LookupAgrees(chunk, i, sizes, tests, isTest, isFix);
      out := out + [EnhancedRecord(r, isFix(Shown(r.note)), files, anyTest)];
      i := i + 1;
    }
  }

  /** The whole file: consecutive chunks of ChunkSize rows, each enhanced on its own. */
  function EnhanceFile(rows: seq<ChangeRecord>, isTest: string -> bool, isFix: string -> bool): (out: seq<EnhancedRecord>)
    ensures |out| == |rows|
    ensures forall i :: 0 <= i < |rows| ==> out[i].record == rows[i]
    ensures forall i :: 0 <= i < |rows| ==> out[i].hasFixKeyword == isFix(Shown(rows[i].note))
    decreases |rows|
  {
    if |rows| <= ChunkSize then EnhanceChunk(rows, isTest, isFix)
    else EnhanceChunk(rows[..ChunkSize], isTest, isFix) + EnhanceFile(rows[ChunkSize..], isTest, isFix)
  }

  lemma {:induction false} CountHashAppend(a: seq<ChangeRecord>, b: seq<ChangeRecord>, h: string)
    ensures CountHash(a + b, h) == CountHash(a, h) + CountHash(b, h)
    decreases |b|
  {
    if |b| > 0 {
      assert (a + b)[..|a + b| - 1] == a + b[..|b| - 1];
      CountHashAppend(a, b[..|b| - 1], h);
    } else {
      assert a + b == a;
    }
  }

  /** Chunk-local aggregation can only under-count: a row's `files_changed`
      is at least 1 and never exceeds the number of rows of the whole file
      sharing its hash, and equals it for a file that fits in one chunk. */
  lemma {:induction false} ChunkUndercount(rows: seq<ChangeRecord>, isTest: string -> bool, isFix: string -> bool, i: nat)
    requires i < |rows| && !IsNa(rows[i].commitHash)
    ensures EnhanceFile(rows, isTest, isFix)[i].filesChanged.Some?
    ensures 0 < EnhanceFile(rows, isTest, isFix)[i].filesChanged.value <= CountHash(rows, rows[i].commitHash)
    ensures |rows| <= ChunkSize ==>
      EnhanceFile(rows, isTest, isFix)[i].filesChanged == Some(CountHash(rows, rows[i].commitHash))
    decreases |rows|
  {
    if |rows| <= ChunkSize {
      assert EnhanceFile(rows, isTest, isFix) == EnhanceChunk(rows, isTest, isFix);
      ChunkRowCount(rows, isTest, isFix, i);
    } else if i < ChunkSize {
      FirstChunkUndercount(rows, isTest, isFix, i);
    } else {
      ChunkUndercount(rows[ChunkSize..], isTest, isFix, i - ChunkSize);
      RestChunkUndercount(rows, isTest, isFix, i);
    }
  }

  /** A row of the first chunk counts only the first chunk's rows. */
  lemma {:induction false} FirstChunkUndercount(rows: seq<ChangeRecord>, isTest: string -> bool, isFix: string -> bool, i: nat)
    requires ChunkSize < |rows| && i < ChunkSize && !IsNa(rows[i].commitHash)
    ensures EnhanceFile(rows, isTest, isFix)[i].filesChanged.Some?
    ensures 0 < EnhanceFile(rows, isTest, isFix)[i].filesChanged.value <= CountHash(rows, rows[i].commitHash)
  {
    var h := rows[i].commitHash;
    var first := rows[..ChunkSize];
    CountHashSplit(rows, h);
    EnhanceFileAt(rows, isTest, isFix, i);
    assert first[i] == rows[i];
    ChunkRowCount(first, isTest, isFix, i);
  }

  /** A row past the first chunk is enhanced within the rest of the file,
      whose count of its hash is bounded by the whole file's. */
  lemma {:induction false} RestChunkUndercount(rows: seq<ChangeRecord>, isTest: string -> bool, isFix: string -> bool, i: nat)
    requires ChunkSize < |rows| && ChunkSize <= i < |rows|
    ensures EnhanceFile(rows, isTest, isFix)[i] == EnhanceFile(rows[ChunkSize..], isTest, isFix)[i - ChunkSize]
    ensures CountHash(rows[ChunkSize..], rows[i].commitHash) <= CountHash(rows, rows[i].commitHash)
    ensures rows[ChunkSize..][i - ChunkSize] == rows[i]
  {
    CountHashSplit(rows, rows[i].commitHash);
    EnhanceFileAt(rows, isTest, isFix, i);
  }

  /** Counting over a file is counting over its first chunk and the rest. */
  lemma {:induction false} CountHashSplit(rows: seq<ChangeRecord>, h: string)
    requires ChunkSize < |rows|
    ensures CountHash(rows, h) == CountHash(rows[..ChunkSize], h) + CountHash(rows[ChunkSize..], h)
  {
    assert rows == rows[..ChunkSize] + rows[ChunkSize..];
    CountHashAppend(rows[..ChunkSize], rows[ChunkSize..], h);
  }

  /** Within one chunk a row's `files_changed` is the positive count of the
      chunk's rows sharing its hash. */
  lemma {:induction false} ChunkRowCount(chunk: seq<ChangeRecord>, isTest: string -> bool, isFix: string -> bool, i: nat)
    requires i < |chunk| && !IsNa(chunk[i].commitHash)
    ensures EnhanceChunk(chunk, isTest, isFix)[i].filesChanged == Some(CountHash(chunk, chunk[i].commitHash))
    ensures 0 < CountHash(chunk, chunk[i].commitHash)
  {
    CountHashPositive(chunk, i);
  }

  /** Row `i` of a file longer than one chunk comes from the first chunk or
      from the rest of the file. */
  lemma EnhanceFileAt(rows: seq<ChangeRecord>, isTest: string -> bool, isFix: string -> bool, i: nat)
    requires ChunkSize < |rows| && i < |rows|
    ensures i < ChunkSize ==>
      EnhanceFile(rows, isTest, isFix)[i] == EnhanceChunk(rows[..ChunkSize], isTest, isFix)[i]
    ensures ChunkSize <= i ==>
      EnhanceFile(rows, isTest, isFix)[i] == EnhanceFile(rows[ChunkSize..], isTest, isFix)[i - ChunkSize]
  {
    var a := EnhanceChunk(rows[..ChunkSize], isTest, isFix);
    var b := EnhanceFile(rows[ChunkSize..], isTest, isFix);
    assert EnhanceFile(rows, isTest, isFix) == a + b;
    assert |a| == ChunkSize;
  }

  lemma {:induction false} CountHashPositive(rows: seq<ChangeRecord>, i: nat)
    requires i < |rows|
    ensures CountHash(rows, rows[i].commitHash) > 0
    decreases |rows|
  {
    if i < |rows| - 1 {
      assert rows[..|rows| - 1][i] == rows[i];
      CountHashPositive(rows[..|rows| - 1], i);
    }
  }

  /** Repair followed by enhancement: one enhanced row per non-blank line of
      the raw export, carrying that line's repaired fields. */
  function RepairAndEnhance(lines: seq<string>, parse: string -> CsvRepair.CsvParse, isTest: string -> bool): seq<EnhancedRecord>
  {
    var rows := CsvRepair.RowsOf(lines, parse);
    CsvRepair.RowsMatchNonBlank(lines, parse);
    var records := seq(|rows|, k requires 0 <= k < |rows| => FromFields(rows[k]));
    EnhanceFile(records, isTest, HasFixKeyword)
  }

  lemma RepairAndEnhanceRows(lines: seq<string>, parse: string -> CsvRepair.CsvParse, isTest: string -> bool)
    ensures |RepairAndEnhance(lines, parse, isTest)| == |CsvRepair.NonBlank(lines)|
    ensures forall k :: 0 <= k < |CsvRepair.NonBlank(lines)| ==>
      var e := RepairAndEnhance(lines, parse, isTest)[k];
      FromFields(CsvRepair.RepairLine(CsvRepair.NonBlank(lines)[k], parse)) == e.record
      && (e.hasFixKeyword <==> HasFixKeyword(Shown(e.record.note)))
  {
    CsvRepair.RowsMatchNonBlank(lines, parse);
  }

  /** The worked example: two of three rows share "abc123" and one of those two
      is a test file, so both get files_changed 2 and changed_tests true. */
  lemma SharedCommitExample(a: ChangeRecord, b: ChangeRecord, c: ChangeRecord, isTest: string -> bool, isFix: string -> bool)
    requires a.commitHash == "abc123" && b.commitHash == "abc123" && c.commitHash != "abc123"
    requires isTest(Shown(a.file))
    ensures EnhanceChunk([a, b, c], isTest, isFix)[0].filesChanged == Some(2)
    ensures EnhanceChunk([a, b, c], isTest, isFix)[1].filesChanged == Some(2)
    ensures EnhanceChunk([a, b, c], isTest, isFix)[1].changedTests == Some(true)
    ensures EnhanceChunk([a, b, c], isTest, isFix)[0].changedTests == Some(true)
  {
    var chunk := [a, b, c];
    assert !IsNa("abc123");
    assert CountHash(chunk, "abc123") == 2 by {
      CountHashSnoc([], a);
      CountHashSnoc([a], b);
      CountHashSnoc([a, b], c);
      assert [] + [a] == [a] && [a] + [b] == [a, b] && [a, b] + [c] == chunk;
    }
    assert GroupHasTest(chunk, "abc123", isTest) by {
      GroupHasTestIff(chunk, "abc123", isTest);
      assert chunk[0] == a;
    }
  }
}
