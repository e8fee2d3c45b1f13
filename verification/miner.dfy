/** The local miner (Approach2/mine.py): workflow-run conclusions become
    per-commit labels, every labelled commit of the repository history
    becomes one row of change figures, and the rows are de-duplicated by
    commit hash. The history itself is supplied as a sequence of commits. */
module Miner {
  import opened Wrappers
  import opened Text
  import opened Json
  import Distinct
  import Features

  // ---------------------------------------------------------------------
  // Labels from the stored runs
  // ---------------------------------------------------------------------

  /** `(run.get("conclusion") or "").lower()`; None when a truthy value
      that is not text has no `lower()` and the job crashes. */
  function RunConclusion(run: Dict): Option<string>
  {
    var c := Get(run, "conclusion");
    if !Truthy(c) then Some("") else if c.Str? then Some(Lower(c.s)) else None
  }

  /** A run that labels its head commit: a truthy sha and a lower-cased
      conclusion of "success" or "failure". */
  predicate Qualifies(run: Dict)
  {
    Truthy(Get(run, "head_sha")) && (RunConclusion(run) == Some("success") || RunConclusion(run) == Some("failure"))
  }

  /** 0 for a successful run, 1 for a failed one. */
  function LabelOf(run: Dict): int
  {
    if RunConclusion(run) == Some("success") then 0 else 1
  }

  /** `load_labels`: one pass over the runs, a later qualifying run for the
      same sha overwriting an earlier one; None when the job crashes. */
  function LoadLabels(runs: seq<Dict>): Option<map<Value, int>>
    decreases |runs|
  {
    if |runs| == 0 then Some(map[])
    else
      match LoadLabels(runs[..|runs| - 1])
      case None => None
      case Some(labels) =>
        var run := runs[|runs| - 1];
        if RunConclusion(run).None? then None
        else if Qualifies(run) then Some(labels[Get(run, "head_sha") := LabelOf(run)])
        else Some(labels)
  }

  /** The job crashes exactly when some run has a conclusion that is truthy
      but not text. */
  lemma {:induction false} LoadLabelsCrash(runs: seq<Dict>)
    ensures LoadLabels(runs).None? <==> exists i :: 0 <= i < |runs| && RunConclusion(runs[i]).None?
    decreases |runs|
  {
    if |runs| > 0 {
      var init := runs[..|runs| - 1];
      LoadLabelsCrash(init);
      if exists i :: 0 <= i < |init| && RunConclusion(init[i]).None? {
        var i :| 0 <= i < |init| && RunConclusion(init[i]).None?;
        assert runs[i] == init[i];
      }
      if exists i :: 0 <= i < |runs| && RunConclusion(runs[i]).None? {
        var i :| 0 <= i < |runs| && RunConclusion(runs[i]).None?;
        if i < |init| { assert init[i] == runs[i]; }
      }
    }
  }

  /** One step of the pass: the labels of all runs are those of all but the
      last, updated by the last run when it qualifies. */
  lemma LoadLabelsStep(runs: seq<Dict>)
    requires |runs| > 0 && LoadLabels(runs).Some?
    ensures LoadLabels(runs[..|runs| - 1]).Some?
    ensures var run := runs[|runs| - 1]; var before := LoadLabels(runs[..|runs| - 1]).value;
      LoadLabels(runs).value == if Qualifies(run) then before[Get(run, "head_sha") := LabelOf(run)] else before
  {
  }

  /** A sha is labelled exactly when some run qualifies for it. */
  lemma {:induction false} LoadLabelsKeys(runs: seq<Dict>, sha: Value)
    requires LoadLabels(runs).Some?
    ensures sha in LoadLabels(runs).value <==>
      exists i :: 0 <= i < |runs| && Qualifies(runs[i]) && Get(runs[i], "head_sha") == sha
    decreases |runs|
  {
    if |runs| > 0 {
      var init := runs[..|runs| - 1];
      LoadLabelsStep(runs);
      LoadLabelsKeys(init, sha);
      if exists i :: 0 <= i < |runs| && Qualifies(runs[i]) && Get(runs[i], "head_sha") == sha {
        var i :| 0 <= i < |runs| && Qualifies(runs[i]) && Get(runs[i], "head_sha") == sha;
        if i < |init| { assert init[i] == runs[i]; }
      }
      if exists i :: 0 <= i < |init| && Qualifies(init[i]) && Get(init[i], "head_sha") == sha {
        var i :| 0 <= i < |init| && Qualifies(init[i]) && Get(init[i], "head_sha") == sha;
        assert runs[i] == init[i];
      }
    }
  }

  /** The label of a labelled sha is that of the last run qualifying for
      it: 0 or 1. */
  lemma {:induction false} LoadLabelsLastWins(runs: seq<Dict>, sha: Value)
    requires LoadLabels(runs).Some? && sha in LoadLabels(runs).value
    ensures var labels := LoadLabels(runs).value;
      && (labels[sha] == 0 || labels[sha] == 1)
      && (exists i :: 0 <= i < |runs| && Qualifies(runs[i]) && Get(runs[i], "head_sha") == sha
           && labels[sha] == LabelOf(runs[i])
           && forall j :: i < j < |runs| && Get(runs[j], "head_sha") == sha ==> !Qualifies(runs[j]))
    decreases |runs|
  {
    var init := runs[..|runs| - 1];
    var run := runs[|runs| - 1];
    LoadLabelsStep(runs);
    var before := LoadLabels(init).value;
    if Qualifies(run) && Get(run, "head_sha") == sha {
      assert runs[|init|] == run;
    } else {
      assert sha in before;
      LoadLabelsLastWins(init, sha);
      var i :| 0 <= i < |init| && Qualifies(init[i]) && Get(init[i], "head_sha") == sha
        && before[sha] == LabelOf(init[i])
        && forall j :: i < j < |init| && Get(init[j], "head_sha") == sha ==> !Qualifies(init[j]);
      assert runs[i] == init[i];
      forall j | i < j < |runs| && Get(runs[j], "head_sha") == sha ensures !Qualifies(runs[j]) {
        if j < |init| { assert runs[j] == init[j]; }
      }
    }
  }

  // ---------------------------------------------------------------------
  // One commit
  // ---------------------------------------------------------------------

  /** A modified file as the repository walker reports it; each field may
      be None. */
  datatype ModifiedFile = ModifiedFile(
    addedLines: Option<int>, deletedLines: Option<int>, newPath: Option<string>, oldPath: Option<string>)

  /** A commit of the history: its hash, message and modified files. */
  datatype CommitInfo = CommitInfo(hash: string, msg: Option<string>, modifiedFiles: Option<seq<ModifiedFile>>)

  /** The row mined for one labelled commit. */
  datatype MinedRow = MinedRow(
    commitHash: string, linesAdded: int, linesDeleted: int, filesChanged: nat,
    hasFixKeyword: int, changedTests: nat, pipelineFailed: int)

  /** `sum((x or 0) for mf in files)` for a per-file count. */
  function SumOr0(files: seq<ModifiedFile>, count: ModifiedFile -> Option<int>): int
    decreases |files|
  {
    if |files| == 0 then 0 else SumOr0(files[..|files| - 1], count) + count(files[|files| - 1]).GetOr(0)
  }

  /** A file without a count adds nothing to the sum. */
  lemma SumOr0SkipsMissing(files: seq<ModifiedFile>, count: ModifiedFile -> Option<int>, f: ModifiedFile)
    requires count(f).None?
    ensures SumOr0(files + [f], count) == SumOr0(files, count)
  {
    assert (files + [f])[..|files|] == files;
  }

  /** Files with non-negative counts give a non-negative sum. */
  lemma {:induction false} SumOr0NonNegative(files: seq<ModifiedFile>, count: ModifiedFile -> Option<int>)
    requires forall i :: 0 <= i < |files| ==> count(files[i]).GetOr(0) >= 0
    ensures SumOr0(files, count) >= 0
    decreases |files|
  {
    if |files| > 0 {
      var init := files[..|files| - 1];
      assert forall i :: 0 <= i < |init| ==> init[i] == files[i];
      SumOr0NonNegative(init, count);
      assert count(files[|files| - 1]).GetOr(0) >= 0;
    }
  }

  /** `is_test`: "test" or "tests" in the lower-cased new or old path. */
  predicate IsTest(mf: ModifiedFile)
  {
    var p1 := Lower(mf.newPath.GetOr(""));
    var p2 := Lower(mf.oldPath.GetOr(""));
    Contains(p1, "test") || Contains(p1, "tests") || Contains(p2, "test") || Contains(p2, "tests")
  }

  /** The "tests" tests are subsumed: a file is a test file exactly when
      "test" occurs in one of its lower-cased paths. */
  lemma IsTestIff(mf: ModifiedFile)
    ensures IsTest(mf) <==> Contains(Lower(mf.newPath.GetOr("")), "test") || Contains(Lower(mf.oldPath.GetOr("")), "test")
  {
    var p1 := Lower(mf.newPath.GetOr(""));
    var p2 := Lower(mf.oldPath.GetOr(""));
    assert Contains("tests", "test") by {
      assert StartsWith("tests", "test");
    }
    if Contains(p1, "tests") { ContainsTrans(p1, "tests", "test"); }
    if Contains(p2, "tests") { ContainsTrans(p2, "tests", "test"); }
  }

  /** `sum(1 for mf in files if is_test(mf))`. */
  function TestCount(files: seq<ModifiedFile>): (n: nat)
    decreases |files|
  {
    if |files| == 0 then 0 else TestCount(files[..|files| - 1]) + (if IsTest(files[|files| - 1]) then 1 else 0)
  }

  /** No more test files than files, and none exactly when no file is a test file. */
  lemma {:induction false} TestCountBounded(files: seq<ModifiedFile>)
    ensures TestCount(files) <= |files|
    ensures TestCount(files) == 0 <==> forall i :: 0 <= i < |files| ==> !IsTest(files[i])
    decreases |files|
  {
    if |files| > 0 {
      var init := files[..|files| - 1];
      TestCountBounded(init);
      assert forall i :: 0 <= i < |init| ==> init[i] == files[i];
    }
  }

  /** `int(("fix" in msg) or ("bug" in msg))` on the lower-cased message. */
  function MessageFix(msg: string): (flag: int)
    ensures flag == 0 || flag == 1
    ensures flag == 1 <==>
      exists i :: 0 <= i <= |msg| - 3 && (OccursAt(Lower(msg), "fix", i) || OccursAt(Lower(msg), "bug", i))
  {
    var m := Lower(msg);
    ContainsIff(m, "fix");
    ContainsIff(m, "bug");
    if Contains(m, "fix") || Contains(m, "bug") then 1 else 0
  }

  /** The miner's fix flag is narrower than the feature extractor's: every
      message it flags, the keyword list of the extractor flags too. */
  lemma MessageFixImpliesKeyword(msg: string)
    ensures MessageFix(msg) == 1 ==> Features.HasFixKeyword(msg)
  {
    var m := Lower(msg);
    Features.FixKeywordMeaning(msg);
    Features.FixAndBugListed();
    if Contains(m, "fix") {
      assert Contains(m, Features.FixKeywords[0]);
    } else if Contains(m, "bug") {
      assert Contains(m, Features.FixKeywords[4]);
    }
  }

  /** The figures of one commit and, when its hash is labelled, its row;
      `labels.get(commit.hash) is None` skips the commit. */
  function MineCommit(c: CommitInfo, labels: map<Value, int>): (row: Option<MinedRow>)
    ensures row.Some? <==> Str(c.hash) in labels
  {
    var files := c.modifiedFiles.GetOr([]);
    if Str(c.hash) !in labels then None
    else Some(MinedRow(
      c.hash,
      SumOr0(files, (mf: ModifiedFile) => mf.addedLines),
      SumOr0(files, (mf: ModifiedFile) => mf.deletedLines),
      |files|,
      MessageFix(c.msg.GetOr("")),
      TestCount(files),
      labels[Str(c.hash)]))
  }

  /** A mined row carries the commit's hash and label, one file count per
      modified file, a 0/1 fix flag, and no more test files than files. */
  lemma MineCommitMeaning(c: CommitInfo, labels: map<Value, int>)
    requires MineCommit(c, labels).Some?
    ensures var row := MineCommit(c, labels).value;
      && row.commitHash == c.hash
      && row.pipelineFailed == labels[Str(c.hash)]
      && row.filesChanged == |c.modifiedFiles.GetOr([])|
      && (row.hasFixKeyword == 0 || row.hasFixKeyword == 1)
      && row.changedTests <= row.filesChanged
  {
    TestCountBounded(c.modifiedFiles.GetOr([]));
  }

  // ---------------------------------------------------------------------
  // The job
  // ---------------------------------------------------------------------

  /** The rows of the traversed commits whose hash is labelled, in
      traversal order. */
  function MineRows(commits: seq<CommitInfo>, labels: map<Value, int>): (rows: seq<MinedRow>)
    ensures |rows| <= |commits|
    decreases |commits|
  {
    if |commits| == 0 then []
    else
      var prev := MineRows(commits[..|commits| - 1], labels);
      match MineCommit(commits[|commits| - 1], labels)
      case None => prev
      case Some(row) => prev + [row]
  }

  /** Row `k` is the row of some traversed commit. */
  lemma {:induction false} MineRowSource(commits: seq<CommitInfo>, labels: map<Value, int>, k: nat)
    requires k < |MineRows(commits, labels)|
    ensures exists i :: 0 <= i < |commits| && MineCommit(commits[i], labels) == Some(MineRows(commits, labels)[k])
    decreases |commits|
  {
    var init := commits[..|commits| - 1];
    var prev := MineRows(init, labels);
    var rows := MineRows(commits, labels);
    if k < |prev| {
      assert rows[k] == prev[k];
      MineRowSource(init, labels, k);
      var i :| 0 <= i < |init| && MineCommit(init[i], labels) == Some(prev[k]);
      assert commits[i] == init[i];
    } else {
      assert MineCommit(commits[|init|], labels) == Some(rows[k]);
    }
  }

  /** The row of a labelled commit `i` is among the rows. */
  lemma {:induction false} MineRowPresent(commits: seq<CommitInfo>, labels: map<Value, int>, i: nat)
    requires i < |commits| && Str(commits[i].hash) in labels
    ensures MineCommit(commits[i], labels).value in MineRows(commits, labels)
    decreases |commits|
  {
    var init := commits[..|commits| - 1];
    if i < |init| {
      assert commits[i] == init[i];
      MineRowPresent(init, labels, i);
    } else {
      var rows := MineRows(commits, labels);
      assert rows[|rows| - 1] == MineCommit(commits[i], labels).value;
    }
  }

  /** Every row is the row of a labelled commit and has that commit's
      label; every labelled commit gives a row. */
  lemma MineRowsMeaning(commits: seq<CommitInfo>, labels: map<Value, int>)
    ensures var rows := MineRows(commits, labels);
      forall k :: 0 <= k < |rows| ==>
        && Str(rows[k].commitHash) in labels
        && rows[k].pipelineFailed == labels[Str(rows[k].commitHash)]
        && (exists i :: 0 <= i < |commits| && MineCommit(commits[i], labels) == Some(rows[k]))
    ensures var rows := MineRows(commits, labels);
      forall i :: 0 <= i < |commits| && Str(commits[i].hash) in labels ==>
        MineCommit(commits[i], labels).value in rows
  {
    var rows := MineRows(commits, labels);
    forall k | 0 <= k < |rows|
      ensures Str(rows[k].commitHash) in labels && rows[k].pipelineFailed == labels[Str(rows[k].commitHash)]
      ensures exists i :: 0 <= i < |commits| && MineCommit(commits[i], labels) == Some(rows[k])
    {
      MineRowSource(commits, labels, k);
      var i :| 0 <= i < |commits| && MineCommit(commits[i], labels) == Some(rows[k]);
      MineCommitMeaning(commits[i], labels);
    }
    forall i | 0 <= i < |commits| && Str(commits[i].hash) in labels
      ensures MineCommit(commits[i], labels).value in rows
    {
      MineRowPresent(commits, labels, i);
    }
  }

  /** Why the job stops without writing. */
  datatype MineError =
    | ConclusionNotText   // a truthy non-text conclusion has no lower()
    | NoLabeledShas       // "No labeled SHAs found in gha_json (need success/failure)."
    | NoRowsMined         // "No rows mined. Check that your SHAs exist in this repo/branch history."

  /** The hash column of a row, the key of the de-duplication. */
  function HashOf(row: MinedRow): string
  {
    row.commitHash
  }

  /** `main` between loading the runs and writing the table: labels, rows
      of the labelled commits, then `drop_duplicates(subset=["commit_hash"])`. */
  function MineJob(runs: seq<Dict>, commits: seq<CommitInfo>): Result<seq<MinedRow>, MineError>
  {
    match LoadLabels(runs)
    case None => Failure(ConclusionNotText)
    case Some(labels) =>
      if |labels| == 0 then Failure(NoLabeledShas)
      else
        var rows := MineRows(commits, labels);
        if |rows| == 0 then Failure(NoRowsMined)
        else Success(Distinct.FirstByKey(rows, HashOf))
  }

  /** A successful job writes a non-empty table with one row per mined
      hash: the first row mined for it, carrying that commit's label. */
  lemma MineJobFacts(runs: seq<Dict>, commits: seq<CommitInfo>)
    requires MineJob(runs, commits).Success?
    ensures var labels := LoadLabels(runs).value; var rows := MineRows(commits, labels);
      var out := MineJob(runs, commits).value;
      && 0 < |out| <= |rows|
      && Distinct.KeysDistinct(out, HashOf)
      && (forall h :: Distinct.HasKey(out, HashOf, h) <==> Distinct.HasKey(rows, HashOf, h))
      && (forall j :: 0 <= j < |out| ==>
            exists i :: 0 <= i < |rows| && rows[i] == out[j] && Distinct.FirstOfKey(rows, HashOf, i))
      && (forall j :: 0 <= j < |out| ==>
            Str(out[j].commitHash) in labels && out[j].pipelineFailed == labels[Str(out[j].commitHash)])
  {
    var labels := LoadLabels(runs).value;
    var rows := MineRows(commits, labels);
    var out := Distinct.FirstByKey(rows, HashOf);
    Distinct.FirstByKeyDistinct(rows, HashOf);
    Distinct.FirstByKeyFirst(rows, HashOf);
    assert HashOf(rows[0]) == rows[0].commitHash;
    assert Distinct.HasKey(rows, HashOf, rows[0].commitHash);
    forall j | 0 <= j < |out|
      ensures Str(out[j].commitHash) in labels && out[j].pipelineFailed == labels[Str(out[j].commitHash)]
    {
      var i :| 0 <= i < |rows| && rows[i] == out[j] && Distinct.FirstOfKey(rows, HashOf, i);
      MineRowSource(commits, labels, i);
      var m :| 0 <= m < |commits| && MineCommit(commits[m], labels) == Some(rows[i]);
      MineCommitMeaning(commits[m], labels);
    }
  }

  /** Whatever the commits, a run store whose every conclusion is text and
      that labels no sha ends the job before the history is read. */
  lemma NoLabelsStops(runs: seq<Dict>, commits: seq<CommitInfo>)
    requires forall i :: 0 <= i < |runs| ==> RunConclusion(runs[i]).Some? && !Qualifies(runs[i])
    ensures MineJob(runs, commits) == Failure(NoLabeledShas)
  {
    LoadLabelsCrash(runs);
    var labels := LoadLabels(runs).value;
    forall sha | sha in labels ensures false {
      LoadLabelsKeys(runs, sha);
    }
    assert labels == map[];
  }
}
