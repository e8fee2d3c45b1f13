/** The remote labeler (Approach1/label.py): the decisions it takes on
    GitHub responses, with every response supplied as a value. A commit is
    labelled from its workflow runs, or from its combined commit status when
    it has none, and the per-commit results are broadcast onto the rows of
    the input table. */
module Labeler {
  import opened Wrappers
  import opened Text
  import Distinct
  import opened Json

  /** `{'owner': ..., 'repo': ...}`. */
  datatype Repo = Repo(owner: string, repo: string)

  const ApacheGroup: string := "org.apache"

  /** The owner derived from a Maven group id: every "org." and then every
      "com." removed. */
  function GroupOwner(group: string): string
  {
    ReplaceAll(ReplaceAll(group, "org.", ""), "com.", "")
  }

  /** `extract_github_info`: Apache coordinates, other `group:artifact`
      coordinates, then `owner/repo`; a ':' takes precedence over a '/'. */
  function ExtractGithubInfo(projectId: string): (r: Option<Repo>)
    ensures r.None? <==> ':' !in projectId && '/' !in projectId
    ensures ':' in projectId ==> r.Some? && ':' !in r.value.repo
  {
    if StartsWith(projectId, ApacheGroup + ":") then
      assert projectId[10] == ':';
      Some(Repo("apache", Split(projectId, ':')[1]))
    else if ':' in projectId then
      var parts := Split(projectId, ':');
      Some(Repo(GroupOwner(parts[0]), parts[1]))
    else if '/' in projectId then
      var parts := Split(projectId, '/');
      Some(Repo(parts[0], parts[1]))
    else None
  }

  /** "org.apache:<repo>" followed by nothing or by further ":"-parts names
      the Apache repository `repo`. */
  lemma ApacheIdRoundTrip(repo: string, rest: string)
    requires ':' !in repo
    requires rest == "" || rest[0] == ':'
    ensures ExtractGithubInfo(ApacheGroup + ":" + repo + rest) == Some(Repo("apache", repo))
  {
    var id := ApacheGroup + ":" + repo + rest;
    assert id == ApacheGroup + [':'] + repo + rest;
    SplitFirstTwo(ApacheGroup, repo, rest, ':');
    assert id[..11] == ApacheGroup + ":";
  }

  /** Any other "<group>:<artifact>" names the repository `artifact` of the
      owner derived from `group`, even when the id also holds a '/'. */
  lemma GroupIdRoundTrip(group: string, artifact: string, rest: string)
    requires ':' !in group && ':' !in artifact && group != ApacheGroup
    requires rest == "" || rest[0] == ':'
    ensures ExtractGithubInfo(group + ":" + artifact + rest) == Some(Repo(GroupOwner(group), artifact))
  {
    var id := group + ":" + artifact + rest;
    assert id == group + [':'] + artifact + rest;
    SplitFirstTwo(group, artifact, rest, ':');
    assert id[|group|] == ':';
    NotApache(group, id);
  }

  /** An id whose first ':' ends a group other than "org.apache" does not
      start with "org.apache:". */
  lemma NotApache(group: string, id: string)
    requires ':' !in group && group != ApacheGroup
    requires |group| < |id| && id[..|group|] == group && id[|group|] == ':'
    ensures !StartsWith(id, ApacheGroup + ":")
  {
    var p := ApacheGroup + ":";
    if |id| < 11 {
    } else if |group| < 10 {
      assert p[|group|] != ':';
      assert id[..11][|group|] != p[|group|];
    } else if |group| > 10 {
      assert id[10] == group[10];
      assert id[..11][10] != p[10];
    } else {
      var k :| 0 <= k < 10 && group[k] != ApacheGroup[k];
      assert id[k] == group[k];
      assert id[..11][k] != p[k];
    }
  }

  /** "<owner>/<repo>" without any ':' names `repo` of `owner`. */
  lemma SlashIdRoundTrip(owner: string, repo: string, rest: string)
    requires '/' !in owner && '/' !in repo && ':' !in owner && ':' !in repo && ':' !in rest
    requires rest == "" || rest[0] == '/'
    ensures ExtractGithubInfo(owner + "/" + repo + rest) == Some(Repo(owner, repo))
  {
    var id := owner + "/" + repo + rest;
    assert id == owner + ['/'] + repo + rest;
    SplitFirstTwo(owner, repo, rest, '/');
    assert ':' !in id;
    assert !StartsWith(id, ApacheGroup + ":") by {
      if |id| >= 11 { assert id[..11][10] == id[10]; }
    }
  }

  /** Worked example: Apache coordinates. */
  lemma ApacheExample()
    ensures ExtractGithubInfo("org.apache:commons-lang") == Some(Repo("apache", "commons-lang"))
  {
    assert ApacheGroup + ":" + "commons-lang" + "" == "org.apache:commons-lang";
    assert ':' !in "commons-lang";
    ApacheIdRoundTrip("commons-lang", "");
  }

  /** Worked example: a GitHub slug. */
  lemma SlashExample()
    ensures ExtractGithubInfo("apache/kafka") == Some(Repo("apache", "kafka"))
  {
    SlashIdRoundTrip("apache", "kafka", "");
    assert "apache" + "/" + "kafka" + "" == "apache/kafka";
  }

  /** Worked example: Maven coordinates of a non-Apache group. */
  lemma GroupExample()
    ensures ExtractGithubInfo("com.google:guava") == Some(Repo("google", "guava"))
  {
    assert "com.google" + ":" + "guava" + "" == "com.google:guava";
    assert ':' !in "com.google" && ':' !in "guava";
    assert "com.google" != ApacheGroup;
    GroupIdRoundTrip("com.google", "guava", "");
    GroupOwnerExample();
  }

  /** Worked example: the "com." prefix is dropped from the owner. */
  lemma GroupOwnerExample()
    ensures GroupOwner("com.google") == "google"
  {
    ReplaceMissingChar("com.google", "org.", "", 'r');
    DropComExample();
  }
  lemma DropComExample()
    ensures ReplaceAll("com.google", "com.", "") == "google"
  {
    assert "com.google" == "com." + "google";
    ReplaceLeading("com.", "google", "");
    ReplaceMissingChar("google", "com.", "", 'c');
  }

  /** `check_rate_limit` queries the limit on every 50th API call: the number
      of queries after `calls` calls. */
  function RateLimitQueries(calls: nat): nat
  {
    if calls == 0 then 0
    else RateLimitQueries(calls - 1) + (if calls % 50 == 0 then 1 else 0)
  }

  lemma {:induction false} RateLimitEvery50(calls: nat)
    ensures RateLimitQueries(calls) == calls / 50
  {
    if calls > 0 {
      RateLimitEvery50(calls - 1);
      assert calls / 50 == (calls - 1) / 50 + (if calls % 50 == 0 then 1 else 0);
    }
  }

  // ---------------------------------------------------------------------
  // Workflow runs of a commit

  /** A workflow run of the Actions response, reduced to what labelling
      reads: its id, its conclusion (None when absent or null) and, when both
      timestamps are present and parse, its duration in seconds. */
  datatype WorkflowRun = WorkflowRun(id: Value, conclusion: Option<string>, duration: Option<real>)

  /** A conclusion that survives `if run.get('conclusion')`. */
  predicate Concluded(c: Option<string>)
  {
    c.Some? && c.value != ""
  }

  /** The conclusions that count, in run order. */
  function Conclusions(runs: seq<WorkflowRun>): (cs: seq<string>)
    ensures |cs| <= |runs|
    decreases |runs|
  {
    if |runs| == 0 then []
    else
      var c := runs[|runs| - 1].conclusion;
      Conclusions(runs[..|runs| - 1]) + (if Concluded(c) then [c.value] else [])
  }

  /** Some run has conclusion `c`. */
  predicate AnyRun(runs: seq<WorkflowRun>, c: string)
  {
    exists i :: 0 <= i < |runs| && runs[i].conclusion == Some(c)
  }

  lemma {:induction false} ConclusionsMembers(runs: seq<WorkflowRun>)
    ensures forall c :: c in Conclusions(runs) <==> c != "" && AnyRun(runs, c)
    decreases |runs|
  {
    if |runs| > 0 {
      var init := runs[..|runs| - 1];
      var last := runs[|runs| - 1].conclusion;
      ConclusionsMembers(init);
      forall c ensures AnyRun(runs, c) <==> AnyRun(init, c) || last == Some(c) {
        if AnyRun(runs, c) {
          var i :| 0 <= i < |runs| && runs[i].conclusion == Some(c);
          if i < |init| { assert init[i] == runs[i]; }
        }
        if AnyRun(init, c) {
          var i :| 0 <= i < |init| && init[i].conclusion == Some(c);
          assert runs[i] == init[i];
        }
      }
    }
  }

  /** Python `xs.count(x)`. */
  function Count(xs: seq<string>, x: string): (n: nat)
    ensures n <= |xs|
    decreases |xs|
  {
    if |xs| == 0 then 0
    else Count(xs[..|xs| - 1], x) + (if xs[|xs| - 1] == x then 1 else 0)
  }

  lemma {:induction false} CountPositive(xs: seq<string>, x: string)
    ensures Count(xs, x) > 0 <==> x in xs
    decreases |xs|
  {
    if |xs| > 0 {
      var init := xs[..|xs| - 1];
      CountPositive(init, x);
      assert xs == init + [xs[|xs| - 1]];
    }
  }

  /** Counts of four different values never exceed the length. */
  lemma {:induction false} CountsBounded(xs: seq<string>, a: string, b: string, c: string, d: string)
    requires a != b && a != c && a != d && b != c && b != d && c != d
    ensures Count(xs, a) + Count(xs, b) + Count(xs, c) + Count(xs, d) <= |xs|
    decreases |xs|
  {
    if |xs| > 0 {
      CountsBounded(xs[..|xs| - 1], a, b, c, d);
    }
  }

  /** The priority chain of `get_github_actions_status`. */
  function BuildConclusion(cs: seq<string>): string
  {
    var failures := Count(cs, "failure");
    var successes := Count(cs, "success");
    if failures > 0 then "failed"
    else if successes > 0 && failures == 0 then "passed"
    else if Count(cs, "cancelled") > 0 then "cancelled"
    else if |cs| > 0 then "mixed"
    else "pending"
  }

  /** The label of a run list, stated through the runs themselves: a failed
      run decides, then a successful one, then a cancelled one; any other
      conclusion gives "mixed", and no conclusion at all "pending". */
  lemma ConclusionPriority(runs: seq<WorkflowRun>)
    ensures var verdict := BuildConclusion(Conclusions(runs));
      && (verdict == "failed" <==> AnyRun(runs, "failure"))
      && (verdict == "passed" <==> !AnyRun(runs, "failure") && AnyRun(runs, "success"))
      && (verdict == "cancelled" <==>
           !AnyRun(runs, "failure") && !AnyRun(runs, "success") && AnyRun(runs, "cancelled"))
      && (verdict == "mixed" <==>
           !AnyRun(runs, "failure") && !AnyRun(runs, "success") && !AnyRun(runs, "cancelled")
           && exists i :: 0 <= i < |runs| && Concluded(runs[i].conclusion))
      && (verdict == "pending" <==> forall i :: 0 <= i < |runs| ==> !Concluded(runs[i].conclusion))
  {
    ConclusionCounts(runs);
  }

  /** What the counts of the kept conclusions say about the runs. */
  lemma ConclusionCounts(runs: seq<WorkflowRun>)
    ensures var cs := Conclusions(runs);
      && (Count(cs, "failure") > 0 <==> AnyRun(runs, "failure"))
      && (Count(cs, "success") > 0 <==> AnyRun(runs, "success"))
      && (Count(cs, "cancelled") > 0 <==> AnyRun(runs, "cancelled"))
      && (|cs| > 0 <==> exists i :: 0 <= i < |runs| && Concluded(runs[i].conclusion))
  {
    var cs := Conclusions(runs);
    ConclusionsMembers(runs);
    CountPositive(cs, "failure");
    CountPositive(cs, "success");
    CountPositive(cs, "cancelled");
    if exists i :: 0 <= i < |runs| && Concluded(runs[i].conclusion) {
      var i :| 0 <= i < |runs| && Concluded(runs[i].conclusion);
      assert runs[i].conclusion.value in cs;
    }
    if |cs| > 0 {
      assert cs[0] in cs;
    }
  }

  /** Worked example: a failure beside a success labels the commit failed. */
  lemma FailureBeatsSuccess(a: WorkflowRun, b: WorkflowRun)
    requires a.conclusion == Some("success") && b.conclusion == Some("failure")
    ensures BuildConclusion(Conclusions([a, b])) == "failed"
  {
    ConclusionPriority([a, b]);
    assert [a, b][1] == b;
  }

  /** The mean of the parsed run durations, 0 when there is none. */
  function AverageDuration(runs: seq<WorkflowRun>): Value
  {
    var ds := Durations(runs);
    if |ds| == 0 then Int(0) else Real(Sum(ds) / (|ds| as real))
  }

  function Durations(runs: seq<WorkflowRun>): seq<real>
    decreases |runs|
  {
    if |runs| == 0 then []
    else
      var d := runs[|runs| - 1].duration;
      Durations(runs[..|runs| - 1]) + (if d.Some? then [d.value] else [])
  }

  function Sum(xs: seq<real>): real
    decreases |xs|
  {
    if |xs| == 0 then 0.0 else Sum(xs[..|xs| - 1]) + xs[|xs| - 1]
  }

  /** The dictionary built from a non-empty run list. */
  function ActionsSummary(runs: seq<WorkflowRun>): (d: Dict)
    requires |runs| > 0
    ensures d.Keys == ActionsKeys
  {
    var cs := Conclusions(runs);
    map[
      "build_conclusion" := Str(BuildConclusion(cs)),
      "total_workflows" := Int(|runs|),
      "success_workflows" := Int(Count(cs, "success")),
      "failure_workflows" := Int(Count(cs, "failure")),
      "cancelled_workflows" := Int(Count(cs, "cancelled")),
      "skipped_workflows" := Int(Count(cs, "skipped")),
      "has_ci" := Bool(true),
      "avg_run_duration_seconds" := AverageDuration(runs),
      "latest_run_id" := runs[0].id]
  }

  const ActionsKeys: set<string> := {
    "build_conclusion", "total_workflows", "success_workflows", "failure_workflows",
    "cancelled_workflows", "skipped_workflows", "has_ci", "avg_run_duration_seconds",
    "latest_run_id"}

  /** The four outcome counts of a summary add up to at most the number of runs. */
  lemma SummaryCountsBounded(runs: seq<WorkflowRun>)
    requires |runs| > 0
    ensures var d := ActionsSummary(runs);
      d["success_workflows"].i + d["failure_workflows"].i + d["cancelled_workflows"].i
        + d["skipped_workflows"].i <= d["total_workflows"].i
  {
    CountsBounded(Conclusions(runs), "success", "failure", "cancelled", "skipped");
  }

  // ---------------------------------------------------------------------
  // Commit status fallback and the Actions decision

  /** The reply to the combined-status request: the `state` field (None when
      absent) and the number of entries of `statuses`. */
  datatype StatusResponse = StatusRaised | StatusReply(code: int, state: Option<string>, statuses: nat)

  /** The reply to the workflow-runs request. */
  datatype ActionsResponse = ActionsRaised | ActionsReply(code: int, runs: seq<WorkflowRun>)

  /** What a request that raised yields. */
  const ErrorResult: Dict := map["build_conclusion" := Str("error"), "has_ci" := Bool(false)]

  /** The mapping of a combined commit state onto the labeler's vocabulary. */
  function StateConclusion(state: string): string
  {
    if state == "success" then "passed"
    else if state == "failure" || state == "error" then "failed"
    else if state == "pending" then "pending"
    else "unknown"
  }

  /** `get_commit_status_checks`. */
  function CommitStatusChecks(resp: StatusResponse): (d: Dict)
    ensures "build_conclusion" in d && "has_ci" in d
    ensures d["has_ci"] == Bool(resp.StatusReply? && resp.code == 200 && resp.statuses > 0)
    ensures resp.StatusReply? && resp.code != 200 ==> d["build_conclusion"] == Str("no_ci")
    ensures resp.StatusRaised? ==> d == ErrorResult
    ensures d["build_conclusion"] == Str("passed") <==>
      resp.StatusReply? && resp.code == 200 && resp.state == Some("success")
    ensures d["build_conclusion"] == Str("failed") <==>
      resp.StatusReply? && resp.code == 200 && resp.state in {Some("failure"), Some("error")}
    ensures d["build_conclusion"] == Str("pending") <==>
      resp.StatusReply? && resp.code == 200 && resp.state == Some("pending")
    ensures d["build_conclusion"] == Str("unknown") <==>
      resp.StatusReply? && resp.code == 200
      && resp.state !in {Some("success"), Some("failure"), Some("error"), Some("pending")}
    ensures resp.StatusReply? && resp.code == 200 ==> "status_checks" in d && d["status_checks"] == Int(resp.statuses)
  {
    match resp
    case StatusRaised => ErrorResult
    case StatusReply(code, state, n) =>
      if code == 200 then
        map["build_conclusion" := Str(StateConclusion(state.GetOr("unknown"))),
            "has_ci" := Bool(n > 0),
            "status_checks" := Int(n)]
      else map["build_conclusion" := Str("no_ci"), "has_ci" := Bool(false)]
  }

  /** `create_build_label`: total over every stored value. */
  function CreateBuildLabel(conclusion: Value): (name: string)
    ensures name in {"FAILED", "PASSED", "CANCELLED", "NO_CI", "UNKNOWN"}
  {
    if conclusion == Str("failed") then "FAILED"
    else if conclusion == Str("passed") then "PASSED"
    else if conclusion == Str("cancelled") then "CANCELLED"
    else if conclusion == Str("no_ci") then "NO_CI"
    else "UNKNOWN"
  }

  /** Each label has exactly one conclusion behind it, except UNKNOWN, which
      takes everything else. */
  lemma BuildLabelPreimage(v: Value)
    ensures CreateBuildLabel(v) == "FAILED" <==> v == Str("failed")
    ensures CreateBuildLabel(v) == "PASSED" <==> v == Str("passed")
    ensures CreateBuildLabel(v) == "CANCELLED" <==> v == Str("cancelled")
    ensures CreateBuildLabel(v) == "NO_CI" <==> v == Str("no_ci")
    ensures CreateBuildLabel(v) == "UNKNOWN" <==>
      v !in {Str("failed"), Str("passed"), Str("cancelled"), Str("no_ci")}
  {
  }

  /** The label of a commit decided by its combined status: FAILED for a
      failure or error state, PASSED for success, NO_CI for a request the
      server refused, and UNKNOWN for a pending or unrecognised state or a
      request that raised. */
  lemma StatusLabel(resp: StatusResponse)
    ensures var name := CreateBuildLabel(CommitStatusChecks(resp)["build_conclusion"]);
      && (name == "FAILED" <==>
           resp.StatusReply? && resp.code == 200 && resp.state in {Some("failure"), Some("error")})
      && (name == "PASSED" <==> resp.StatusReply? && resp.code == 200 && resp.state == Some("success"))
      && (name == "NO_CI" <==> resp.StatusReply? && resp.code != 200)
      && name != "CANCELLED"
  {
  }

  /** `get_github_actions_status`: the runs decide when there are any;
      otherwise, and on an error status, the combined commit status does. */
  function ActionsStatus(resp: ActionsResponse, fallback: StatusResponse): (d: Dict)
    ensures "build_conclusion" in d && "has_ci" in d && d.Keys <= ActionsKeys + {"status_checks"}
    ensures resp.ActionsRaised? ==> d == ErrorResult
    ensures resp.ActionsReply? && (resp.code != 200 || |resp.runs| == 0) ==>
      d == CommitStatusChecks(fallback)
    ensures resp.ActionsReply? && resp.code == 200 && |resp.runs| > 0 ==>
      d.Keys == ActionsKeys && d["has_ci"] == Bool(true) && d["total_workflows"] == Int(|resp.runs|)
  {
    match resp
    case ActionsRaised => ErrorResult
    case ActionsReply(code, runs) =>
      if code == 200 && |runs| > 0 then ActionsSummary(runs)
      else CommitStatusChecks(fallback)
  }

  /** A commit with a failed workflow run is labelled FAILED, whatever its
      other runs and its combined status say. */
  lemma FailedRunLabelsFailed(runs: seq<WorkflowRun>, fallback: StatusResponse)
    requires AnyRun(runs, "failure")
    ensures CreateBuildLabel(ActionsStatus(ActionsReply(200, runs), fallback)["build_conclusion"]) == "FAILED"
  {
    ConclusionPriority(runs);
    assert |runs| > 0;
    var d := ActionsSummary(runs);
    assert ActionsStatus(ActionsReply(200, runs), fallback) == d;
    assert d["build_conclusion"] == Str(BuildConclusion(Conclusions(runs)));
  }

  // ---------------------------------------------------------------------
  // Commit details, pull requests and run details

  /** The reply to the commit request: file names, the `stats` entries
      (None when absent) and the number of parents. */
  datatype CommitResponse =
    | CommitRaised
    | CommitReply(code: int, files: seq<string>, additions: Option<Value>,
                  deletions: Option<Value>, total: Option<Value>, parents: nat)

  /** Number of `files` the test-file predicate accepts. */
  function CountTests(files: seq<string>, isTest: string -> bool): (n: nat)
    ensures n <= |files|
    decreases |files|
  {
    if |files| == 0 then 0
    else CountTests(files[..|files| - 1], isTest) + (if isTest(files[|files| - 1]) then 1 else 0)
  }

  lemma {:induction false} CountTestsPositive(files: seq<string>, isTest: string -> bool)
    ensures CountTests(files, isTest) > 0 <==> exists i :: 0 <= i < |files| && isTest(files[i])
    decreases |files|
  {
    if |files| > 0 {
      var init := files[..|files| - 1];
      CountTestsPositive(init, isTest);
      if exists i :: 0 <= i < |files| && isTest(files[i]) {
        var i :| 0 <= i < |files| && isTest(files[i]);
        if i < |init| { assert init[i] == files[i]; }
      }
      if CountTests(init, isTest) > 0 {
        var i :| 0 <= i < |init| && isTest(init[i]);
        assert files[i] == init[i];
      }
    }
  }

  /** `get_commit_details_api`: a dictionary only for a 200 reply. */
  function CommitDetails(resp: CommitResponse, isTest: string -> bool): (r: Option<Dict>)
    ensures r.Some? <==> resp.CommitReply? && resp.code == 200
    ensures r.Some? ==> r.value.Keys == DetailKeys
  {
    match resp
    case CommitRaised => None
    case CommitReply(code, files, additions, deletions, total, parents) =>
      if code != 200 then None
      else
        var tests := CountTests(files, isTest);
        Some(map[
          "files_changed" := Int(|files|),
          "additions" := additions.GetOr(Int(0)),
          "deletions" := deletions.GetOr(Int(0)),
          "total_changes" := total.GetOr(Int(0)),
          "test_files_changed" := Int(tests),
          "has_test_changes" := Bool(tests > 0),
          "parents_count" := Int(parents),
          "is_merge" := Bool(parents > 1)])
  }

  const DetailKeys: set<string> := {
    "files_changed", "additions", "deletions", "total_changes", "test_files_changed",
    "has_test_changes", "parents_count", "is_merge"}

  /** A commit has test changes exactly when one of its files is a test file,
      and a merge exactly when it has more than one parent. */
  lemma DetailsMeaning(resp: CommitResponse, isTest: string -> bool)
    requires resp.CommitReply? && resp.code == 200
    ensures var d := CommitDetails(resp, isTest).value;
      && (d["has_test_changes"] == Bool(true) <==>
           exists i :: 0 <= i < |resp.files| && isTest(resp.files[i]))
      && d["test_files_changed"].i <= d["files_changed"].i
      && (d["is_merge"] == Bool(true) <==> resp.parents >= 2)
  {
    CountTestsPositive(resp.files, isTest);
  }

  /** The reply to the pull-request request: the numbers of the pulls. */
  datatype PullsResponse = PullsRaised | PullsReply(code: int, numbers: seq<Value>)

  /** `get_pull_request_info`. */
  function PullRequestInfo(resp: PullsResponse): (d: Dict)
    ensures "has_pr" in d && d.Keys <= {"has_pr", "pr_number"}
    ensures d["has_pr"] == Bool(resp.PullsReply? && resp.code == 200 && |resp.numbers| > 0)
  {
    match resp
    case PullsReply(code, numbers) =>
      if code == 200 && |numbers| > 0 then map["has_pr" := Bool(true), "pr_number" := numbers[0]]
      else map["has_pr" := Bool(false)]
    case PullsRaised => map["has_pr" := Bool(false)]
  }

  /** The keys `get_workflow_run_details` can produce. */
  const RunDetailKeys: set<string> := {
    "run_attempt", "total_jobs", "failed_jobs", "failed_job_count", "job_conclusions",
    "workflow_file", "trigger_event", "run_started_at", "actor"}

  /** The reply to the run request, with the dictionary the run and its jobs
      yield. */
  datatype RunResponse = RunRaised | RunReply(code: int, fields: Dict)

  /** `get_workflow_run_details`: nothing for a falsy id or a failed request. */
  function WorkflowRunDetails(runId: Value, resp: RunResponse): (d: Dict)
    ensures d.Keys <= RunDetailKeys
    ensures !Truthy(runId) ==> d == map[]
  {
    if !Truthy(runId) then map[]
    else match resp
      case RunReply(code, fields) =>
        if code == 200 then map k | k in fields && k in RunDetailKeys :: fields[k] else map[]
      case RunRaised => map[]
  }

  // ---------------------------------------------------------------------
  // Processing the table

  /** The two columns of an input row the labeler reads. */
  datatype Commit = Commit(projectId: string, commitHash: string)

  /** Every GitHub response the labeler can receive, as functions of the
      request; `isTest` is the test-file predicate. */
  datatype Remote = Remote(
    commit: (Repo, string) -> CommitResponse,
    actions: (Repo, string) -> ActionsResponse,
    status: (Repo, string) -> StatusResponse,
    run: (Repo, Value) -> RunResponse,
    pulls: (Repo, string) -> PullsResponse,
    isTest: string -> bool)

  /** `{**details, **build, **workflow, **pr, 'project_id': ..., 'owner': ..., 'repo': ...}`. */
  function Merge(details: Dict, build: Dict, workflow: Dict, pr: Dict, c: Commit, repo: Repo): Dict
  {
    details + build + workflow + pr
    + map["project_id" := Str(c.projectId), "owner" := Str(repo.owner), "repo" := Str(repo.repo)]
  }

  /** The dictionary stored for one commit, or None when it is skipped. */
  function Entry(c: Commit, remote: Remote): Option<Dict>
  {
    match ExtractGithubInfo(c.projectId)
    case None => None
    case Some(repo) =>
      match CommitDetails(remote.commit(repo, c.commitHash), remote.isTest)
      case None => None
      case Some(details) =>
        var build := ActionsStatus(remote.actions(repo, c.commitHash), remote.status(repo, c.commitHash));
        var runId := if "latest_run_id" in build then build["latest_run_id"] else Null;
        var workflow := if Truthy(runId) then WorkflowRunDetails(runId, remote.run(repo, runId)) else map[];
        var pr := PullRequestInfo(remote.pulls(repo, c.commitHash));
        Some(Merge(details, build, workflow, pr, c, repo))
  }

  /** The keys an Actions decision can carry. */
  const BuildKeys: set<string> := ActionsKeys + {"status_checks"}

  /** In the merged dictionary the conclusion, the CI flag and the PR flag
      come from the Actions decision and the pull-request reply. */
  lemma MergeBuildColumns(details: Dict, build: Dict, workflow: Dict, pr: Dict, c: Commit, repo: Repo)
    requires "build_conclusion" in build && "has_ci" in build
    requires workflow.Keys <= RunDetailKeys && "has_pr" in pr && pr.Keys <= {"has_pr", "pr_number"}
    ensures var d := Merge(details, build, workflow, pr, c, repo);
      && d["build_conclusion"] == build["build_conclusion"]
      && d["has_ci"] == build["has_ci"]
      && d["has_pr"] == pr["has_pr"]
  {
    assert "build_conclusion" !in workflow by {}
    assert "has_ci" !in workflow by {}
    assert "has_pr" !in workflow by {}
  }

  /** The file figures are detail keys that no Actions, status or run
      dictionary uses. */
  lemma DetailKeysApart(k: string)
    requires k == "files_changed" || k == "has_test_changes"
    ensures k in DetailKeys && k !in BuildKeys && k !in RunDetailKeys
  {
  }

  /** In the merged dictionary the file figures come from the commit details. */
  lemma MergeDetailColumns(details: Dict, build: Dict, workflow: Dict, pr: Dict, c: Commit, repo: Repo)
    requires details.Keys == DetailKeys && build.Keys <= BuildKeys
    requires workflow.Keys <= RunDetailKeys && pr.Keys <= {"has_pr", "pr_number"}
    ensures var d := Merge(details, build, workflow, pr, c, repo);
      && d["files_changed"] == details["files_changed"]
      && d["has_test_changes"] == details["has_test_changes"]
  {
    DetailKeysApart("files_changed");
    DetailKeysApart("has_test_changes");
  }

  /** The columns of a stored commit come from the response that owns them:
      the conclusion and CI flag from the Actions decision, the file figures
      from the commit details, the PR flag from the pull-request reply. */
  lemma EntryColumns(c: Commit, remote: Remote)
    ensures Entry(c, remote).Some? ==>
      ExtractGithubInfo(c.projectId).Some? && CommitDetails(remote.commit(ExtractGithubInfo(c.projectId).value, c.commitHash), remote.isTest).Some?
    ensures Entry(c, remote).Some? ==>
      var repo := ExtractGithubInfo(c.projectId).value;
      var d := Entry(c, remote).value;
      var build := ActionsStatus(remote.actions(repo, c.commitHash), remote.status(repo, c.commitHash));
      var details := CommitDetails(remote.commit(repo, c.commitHash), remote.isTest).value;
      && d["build_conclusion"] == build["build_conclusion"]
      && d["has_ci"] == build["has_ci"]
      && d["files_changed"] == details["files_changed"]
      && d["has_test_changes"] == details["has_test_changes"]
      && d["has_pr"] == PullRequestInfo(remote.pulls(repo, c.commitHash))["has_pr"]
  {
    if Entry(c, remote).None? {
      return;
    }
    var repo := ExtractGithubInfo(c.projectId).value;
    var details := CommitDetails(remote.commit(repo, c.commitHash), remote.isTest).value;
    var build := ActionsStatus(remote.actions(repo, c.commitHash), remote.status(repo, c.commitHash));
    var runId := if "latest_run_id" in build then build["latest_run_id"] else Null;
    var workflow := if Truthy(runId) then WorkflowRunDetails(runId, remote.run(repo, runId)) else map[];
    var pr := PullRequestInfo(remote.pulls(repo, c.commitHash));
    assert Entry(c, remote).value == Merge(details, build, workflow, pr, c, repo);
    MergeBuildColumns(details, build, workflow, pr, c, repo);
    MergeDetailColumns(details, build, workflow, pr, c, repo);
  }

  /** The stored-entry function of a labeler run. */
  function EntryOf(remote: Remote): Commit -> Option<Dict>
  {
    (c: Commit) => Entry(c, remote)
  }

  /** `commit_data` after the loop over `pairs`, `entry` giving each pair's
      dictionary or None when it is skipped: keyed by hash, a later pair with
      the same hash overwrites an earlier one. */
  function CommitData(pairs: seq<Commit>, entry: Commit -> Option<Dict>): map<string, Dict>
    decreases |pairs|
  {
    if |pairs| == 0 then map[]
    else
      var data := CommitData(pairs[..|pairs| - 1], entry);
      var c := pairs[|pairs| - 1];
      match entry(c)
      case None => data
      case Some(d) => data[c.commitHash := d]
  }

  /** A hash is stored iff some pair with it was not skipped, and its value
      is the entry of the last such pair. */
  lemma {:induction false} CommitDataLastWins(pairs: seq<Commit>, entry: Commit -> Option<Dict>, h: string)
    ensures h in CommitData(pairs, entry) <==>
      exists i :: 0 <= i < |pairs| && pairs[i].commitHash == h && entry(pairs[i]).Some?
    ensures h in CommitData(pairs, entry) ==>
      exists i :: 0 <= i < |pairs| && pairs[i].commitHash == h
        && entry(pairs[i]) == Some(CommitData(pairs, entry)[h])
        && forall j :: i < j < |pairs| && pairs[j].commitHash == h ==> entry(pairs[j]).None?
    decreases |pairs|
  {
    if |pairs| > 0 {
      var init := pairs[..|pairs| - 1];
      var c := pairs[|pairs| - 1];
      CommitDataLastWins(init, entry, h);
      if exists i :: 0 <= i < |pairs| && pairs[i].commitHash == h && entry(pairs[i]).Some? {
        var i :| 0 <= i < |pairs| && pairs[i].commitHash == h && entry(pairs[i]).Some?;
        if i < |init| { assert init[i] == pairs[i]; }
      }
      if c.commitHash == h && entry(c).Some? {
        assert pairs[|init|] == c;
      } else if h in CommitData(init, entry) {
        var i :| 0 <= i < |init| && init[i].commitHash == h
          && entry(init[i]) == Some(CommitData(init, entry)[h])
          && forall j :: i < j < |init| && init[j].commitHash == h ==> entry(init[j]).None?;
        assert pairs[i] == init[i];
        forall j | i < j < |pairs| && pairs[j].commitHash == h ensures entry(pairs[j]).None? {
          if j < |init| { assert pairs[j] == init[j]; }
        }
      }
    }
  }

  /** At most one stored commit per processed pair. */
  lemma {:induction false} CommitDataSize(pairs: seq<Commit>, entry: Commit -> Option<Dict>)
    ensures |CommitData(pairs, entry)| <= |pairs|
    decreases |pairs|
  {
    if |pairs| > 0 {
      CommitDataSize(pairs[..|pairs| - 1], entry);
    }
  }

  /** pandas `head(n)`: the first `n` rows, or all but the last `-n` for a
      negative `n`. */
  function Head<T>(s: seq<T>, n: int): (r: seq<T>)
    ensures |r| <= |s| && r == s[..|r|]
    ensures 0 <= n ==> |r| == if n < |s| then n else |s|
    ensures n < 0 ==> |r| == if -n < |s| then |s| + n else 0
  {
    if 0 <= n then (if n < |s| then s[..n] else s)
    else if -n < |s| then s[..|s| + n]
    else []
  }

  /** The distinct (project, hash) pairs in first-seen order, limited to
      `maxCommits` when there are more. */
  function UniqueCommits(rows: seq<Commit>, maxCommits: int): (r: seq<Commit>)
    ensures 0 <= maxCommits ==> |r| <= maxCommits
    ensures |r| <= |Distinct.FirstByKey(rows, (c: Commit) => c)|
    ensures r == Distinct.FirstByKey(rows, (c: Commit) => c)[..|r|]
  {
    var unique := Distinct.FirstByKey(rows, (c: Commit) => c);
    if |unique| > maxCommits then Head(unique, maxCommits) else unique
  }

  /** The processed pairs are pairwise different rows of the input, each the
      first of its kind; with a limit at least the number of different pairs,
      every pair of the input is processed. */
  lemma UniqueCommitsFacts(rows: seq<Commit>, maxCommits: int)
    ensures var u := UniqueCommits(rows, maxCommits);
      && (forall i, j :: 0 <= i < j < |u| ==> u[i] != u[j])
      && (forall j :: 0 <= j < |u| ==> u[j] in rows)
    ensures |Distinct.FirstByKey(rows, (c: Commit) => c)| <= maxCommits ==>
      forall c :: c in rows ==> c in UniqueCommits(rows, maxCommits)
  {
    var key := (c: Commit) => c;
    var all := Distinct.FirstByKey(rows, key);
    var u := UniqueCommits(rows, maxCommits);
    Distinct.FirstByKeyDistinct(rows, key);
    Distinct.FirstByKeyFirst(rows, key);
    forall i, j | 0 <= i < j < |u| ensures u[i] != u[j] {
      assert u[i] == all[i] && u[j] == all[j];
    }
    forall j | 0 <= j < |u| ensures u[j] in rows {
      assert u[j] == all[j];
    }
    if |all| <= maxCommits {
      forall c | c in rows ensures c in u {
        var i :| 0 <= i < |rows| && rows[i] == c;
        assert Distinct.HasKey(rows, key, c);
        assert Distinct.HasKey(all, key, c);
      }
    }
  }

  /** The broadcast columns, each prefixed `gha_` in the output. */
  const Columns: set<string> := {
    "build_conclusion", "files_changed", "additions", "deletions", "has_test_changes",
    "is_merge", "has_ci", "has_pr", "total_workflows", "success_workflows",
    "failure_workflows", "cancelled_workflows", "avg_run_duration_seconds", "latest_run_id"}

  /** The value a row without data gets in column `col`. */
  function Default(col: string): Value
  {
    if col == "build_conclusion" then Str("not_processed") else Int(0)
  }

  /** `commit_data.get(hash, {}).get(col, default)`. */
  function Lookup(data: map<string, Dict>, hash: string, col: string): Value
  {
    if hash in data && col in data[hash] then data[hash][col] else Default(col)
  }

  /** An output row: the input row, its `gha_` columns and its build label. */
  datatype LabeledRow = LabeledRow(source: Commit, gha: map<string, Value>, buildLabel: string)

  /** Every row gets every column from its commit's data and a label from its
      conclusion column; rows keep their order. */
  function Broadcast(rows: seq<Commit>, data: map<string, Dict>): (out: seq<LabeledRow>)
    ensures |out| == |rows|
    ensures forall k :: 0 <= k < |rows| ==> out[k].source == rows[k] && out[k].gha.Keys == Columns
  {
    seq(|rows|, k requires 0 <= k < |rows| =>
      var h := rows[k].commitHash;
      LabeledRow(rows[k], map col | col in Columns :: Lookup(data, h, col),
                 CreateBuildLabel(Lookup(data, h, "build_conclusion"))))
  }

  /** A row whose commit was not stored gets the defaults and the label
      UNKNOWN; a stored one gets the stored values where present. */
  lemma BroadcastDefaults(rows: seq<Commit>, data: map<string, Dict>, k: nat)
    requires k < |rows|
    ensures var r := Broadcast(rows, data)[k];
      && (rows[k].commitHash !in data ==>
           r.gha["build_conclusion"] == Str("not_processed") && r.buildLabel == "UNKNOWN"
           && forall col :: col in Columns && col != "build_conclusion" ==> r.gha[col] == Int(0))
      && (rows[k].commitHash in data ==>
           forall col :: col in Columns && col in data[rows[k].commitHash] ==>
             r.gha[col] == data[rows[k].commitHash][col])
  {
  }

  /** One iteration of the loop of `process_commits_remote`: skip a pair
      whose project names no repository or whose commit cannot be fetched,
      otherwise gather the commit's dictionary. */
  method ProcessCommit(c: Commit, remote: Remote) returns (e: Option<Dict>)
    ensures e == Entry(c, remote)
    ensures e.Some? ==> ExtractGithubInfo(c.projectId).Some?
  {
    var info := ExtractGithubInfo(c.projectId);
    if info.None? {
      return None;
    }
    var repo := info.value;
    var details := CommitDetails(remote.commit(repo, c.commitHash), remote.isTest);
    if details.None? {
      return None;
    }
    var build := ActionsStatus(remote.actions(repo, c.commitHash), remote.status(repo, c.commitHash));
    var runId := if "latest_run_id" in build then build["latest_run_id"] else Null;
    var workflow: Dict := map[];
    if Truthy(runId) {
      workflow := WorkflowRunDetails(runId, remote.run(repo, runId));
    }
    var pr := PullRequestInfo(remote.pulls(repo, c.commitHash));
    e := Some(Merge(details.value, build, workflow, pr, c, repo));
  }

  /** `process_commits_remote`: one pass over the unique pairs fills the
      commit dictionary, then every row of the table is labelled from it. */
  method ProcessCommitsRemote(rows: seq<Commit>, maxCommits: int, remote: Remote)
    returns (out: seq<LabeledRow>)
    ensures out == Broadcast(rows, CommitData(UniqueCommits(rows, maxCommits), EntryOf(remote)))
    ensures |out| == |rows|
  {
    var unique := UniqueCommits(rows, maxCommits);
    var data: map<string, Dict> := map[];
    var i := 0;
    while i < |unique|
      invariant 0 <= i <= |unique|
      invariant data == CommitData(unique[..i], EntryOf(remote))
    {
      assert unique[..i + 1][..i] == unique[..i];
      var c := unique[i];
      var e := ProcessCommit(c, remote);
      assert EntryOf(remote)(c) == e;
      if e.Some? {
        data := data[c.commitHash := e.value];
      }
      i := i + 1;
    }
    assert unique[..i] == unique;
    out := Broadcast(rows, data);
  }
}
