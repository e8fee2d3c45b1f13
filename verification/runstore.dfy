/** The workflow-run collector (Approach2/github_actions_pull.py): a bounded
    walk over the pages of the Actions runs listing, the projection of each
    fetched run onto five fields, and the merge of the fetched runs into the
    store of runs collected earlier, skipping runs whose id is already
    stored. */
module RunStore {
  import opened Wrappers
  import opened Json

  /** The page cap of the listing walk. */
  const MaxPages: int := 30

  /** The fields kept of every fetched run. */
  const RecordKeys: set<string> := {"id", "head_sha", "conclusion", "event", "created_at"}

  /** `raise_for_status` raises for client and server errors only. */
  predicate RaisesForStatus(code: int)
  {
    400 <= code < 600
  }

  /** The reply to one page request: the request raised (timeout,
      connection error, undecodable body), or a status code with the
      `workflow_runs` list of the body (empty when the key is missing). */
  datatype Page = PageRaised | PageReply(code: int, runs: seq<Dict>)

  /** Every run of a page carries an "id" (`run["id"]` raises otherwise). */
  predicate HasIds(runs: seq<Dict>)
  {
    forall i :: 0 <= i < |runs| ==> "id" in runs[i]
  }

  /** The stored record of a fetched run. */
  function Project(run: Dict): (rec: Dict)
    requires "id" in run
    ensures rec.Keys == RecordKeys
    ensures forall k :: k in RecordKeys ==> rec[k] == Get(run, k)
  {
    map["id" := run["id"], "head_sha" := Get(run, "head_sha"), "conclusion" := Get(run, "conclusion"),
        "event" := Get(run, "event"), "created_at" := Get(run, "created_at")]
  }

  /** The records of a page, in page order. */
  function ProjectAll(runs: seq<Dict>): (recs: seq<Dict>)
    requires HasIds(runs)
    ensures |recs| == |runs|
    ensures forall i :: 0 <= i < |runs| ==> recs[i] == Project(runs[i])
  {
    seq(|runs|, i requires 0 <= i < |runs| && HasIds(runs) => Project(runs[i]))
  }

  /** Page `p` was fetched without an exception. */
  predicate PageOk(fetch: int -> Page, p: int)
  {
    fetch(p).PageReply? && !RaisesForStatus(fetch(p).code) && HasIds(fetch(p).runs)
  }

  /** The runs on page `p`, none when the request failed. */
  function PageRuns(fetch: int -> Page, p: int): seq<Dict>
  {
    if fetch(p).PageReply? then fetch(p).runs else []
  }

  /** The records of pages `a` to `b` inclusive, page after page. */
  function Collected(fetch: int -> Page, a: int, b: int): seq<Dict>
    decreases b - a
  {
    if b < a then []
    else (if HasIds(PageRuns(fetch, a)) then ProjectAll(PageRuns(fetch, a)) else []) + Collected(fetch, a + 1, b)
  }

  /** Page `p` is the first page from `page` on that raised, every page
      before it having been fetched and non-empty. */
  predicate FirstFailure(fetch: int -> Page, page: int, p: int)
  {
    && page <= p <= MaxPages
    && !PageOk(fetch, p)
    && (forall q :: page <= q < p ==> PageOk(fetch, q) && |PageRuns(fetch, q)| > 0)
  }

  /** The outcome of the walk: the records and the number of the last page
      requested, or an exception that ends the job. */
  datatype Pull = Pulled(runs: seq<Dict>, last: int) | Aborted

  /** The walk from page `page` on, as a recursive definition. */
  function PullFrom(fetch: int -> Page, page: int): Pull
    requires 1 <= page <= MaxPages
    decreases MaxPages - page
  {
    match fetch(page)
    case PageRaised => Aborted
    case PageReply(code, runs) =>
      if RaisesForStatus(code) then Aborted
      else if |runs| == 0 then Pulled([], page)
      else if !HasIds(runs) then Aborted
      else if page + 1 > MaxPages then Pulled(ProjectAll(runs), page)
      else match PullFrom(fetch, page + 1)
        case Aborted => Aborted
        case Pulled(rest, last) => Pulled(ProjectAll(runs) + rest, last)
  }

  /** The walk from `page` requests pages `page`, `page + 1`, ... in turn.
      It ends normally at the first empty page or after page 30, and then
      holds the records of the pages it requested; it aborts exactly when
      some page before that raised. */
  lemma {:induction false} PullFromMeaning(fetch: int -> Page, page: int)
    requires 1 <= page <= MaxPages
    ensures var r := PullFrom(fetch, page);
      r.Pulled? ==>
        && page <= r.last <= MaxPages
        && (forall p :: page <= p < r.last ==> PageOk(fetch, p) && |PageRuns(fetch, p)| > 0)
        && PageOk(fetch, r.last)
        && (r.last < MaxPages ==> |PageRuns(fetch, r.last)| == 0)
        && r.runs == Collected(fetch, page, r.last)
    ensures var r := PullFrom(fetch, page);
      r.Aborted? <==>
        exists p :: FirstFailure(fetch, page, p)
    decreases MaxPages - page
  {
    var r := PullFrom(fetch, page);
    if !PageOk(fetch, page) {
      assert r.Aborted? && FirstFailure(fetch, page, page);
    } else if |PageRuns(fetch, page)| == 0 {
      assert r == Pulled([], page);
      assert Collected(fetch, page + 1, page) == [];
      assert !exists p :: FirstFailure(fetch, page, p);
    } else if page == MaxPages {
      assert Collected(fetch, page + 1, page) == [];
      assert !exists p :: FirstFailure(fetch, page, p);
    } else {
      PullFromMeaning(fetch, page + 1);
      var rest := PullFrom(fetch, page + 1);
      if rest.Pulled? {
        assert r == Pulled(ProjectAll(PageRuns(fetch, page)) + rest.runs, rest.last);
        NoFailureBefore(fetch, page, rest.last);
      } else {
        var p :| FirstFailure(fetch, page + 1, p);
        assert FirstFailure(fetch, page, p);
      }
    }
  }

  /** When the pages from `page` up to `last` were fetched, all but `last`
      non-empty and `last` empty unless it is page 30, no page from `page`
      on is a first failure. */
  lemma NoFailureBefore(fetch: int -> Page, page: int, last: int)
    requires page <= last <= MaxPages
    requires forall q :: page <= q < last ==> PageOk(fetch, q) && |PageRuns(fetch, q)| > 0
    requires PageOk(fetch, last) && (last < MaxPages ==> |PageRuns(fetch, last)| == 0)
    ensures forall p :: !FirstFailure(fetch, page, p)
  {
  }

  /** `r` extended at the front by `runs`. */
  function Prepend(runs: seq<Dict>, r: Pull): Pull
  {
    match r
    case Aborted => Aborted
    case Pulled(rest, last) => Pulled(runs + rest, last)
  }

  /** The page loop of `main`: pages 1, 2, ... are requested until one is
      empty or the page counter passes 30; any exception aborts the job. */
  method PullRuns(fetch: int -> Page) returns (r: Pull)
    ensures r == PullFrom(fetch, 1)
    ensures r.Pulled? ==>
      && 1 <= r.last <= MaxPages
      && (forall p :: 1 <= p < r.last ==> PageOk(fetch, p) && |PageRuns(fetch, p)| > 0)
      && (r.last < MaxPages ==> |PageRuns(fetch, r.last)| == 0)
      && r.runs == Collected(fetch, 1, r.last)
    ensures r.Aborted? <==>
      exists p :: FirstFailure(fetch, 1, p)
  {
    r := PageLoop(fetch);
    PullFromMeaning(fetch, 1);
  }

  /** The loop itself computes the recursive walk from page 1. */
  method PageLoop(fetch: int -> Page) returns (r: Pull)
    ensures r == PullFrom(fetch, 1)
  {
    var all: seq<Dict> := [];
    var page := 1;
    while true
      invariant 1 <= page <= MaxPages
      invariant PullFrom(fetch, 1) == Prepend(all, PullFrom(fetch, page))
      decreases MaxPages - page
    {
      var resp := fetch(page);
      if resp.PageRaised? || RaisesForStatus(resp.code) {
        r := Aborted;
        break;
      }
      var runs := resp.runs;
      if |runs| == 0 {
        r := Pulled(all, page);
        break;
      }
      if !HasIds(runs) {
        r := Aborted;
        break;
      }
      all := all + ProjectAll(runs);
      page := page + 1;
      if page > MaxPages {
        r := Pulled(all, page - 1);
        break;
      }
    }
  }

  // ---------------------------------------------------------------------
  // The merge of fetched runs into the store, as written
  // ---------------------------------------------------------------------

  /** `v in existing_ids`: some stored run has a truthy id equal to `v`. */
  predicate IdTaken(store: seq<Dict>, v: Value)
  {
    exists i :: 0 <= i < |store| && Truthy(Get(store[i], "id")) && PyEq(Get(store[i], "id"), v)
  }

  /** `new_runs`: the fetched runs whose id is not among the stored ids. */
  function NewRuns(existing: seq<Dict>, fetched: seq<Dict>): (added: seq<Dict>)
    ensures |added| <= |fetched|
    decreases |fetched|
  {
    if |fetched| == 0 then []
    else
      var prev := NewRuns(existing, fetched[..|fetched| - 1]);
      var run := fetched[|fetched| - 1];
      if IdTaken(existing, Get(run, "id")) then prev else prev + [run]
  }

  /** The positions in `fetched` of the runs `NewRuns` keeps. */
  function NewIndices(existing: seq<Dict>, fetched: seq<Dict>): seq<int>
    decreases |fetched|
  {
    if |fetched| == 0 then []
    else
      var prev := NewIndices(existing, fetched[..|fetched| - 1]);
      if IdTaken(existing, Get(fetched[|fetched| - 1], "id")) then prev else prev + [|fetched| - 1]
  }

  /** The kept runs are the fetched runs at strictly increasing positions,
      and a position is kept exactly when its run's id is not taken. */
  lemma {:induction false} NewRunsMeaning(existing: seq<Dict>, fetched: seq<Dict>)
    ensures var added := NewRuns(existing, fetched); var idx := NewIndices(existing, fetched);
      && |idx| == |added|
      && (forall k :: 0 <= k < |idx| ==> 0 <= idx[k] < |fetched| && added[k] == fetched[idx[k]])
      && (forall k, l :: 0 <= k < l < |idx| ==> idx[k] < idx[l])
      && (forall i :: 0 <= i < |fetched| ==> (i in idx <==> !IdTaken(existing, Get(fetched[i], "id"))))
    decreases |fetched|
  {
    if |fetched| > 0 {
      var init := fetched[..|fetched| - 1];
      var run := fetched[|fetched| - 1];
      NewRunsMeaning(existing, init);
      var idx0 := NewIndices(existing, init);
      var added0 := NewRuns(existing, init);
      var kept := !IdTaken(existing, Get(run, "id"));
      assert NewRuns(existing, fetched) == if kept then added0 + [run] else added0;
      assert NewIndices(existing, fetched) == if kept then idx0 + [|init|] else idx0;
      assert forall k :: 0 <= k < |idx0| ==> idx0[k] < |init|;
      forall i | 0 <= i < |init| ensures fetched[i] == init[i] { }
    }
  }

  /** `combined_runs = existing_runs + new_runs`. */
  function MergeRuns(existing: seq<Dict>, fetched: seq<Dict>): (combined: seq<Dict>)
  {
    existing + NewRuns(existing, fetched)
  }

  /** The stored runs stay in front, unchanged and in order; each added run
      is a fetched run whose id was not stored, in fetch order; and the
      store grows by at most the number of fetched runs. */
  lemma MergeRunsFacts(existing: seq<Dict>, fetched: seq<Dict>)
    ensures var combined := MergeRuns(existing, fetched);
      && |existing| <= |combined| <= |existing| + |fetched|
      && combined[..|existing|] == existing
      && (forall j :: |existing| <= j < |combined| ==>
            combined[j] in fetched && !IdTaken(existing, Get(combined[j], "id")))
      && (forall i :: 0 <= i < |fetched| && !IdTaken(existing, Get(fetched[i], "id")) ==>
            fetched[i] in combined[|existing|..])
  {
    var added := NewRuns(existing, fetched);
    var idx := NewIndices(existing, fetched);
    NewRunsMeaning(existing, fetched);
    var combined := MergeRuns(existing, fetched);
    assert combined[|existing|..] == added;
    forall j | |existing| <= j < |combined|
      ensures combined[j] in fetched && !IdTaken(existing, Get(combined[j], "id"))
    {
      var k := j - |existing|;
      assert combined[j] == added[k] == fetched[idx[k]];
    }
    forall i | 0 <= i < |fetched| && !IdTaken(existing, Get(fetched[i], "id"))
      ensures fetched[i] in added
    {
      var k :| 0 <= k < |idx| && idx[k] == i;
      assert added[k] == fetched[i];
    }
  }

  /** A store in which every run of `fetched` has its id taken gains nothing. */
  lemma {:induction false} NewRunsNone(store: seq<Dict>, fetched: seq<Dict>)
    requires forall i :: 0 <= i < |fetched| ==> IdTaken(store, Get(fetched[i], "id"))
    ensures NewRuns(store, fetched) == []
    decreases |fetched|
  {
    if |fetched| > 0 {
      var init := fetched[..|fetched| - 1];
      assert forall i :: 0 <= i < |init| ==> init[i] == fetched[i];
      NewRunsNone(store, init);
    }
  }

  /** Merging the same batch a second time adds nothing, provided every
      fetched id is truthy (a null or zero id is never recorded as taken). */
  lemma MergeRunsIdempotent(existing: seq<Dict>, fetched: seq<Dict>)
    requires forall i :: 0 <= i < |fetched| ==> Truthy(Get(fetched[i], "id"))
    ensures MergeRuns(MergeRuns(existing, fetched), fetched) == MergeRuns(existing, fetched)
  {
    var combined := MergeRuns(existing, fetched);
    var added := NewRuns(existing, fetched);
    var idx := NewIndices(existing, fetched);
    NewRunsMeaning(existing, fetched);
    forall i | 0 <= i < |fetched| ensures IdTaken(combined, Get(fetched[i], "id")) {
      var v := Get(fetched[i], "id");
      PyEqFacts(v, v);
      if IdTaken(existing, v) {
        var m :| 0 <= m < |existing| && Truthy(Get(existing[m], "id")) && PyEq(Get(existing[m], "id"), v);
        assert combined[m] == existing[m];
      } else {
        var k :| 0 <= k < |idx| && idx[k] == i;
        assert combined[|existing| + k] == fetched[i];
      }
    }
    NewRunsNone(combined, fetched);
    assert MergeRuns(combined, fetched) == combined + [];
  }

  /** The store as written keeps two copies of a run that one walk fetched
      twice (a run listed again on the next page after new runs shifted the
      listing), although the merge exists to keep run ids unique. */
  lemma BatchDuplicateKept()
    ensures var run: Dict := map["id" := Int(7)];
      MergeRuns([], [run, run]) == [run, run] && !DistinctIds(MergeRuns([], [run, run]))
  {
    var run: Dict := map["id" := Int(7)];
    assert !IdTaken([], Get(run, "id"));
    assert NewRuns([], [run]) == [run];
    assert [run, run][..1] == [run];
    assert NewRuns([], [run, run]) == [run, run];
    assert Truthy(Get(run, "id")) && PyEq(Get(run, "id"), Get(run, "id"));
  }

  // ---------------------------------------------------------------------
  // The merge with unique ids
  // ---------------------------------------------------------------------

  /** No two runs of `runs` share a truthy id. */
  predicate DistinctIds(runs: seq<Dict>)
  {
    forall i, j :: 0 <= i < j < |runs| && Truthy(Get(runs[i], "id")) ==> !PyEq(Get(runs[i], "id"), Get(runs[j], "id"))
  }

  /** The fetched runs to add when each added id also counts as taken for
      the runs fetched after it. */
  function NewRunsDistinct(existing: seq<Dict>, fetched: seq<Dict>): (added: seq<Dict>)
    ensures |added| <= |fetched|
    decreases |fetched|
  {
    if |fetched| == 0 then []
    else
      var prev := NewRunsDistinct(existing, fetched[..|fetched| - 1]);
      var run := fetched[|fetched| - 1];
      if IdTaken(existing + prev, Get(run, "id")) then prev else prev + [run]
  }

  /** The store after the merge with unique ids. */
  function MergeRunsDistinct(existing: seq<Dict>, fetched: seq<Dict>): (combined: seq<Dict>)
  {
    existing + NewRunsDistinct(existing, fetched)
  }

  /** The merge with unique ids keeps the stored runs in front, adds only
      fetched runs, and keeps a store without duplicate ids free of them. */
  lemma MergeRunsDistinctFacts(existing: seq<Dict>, fetched: seq<Dict>)
    ensures var combined := MergeRunsDistinct(existing, fetched);
      && |existing| <= |combined| <= |existing| + |fetched|
      && combined[..|existing|] == existing
      && (forall j :: |existing| <= j < |combined| ==> combined[j] in fetched)
      && (DistinctIds(existing) ==> DistinctIds(combined))
  {
    var combined := MergeRunsDistinct(existing, fetched);
    assert combined[..|existing|] == existing;
    MergeRunsDistinctFrom(existing, fetched);
    if DistinctIds(existing) {
      MergeRunsDistinctKeeps(existing, fetched);
    }
  }

  /** Every run the merge with unique ids adds is a fetched run. */
  lemma {:induction false} MergeRunsDistinctFrom(existing: seq<Dict>, fetched: seq<Dict>)
    ensures var combined := MergeRunsDistinct(existing, fetched);
      forall j :: |existing| <= j < |combined| ==> combined[j] in fetched
    decreases |fetched|
  {
    if |fetched| > 0 {
      var combined := MergeRunsDistinct(existing, fetched);
      var init := fetched[..|fetched| - 1];
      var run := fetched[|fetched| - 1];
      var before := MergeRunsDistinct(existing, init);
      MergeRunsDistinctFrom(existing, init);
      forall j | |existing| <= j < |combined| ensures combined[j] in fetched {
        if j < |before| {
          assert combined[j] == before[j] && before[j] in init;
        } else {
          assert combined[j] == run;
        }
      }
    }
  }

  /** The merge with unique ids keeps a store without duplicate ids free of them. */
  lemma {:induction false} MergeRunsDistinctKeeps(existing: seq<Dict>, fetched: seq<Dict>)
    requires DistinctIds(existing)
    ensures DistinctIds(MergeRunsDistinct(existing, fetched))
    decreases |fetched|
  {
    if |fetched| > 0 {
      var init := fetched[..|fetched| - 1];
      var run := fetched[|fetched| - 1];
      var before := MergeRunsDistinct(existing, init);
      MergeRunsDistinctKeeps(existing, init);
      var prev := NewRunsDistinct(existing, init);
      assert before == existing + prev;
      if !IdTaken(before, Get(run, "id")) {
        assert MergeRunsDistinct(existing, fetched) == before + [run];
        AppendKeepsDistinct(before, run);
      }
    }
  }

  /** The merge with unique ids loses no fetched run except one whose id
      the result already holds. */
  lemma {:induction false} MergeRunsDistinctCovers(existing: seq<Dict>, fetched: seq<Dict>)
    ensures var combined := MergeRunsDistinct(existing, fetched);
      forall i :: 0 <= i < |fetched| ==>
        fetched[i] in combined[|existing|..] || IdTaken(combined, Get(fetched[i], "id"))
    decreases |fetched|
  {
    if |fetched| > 0 {
      var combined := MergeRunsDistinct(existing, fetched);
      var init := fetched[..|fetched| - 1];
      var run := fetched[|fetched| - 1];
      var prev := NewRunsDistinct(existing, init);
      var before := existing + prev;
      MergeRunsDistinctCovers(existing, init);
      assert before == MergeRunsDistinct(existing, init);
      assert before[|existing|..] == prev;
      assert combined[..|before|] == before;
      TakenGrows(before, combined);
      forall i | 0 <= i < |fetched|
        ensures fetched[i] in combined[|existing|..] || IdTaken(combined, Get(fetched[i], "id"))
      {
        if i < |init| {
          assert fetched[i] == init[i];
          if init[i] in prev {
            var k :| 0 <= k < |prev| && prev[k] == init[i];
            assert combined[|existing|..][k] == prev[k];
          }
        } else if !IdTaken(before, Get(run, "id")) {
          assert combined[|existing|..][|combined| - 1 - |existing|] == run;
        }
      }
    }
  }

  /** The merge with unique ids keeps one copy of a run fetched twice. */
  lemma BatchDuplicateDropped()
    ensures var run: Dict := map["id" := Int(7)];
      MergeRunsDistinct([], [run, run]) == [run]
  {
    var run: Dict := map["id" := Int(7)];
    assert !IdTaken([], Get(run, "id"));
    assert NewRunsDistinct([], [run]) == [run];
    assert [run, run][..1] == [run];
    assert IdTaken([] + [run], Get(run, "id")) by {
      assert ([] + [run])[0] == run;
      assert Truthy(Get(run, "id")) && PyEq(Get(run, "id"), Get(run, "id"));
    }
  }

  /** A run whose id is not taken can be appended without a duplicate. */
  lemma AppendKeepsDistinct(store: seq<Dict>, run: Dict)
    requires DistinctIds(store) && !IdTaken(store, Get(run, "id"))
    ensures DistinctIds(store + [run])
  {
    var s := store + [run];
    forall i, j | 0 <= i < j < |s| && Truthy(Get(s[i], "id"))
      ensures !PyEq(Get(s[i], "id"), Get(s[j], "id"))
    {
      if j == |store| {
        assert s[i] == store[i];
      } else {
        assert s[i] == store[i] && s[j] == store[j];
      }
    }
  }

  /** An id taken in a store stays taken in any extension of it. */
  lemma TakenGrows(store: seq<Dict>, bigger: seq<Dict>)
    requires |store| <= |bigger| && bigger[..|store|] == store
    ensures forall v :: IdTaken(store, v) ==> IdTaken(bigger, v)
  {
    forall v | IdTaken(store, v) ensures IdTaken(bigger, v) {
      var m :| 0 <= m < |store| && Truthy(Get(store[m], "id")) && PyEq(Get(store[m], "id"), v);
      assert bigger[m] == store[m];
    }
  }

  /** On a batch without repeated ids the two merges agree, so the merge
      with unique ids differs from the code as written only where the
      latter stores a duplicate. */
  lemma {:induction false} MergesAgree(existing: seq<Dict>, fetched: seq<Dict>)
    requires DistinctIds(fetched)
    ensures MergeRunsDistinct(existing, fetched) == MergeRuns(existing, fetched)
    decreases |fetched|
  {
    if |fetched| > 0 {
      var init := fetched[..|fetched| - 1];
      var run := fetched[|fetched| - 1];
      assert DistinctIds(init) by {
        forall i, j | 0 <= i < j < |init| && Truthy(Get(init[i], "id"))
          ensures !PyEq(Get(init[i], "id"), Get(init[j], "id"))
        {
          assert init[i] == fetched[i] && init[j] == fetched[j];
        }
      }
      MergesAgree(existing, init);
      var prev := NewRuns(existing, init);
      var idx := NewIndices(existing, init);
      NewRunsMeaning(existing, init);
      assert NewRunsDistinct(existing, init) == MergeRunsDistinct(existing, init)[|existing|..];
      assert prev == MergeRuns(existing, init)[|existing|..];
      var v := Get(run, "id");
      if IdTaken(existing + prev, v) {
        var m :| 0 <= m < |existing + prev| && Truthy(Get((existing + prev)[m], "id"))
          && PyEq(Get((existing + prev)[m], "id"), v);
        assert m < |existing|;
        assert (existing + prev)[m] == existing[m];
        assert IdTaken(existing, v);
      } else {
        TakenGrows(existing, existing + prev);
      }
    }
  }

  // ---------------------------------------------------------------------
  // The job
  // ---------------------------------------------------------------------

  /** The store file: absent, not decodable as JSON, or a list of runs. */
  datatype StoreFile = Missing | Undecodable | Stored(runs: seq<Dict>)

  /** The runs loaded from the store file; an absent or undecodable file
      counts as an empty store. */
  function Existing(file: StoreFile): seq<Dict>
  {
    if file.Stored? then file.runs else []
  }

  /** `main`: walk the pages, then write the stored runs followed by the
      fetched runs whose id is not stored; when the walk aborts the job ends
      before the store file is opened. */
  method CollectRuns(fetch: int -> Page, file: StoreFile) returns (written: StoreFile)
    ensures PullFrom(fetch, 1).Aborted? ==> written == file
    ensures PullFrom(fetch, 1).Pulled? ==>
      written == Stored(MergeRuns(Existing(file), PullFrom(fetch, 1).runs))
    ensures written.Stored? && |Existing(file)| <= |written.runs| ==> written.runs[..|Existing(file)|] == Existing(file)
    ensures PullFrom(fetch, 1).Pulled? ==>
      forall j :: |Existing(file)| <= j < |written.runs| ==>
        written.runs[j] in PullFrom(fetch, 1).runs && !IdTaken(Existing(file), Get(written.runs[j], "id"))
  {
    var pulled := PullRuns(fetch);
    if pulled.Aborted? {
      return file;
    }
    var existing := Existing(file);
    MergeRunsFacts(existing, pulled.runs);
    written := Stored(MergeRuns(existing, pulled.runs));
  }

  /** The job as intended: the same walk, with the merge that also treats
      ids added earlier in the same batch as taken, so a store without
      duplicate ids stays without them. */
  method CollectRunsIntended(fetch: int -> Page, file: StoreFile) returns (written: StoreFile)
    ensures PullFrom(fetch, 1).Aborted? ==> written == file
    ensures PullFrom(fetch, 1).Pulled? ==>
      written == Stored(MergeRunsDistinct(Existing(file), PullFrom(fetch, 1).runs))
    ensures written.Stored? && |Existing(file)| <= |written.runs| ==> written.runs[..|Existing(file)|] == Existing(file)
    ensures written.Stored? && DistinctIds(Existing(file)) ==> DistinctIds(written.runs)
  {
    var pulled := PullRuns(fetch);
    if pulled.Aborted? {
      return file;
    }
    var existing := Existing(file);
    MergeRunsDistinctFacts(existing, pulled.runs);
    written := Stored(MergeRunsDistinct(existing, pulled.runs));
  }
}
