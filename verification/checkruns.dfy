/** The artifacts of a pull request's head commit (`fetch_pr_sha_artifacts`):
    the check runs of the commit are walked in order, the runs of the
    bioconda test workflow give CircleCI build ids, and the artifact set of
    each build is appended to one list. */
module CheckRuns {
  import opened Summary

  /** Title of the check runs whose summaries name CircleCI builds. */
  const TestWorkflowTitle: string := "Workflow: bioconda-test"

  /** The two fields of a check run's `output` the bot reads. */
  datatype CheckRun = CheckRun(title: string, summary: string)

  /** The build ids one check run contributes. */
  function RunIds(run: CheckRun): seq<string> {
    if run.title == TestWorkflowTitle then ParseSummary(run.summary) else []
  }

  /** The build ids of each run, one list per run, in run order. */
  function RunIdLists(runs: seq<CheckRun>): seq<seq<string>>
    decreases |runs|
  {
    if runs == [] then [] else RunIdLists(runs[..|runs| - 1]) + [RunIds(runs[|runs| - 1])]
  }

  /** The build ids of all runs, in run order and then in summary order. */
  function WorkflowIds(runs: seq<CheckRun>): seq<string> {
    Flatten(RunIdLists(runs))
  }

  /** `xs` lists the elements of `items`, each exactly once, in some order. */
  ghost predicate Enumerates(xs: seq<string>, items: set<string>) {
    (forall x :: x in xs <==> x in items) &&
    (forall i, j :: 0 <= i < j < |xs| ==> xs[i] != xs[j])
  }

  function Flatten(batches: seq<seq<string>>): seq<string>
    decreases |batches|
  {
    if batches == [] then [] else Flatten(batches[..|batches| - 1]) + batches[|batches| - 1]
  }

  /** Sum of the sizes of the artifact sets of `ids`. */
  function TotalSize(ids: seq<string>, fetch: string -> set<string>): nat
    decreases |ids|
  {
    if ids == [] then 0 else TotalSize(ids[..|ids| - 1], fetch) + |fetch(ids[|ids| - 1])|
  }

  /** `list.extend(items)` for a set: the elements are appended one by one,
      in the set's iteration order, which the model leaves unspecified. */
  method ExtendWithSet(acc: seq<string>, items: set<string>) returns (r: seq<string>, ghost added: seq<string>)
    ensures r == acc + added
    ensures Enumerates(added, items)
  {
    r, added := acc, [];
    var rest := items;
    while rest != {}
      invariant r == acc + added
      invariant rest <= items
      invariant forall x :: x in added <==> x in items && x !in rest
      invariant forall i, j :: 0 <= i < j < |added| ==> added[i] != added[j]
      decreases |rest|
    {
      var x :| x in rest;
      r, added := r + [x], added + [x];
      rest := rest - {x};
    }
  }

  /** A duplicate-free listing of a set is as long as the set is large. */
  lemma {:induction false} EnumerationSize(xs: seq<string>, items: set<string>)
    requires Enumerates(xs, items)
    ensures |xs| == |items|
    decreases |xs|
  {
    if xs != [] {
      var last := xs[|xs| - 1];
      var init := xs[..|xs| - 1];
      assert xs == init + [last];
      assert last !in init;
      assert Enumerates(init, items - {last});
      EnumerationSize(init, items - {last});
    } else {
      assert items == {};
    }
  }

  /** `batches[k]` is a listing of the artifact set of build `ids[k]`. */
  ghost predicate ListsBuilds(batches: seq<seq<string>>, ids: seq<string>, fetch: string -> set<string>) {
    |batches| == |ids| &&
    forall k :: 0 <= k < |batches| ==> Enumerates(batches[k], fetch(ids[k]))
  }

  lemma ListsBuildsSnoc(batches: seq<seq<string>>, ids: seq<string>, fetch: string -> set<string>, batch: seq<string>, id: string)
    requires ListsBuilds(batches, ids, fetch) && Enumerates(batch, fetch(id))
    ensures ListsBuilds(batches + [batch], ids + [id], fetch)
  {
  }

  /** `fetch_pr_sha_artifacts` once the check runs are parsed: `fetch` stands
      for `fetch_artifacts`, the artifact set of one CircleCI build. The ghost
      `batches` are the per-build listings in the order they were appended. */
  method FetchPrShaArtifacts(runs: seq<CheckRun>, fetch: string -> set<string>)
    returns (artifacts: seq<string>, ghost batches: seq<seq<string>>)
    ensures ListsBuilds(batches, WorkflowIds(runs), fetch)
    ensures artifacts == Flatten(batches)
    ensures |artifacts| == TotalSize(WorkflowIds(runs), fetch)
    ensures forall a :: a in artifacts <==>
      exists k :: 0 <= k < |WorkflowIds(runs)| && a in fetch(WorkflowIds(runs)[k])
    ensures (forall k :: 0 <= k < |runs| ==> runs[k].title != TestWorkflowTitle) ==> artifacts == []
  {
    artifacts, batches := [], [];
    for i := 0 to |runs|
      invariant ListsBuilds(batches, WorkflowIds(runs[..i]), fetch)
      invariant artifacts == Flatten(batches)
    {
      ghost var before := WorkflowIds(runs[..i]);
      var run := runs[i];
      assert runs[..i + 1] == runs[..i] + [run];
      WorkflowIdsSnoc(runs[..i], run);
      if run.title == TestWorkflowTitle {
        var ids := ParseSummary(run.summary);
        for j := 0 to |ids|
          invariant ListsBuilds(batches, before + ids[..j], fetch)
          invariant artifacts == Flatten(batches)
        {
          var found := fetch(ids[j]);
          ghost var batch;
          artifacts, batch := ExtendWithSet(artifacts, found);
          FlattenSnoc(batches, batch);
          ListsBuildsSnoc(batches, before + ids[..j], fetch, batch, ids[j]);
          batches := batches + [batch];
          PrefixSnoc(before, ids, j);
        }
        assert ids[..|ids|] == ids;
      }
    }
    assert runs[..|runs|] == runs;
    FlattenSize(batches, WorkflowIds(runs), fetch);
    forall a {
      FlattenMembers(batches, WorkflowIds(runs), fetch, a);
    }
    if forall k :: 0 <= k < |runs| ==> runs[k].title != TestWorkflowTitle {
      NoTestRunsNoIds(runs);
    }
  }

  lemma PrefixSnoc(before: seq<string>, ids: seq<string>, j: nat)
    requires j < |ids|
    ensures before + ids[..j + 1] == (before + ids[..j]) + [ids[j]]
  {
    assert ids[..j + 1] == ids[..j] + [ids[j]];
  }

  lemma FlattenSnoc(batches: seq<seq<string>>, batch: seq<string>)
    ensures Flatten(batches + [batch]) == Flatten(batches) + batch
  {
    assert (batches + [batch])[..|batches|] == batches;
  }

  /** The appended listings together are exactly as long as the artifact sets
      of the builds are large: nothing is deduplicated across builds. */
  lemma {:induction false} FlattenSize(batches: seq<seq<string>>, ids: seq<string>, fetch: string -> set<string>)
    requires ListsBuilds(batches, ids, fetch)
    ensures |Flatten(batches)| == TotalSize(ids, fetch)
    decreases |batches|
  {
    if batches != [] {
      var n := |batches| - 1;
      FlattenSize(batches[..n], ids[..n], fetch);
      EnumerationSize(batches[n], fetch(ids[n]));
    }
  }

  /** An artifact is in the result exactly when one of the builds named by
      the test-workflow runs lists it. */
  lemma {:induction false} FlattenMembers(batches: seq<seq<string>>, ids: seq<string>, fetch: string -> set<string>, a: string)
    requires ListsBuilds(batches, ids, fetch)
    ensures a in Flatten(batches) <==> exists k :: 0 <= k < |ids| && a in fetch(ids[k])
    decreases |batches|
  {
    if batches != [] {
      var n := |batches| - 1;
      var init, last := batches[..n], batches[n];
      assert ListsBuilds(init, ids[..n], fetch);
      FlattenMembers(init, ids[..n], fetch, a);
      assert batches == init + [last];
      FlattenSnoc(init, last);
      assert a in last <==> a in fetch(ids[n]);
      if a in Flatten(init) {
        var k :| 0 <= k < n && a in fetch(ids[..n][k]);
        assert a in fetch(ids[k]);
      }
      if exists k :: 0 <= k < |ids| && a in fetch(ids[k]) {
        var k :| 0 <= k < |ids| && a in fetch(ids[k]);
        if k < n {
          assert a in fetch(ids[..n][k]);
        }
      }
    }
  }

  /** With no run of the test workflow there is no build id at all. */
  lemma {:induction false} NoTestRunsNoIds(runs: seq<CheckRun>)
    requires forall k :: 0 <= k < |runs| ==> runs[k].title != TestWorkflowTitle
    ensures WorkflowIds(runs) == []
    decreases |runs|
  {
    if runs != [] {
      var n := |runs| - 1;
      NoTestRunsNoIds(runs[..n]);
      assert runs == runs[..n] + [runs[n]];
      WorkflowIdsSnoc(runs[..n], runs[n]);
    }
  }

  /** A run appended at the end contributes its ids at the end. */
  lemma WorkflowIdsSnoc(runs: seq<CheckRun>, run: CheckRun)
    ensures WorkflowIds(runs + [run]) == WorkflowIds(runs) + RunIds(run)
  {
    assert (runs + [run])[..|runs|] == runs;
    assert RunIdLists(runs + [run]) == RunIdLists(runs) + [RunIds(run)];
    FlattenSnoc(RunIdLists(runs), RunIds(run));
  }

  /** Flattening two stretches of lists concatenates their flattenings. */
  lemma {:induction false} FlattenConcat(x: seq<seq<string>>, y: seq<seq<string>>)
    ensures Flatten(x + y) == Flatten(x) + Flatten(y)
    decreases |y|
  {
    if y == [] {
      assert x + y == x;
    } else {
      var init, last := y[..|y| - 1], y[|y| - 1];
      assert x + y == (x + init) + [last];
      assert y == init + [last];
      FlattenSnoc(x + init, last);
      FlattenSnoc(init, last);
      FlattenConcat(x, init);
    }
  }

  /** Collecting ids over two stretches of runs concatenates their ids: runs
      contribute in the order they are listed. */
  lemma WorkflowIdsConcat(a: seq<CheckRun>, b: seq<CheckRun>)
    ensures WorkflowIds(a + b) == WorkflowIds(a) + WorkflowIds(b)
  {
    RunIdListsConcat(a, b);
    FlattenConcat(RunIdLists(a), RunIdLists(b));
  }

  lemma {:induction false} RunIdListsConcat(a: seq<CheckRun>, b: seq<CheckRun>)
    ensures RunIdLists(a + b) == RunIdLists(a) + RunIdLists(b)
    decreases |b|
  {
    if b == [] {
      assert a + b == a;
    } else {
      var init, last := b[..|b| - 1], b[|b| - 1];
      assert a + b == (a + init) + [last];
      assert ((a + init) + [last])[..|a + init|] == a + init;
      assert b == init + [last];
      assert (init + [last])[..|init|] == init;
      RunIdListsConcat(a, init);
    }
  }

  /** Every id comes from the summary of a run titled as the test workflow. */
  lemma {:induction false} WorkflowIdsFromTestRuns(runs: seq<CheckRun>, id: string)
    requires id in WorkflowIds(runs)
    ensures exists k :: 0 <= k < |runs| && runs[k].title == TestWorkflowTitle && id in ParseSummary(runs[k].summary)
    decreases |runs|
  {
    if runs == [] {
      assert false;
    }
    var n := |runs| - 1;
    assert runs == runs[..n] + [runs[n]];
    WorkflowIdsSnoc(runs[..n], runs[n]);
    if id in WorkflowIds(runs[..n]) {
      WorkflowIdsFromTestRuns(runs[..n], id);
      var k :| 0 <= k < n && runs[..n][k].title == TestWorkflowTitle && id in ParseSummary(runs[..n][k].summary);
      assert runs[k] == runs[..n][k];
    } else {
      assert id in RunIds(runs[n]);
    }
  }
}
