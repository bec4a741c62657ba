/** What lib/common.py promises about repeated and sequenced calls of
    `patch` and `patch_all`: re-running a single-mode patch changes nothing,
    `patch_all` is safe to re-run only once the original text is gone, a
    failing call does not stop the calls after it, and a whole fix script
    can be re-run without applying anything exactly when none of its calls
    would be applied on the files its first run left. */
module Properties {
  import opened Text
  import opened Patcher

  /** `patch` is idempotent: a second identical call never writes, and
      after a call that was applied it is a skip. */
  lemma SingleIdempotent(files: map<string, string>, readOnly: set<string>, rec: PatchRecord)
    requires rec.mode == Single
    ensures var first := Step(files, readOnly, rec);
      var second := Step(first.files, readOnly, rec);
      second.files == first.files && !second.report.outcome.Applied? &&
      (first.report.outcome == Applied ==> second.report.outcome == Skipped)
  {
    var first := Step(files, readOnly, rec);
    if first.report.outcome == Applied {
      assert Contains(first.files[rec.path], rec.newText);
    }
  }

  /** `patch_all` is a skip on a re-run once its rewrite left no occurrence
      of the original text behind. */
  lemma AllRerunSkipsWhenOldGone(files: map<string, string>, readOnly: set<string>, rec: PatchRecord)
    requires rec.mode == All
    requires Step(files, readOnly, rec).report.outcome == Applied
    requires !Contains(Step(files, readOnly, rec).files[rec.path], rec.oldText)
    ensures var first := Step(files, readOnly, rec);
      var second := Step(first.files, readOnly, rec);
      second.report.outcome == Skipped && second.files == first.files
  {
    var first := Step(files, readOnly, rec);
    assert Contains(first.files[rec.path], rec.newText);
  }

  /** `patch_all` is not idempotent when the replacement contains the
      original (as when `new` ends with `old`): every re-run applies again
      and the file grows by at least the difference in length. */
  lemma AllRerunGrows(files: map<string, string>, readOnly: set<string>, rec: PatchRecord)
    requires rec.mode == All
    requires Contains(rec.newText, rec.oldText) && |rec.newText| > |rec.oldText|
    requires Step(files, readOnly, rec).report.outcome == Applied
    ensures var first := Step(files, readOnly, rec);
      var second := Step(first.files, readOnly, rec);
      second.report.outcome == Applied &&
      |second.files[rec.path]| >= |first.files[rec.path]| + |rec.newText| - |rec.oldText|
  {
    var first := Step(files, readOnly, rec);
    var code := first.files[rec.path];
    assert Contains(code, rec.newText);
    ContainsTransitive(code, rec.newText, rec.oldText);
    ReplaceAllGrows(code, rec.oldText, rec.newText);
  }

  /** The outcome of a call depends only on whether the named file can be
      read and what it holds. */
  lemma StepLocal(f: map<string, string>, g: map<string, string>, readOnly: set<string>, rec: PatchRecord)
    requires rec.path in f <==> rec.path in g
    requires rec.path in f ==> f[rec.path] == g[rec.path]
    ensures Step(f, readOnly, rec).report == Step(g, readOnly, rec).report
  {
  }

  /** Every call of a script is made on the files the calls before it
      left, whatever they reported: a read or write failure does not stop
      the calls after it. */
  lemma {:induction false} RunStepAt(files: map<string, string>, readOnly: set<string>, patches: seq<PatchRecord>, k: nat)
    requires k < |patches|
    ensures RunSpec(files, readOnly, patches).reports[k] ==
      Step(RunSpec(files, readOnly, patches[..k]).files, readOnly, patches[k]).report
    decreases |patches|
  {
    var n := |patches| - 1;
    if k < n {
      RunStepAt(files, readOnly, patches[..n], k);
      PrefixOfPrefix(patches, n, k);
      EarlierReportKept(files, readOnly, patches, k);
    } else {
      RunSpecLast(files, readOnly, patches);
    }
  }

  /** A later call does not change what an earlier one reported. */
  lemma EarlierReportKept(files: map<string, string>, readOnly: set<string>, patches: seq<PatchRecord>, k: nat)
    requires k < |patches| - 1
    ensures RunSpec(files, readOnly, patches).reports[k] == RunSpec(files, readOnly, patches[..|patches| - 1]).reports[k]
  {
    RunSpecLast(files, readOnly, patches);
  }

  /** One unfolding of `RunSpec`: the last call runs on what the others left. */
  lemma RunSpecLast(files: map<string, string>, readOnly: set<string>, patches: seq<PatchRecord>)
    requires patches != []
    ensures var prev := RunSpec(files, readOnly, patches[..|patches| - 1]);
      var last := Step(prev.files, readOnly, patches[|patches| - 1]);
      RunSpec(files, readOnly, patches) == RunResult(last.files, prev.reports + [last.report])
  {
  }

  /** The content a script leaves in a file is the content it had after
      the last call that names that file. */
  lemma {:induction false} LaterCallsKeep(files: map<string, string>, readOnly: set<string>, patches: seq<PatchRecord>, n: nat, p: string)
    requires n <= |patches| && p in files
    requires forall j :: n <= j < |patches| ==> patches[j].path != p
    ensures RunSpec(files, readOnly, patches).files[p] == RunSpec(files, readOnly, patches[..n]).files[p]
    decreases |patches|
  {
    if n < |patches| {
      var m := |patches| - 1;
      var init := patches[..m];
      LastCallKeeps(files, readOnly, patches, p);
      LaterCallsKeep(files, readOnly, init, n, p);
      PrefixOfPrefix(patches, m, n);
    } else {
      assert patches[..n] == patches;
    }
  }

  /** A call that names another file leaves `p` as it was. */
  lemma LastCallKeeps(files: map<string, string>, readOnly: set<string>, patches: seq<PatchRecord>, p: string)
    requires patches != [] && p in files && patches[|patches| - 1].path != p
    ensures RunSpec(files, readOnly, patches).files[p] == RunSpec(files, readOnly, patches[..|patches| - 1]).files[p]
  {
    RunSpecLast(files, readOnly, patches);
  }

  predicate AllSingle(patches: seq<PatchRecord>)
  {
    forall k :: 0 <= k < |patches| ==> patches[k].mode == Single
  }

  predicate DistinctPaths(patches: seq<PatchRecord>)
  {
    forall i, j :: 0 <= i < j < |patches| ==> patches[i].path != patches[j].path
  }

  /** After a script of single-mode patches on distinct files, calling any
      of its patches again writes nothing. */
  lemma RerunCallIsNoop(files: map<string, string>, readOnly: set<string>, patches: seq<PatchRecord>, k: nat)
    requires AllSingle(patches) && DistinctPaths(patches) && k < |patches|
    ensures var g := RunSpec(files, readOnly, patches).files;
      Step(g, readOnly, patches[k]).files == g && !Step(g, readOnly, patches[k]).report.outcome.Applied?
  {
    var g := RunSpec(files, readOnly, patches).files;
    var rec := patches[k];
    var before := RunSpec(files, readOnly, patches[..k]).files;
    var s := RunSpec(files, readOnly, patches[..k + 1]).files;
    PrefixOfPrefix(patches, k + 1, k);
    assert s == Step(before, readOnly, rec).files;
    SingleIdempotent(before, readOnly, rec);
    if rec.path in files {
      LaterCallsKeep(files, readOnly, patches, k + 1, rec.path);
    }
    StepLocal(s, g, readOnly, rec);
  }

  /** A script run on the files `g`, none of whose calls would be applied
      on `g` itself, leaves `g` as it is and applies nothing. This holds for
      both modes and for calls that share a file. */
  lemma {:induction false} NoWriteRunKeeps(g: map<string, string>, readOnly: set<string>, patches: seq<PatchRecord>, n: nat)
    requires n <= |patches|
    requires forall k :: 0 <= k < n ==> !Step(g, readOnly, patches[k]).report.outcome.Applied?
    ensures RunSpec(g, readOnly, patches[..n]).files == g
    ensures CountApplied(RunSpec(g, readOnly, patches[..n]).reports) == 0
    decreases n
  {
    if n == 0 {
      assert patches[..0] == [];
    } else {
      var prev := RunSpec(g, readOnly, patches[..n - 1]);
      var last := Step(prev.files, readOnly, patches[n - 1]);
      NoWriteRunKeeps(g, readOnly, patches, n - 1);
      RunSpecSnoc(g, readOnly, patches, n - 1);
      CountSnoc(prev.reports, last.report);
    }
  }

  /** Conversely, a script run on `g` that applies nothing has no call that
      would be applied on `g`. */
  lemma {:induction false} NoWriteRunOnly(g: map<string, string>, readOnly: set<string>, patches: seq<PatchRecord>, n: nat)
    requires n <= |patches|
    requires CountApplied(RunSpec(g, readOnly, patches[..n]).reports) == 0
    ensures forall k :: 0 <= k < n ==> !Step(g, readOnly, patches[k]).report.outcome.Applied?
    decreases n
  {
    if n > 0 {
      var prev := RunSpec(g, readOnly, patches[..n - 1]);
      var last := Step(prev.files, readOnly, patches[n - 1]);
      RunSpecSnoc(g, readOnly, patches, n - 1);
      CountSnoc(prev.reports, last.report);
      assert CountApplied(prev.reports) == 0 && !last.report.outcome.Applied?;
      NoWriteRunOnly(g, readOnly, patches, n - 1);
      NoWriteRunKeeps(g, readOnly, patches, n - 1);
      assert prev.files == g;
      forall k | 0 <= k < n
        ensures !Step(g, readOnly, patches[k]).report.outcome.Applied?
      {
        if k == n - 1 {
          assert Step(g, readOnly, patches[k]) == last;
        }
      }
    }
  }

  /** Re-running a whole script applies nothing, and leaves every file as
      the first run left it, exactly when no call of the script would be
      applied on the files the first run left. */
  lemma RerunIsNoop(files: map<string, string>, readOnly: set<string>, patches: seq<PatchRecord>)
    ensures var g := RunSpec(files, readOnly, patches).files;
      var second := RunSpec(g, readOnly, patches);
      (CountApplied(second.reports) == 0 <==> forall k :: 0 <= k < |patches| ==> !Step(g, readOnly, patches[k]).report.outcome.Applied?) &&
      (CountApplied(second.reports) == 0 ==> second.files == g)
  {
    var g := RunSpec(files, readOnly, patches).files;
    assert patches[..|patches|] == patches;
    if forall k :: 0 <= k < |patches| ==> !Step(g, readOnly, patches[k]).report.outcome.Applied? {
      NoWriteRunKeeps(g, readOnly, patches, |patches|);
    }
    if CountApplied(RunSpec(g, readOnly, patches).reports) == 0 {
      NoWriteRunOnly(g, readOnly, patches, |patches|);
      NoWriteRunKeeps(g, readOnly, patches, |patches|);
    }
  }

  /** Re-running a script of single-mode patches on distinct files leaves
      every file as the first run left it and applies nothing: `applied`
      does not move. */
  lemma RerunAppliesNothing(files: map<string, string>, readOnly: set<string>, patches: seq<PatchRecord>)
    requires AllSingle(patches) && DistinctPaths(patches)
    ensures var g := RunSpec(files, readOnly, patches).files;
      var second := RunSpec(g, readOnly, patches);
      second.files == g && CountApplied(second.reports) == 0
  {
    var g := RunSpec(files, readOnly, patches).files;
    forall k | 0 <= k < |patches|
      ensures !Step(g, readOnly, patches[k]).report.outcome.Applied?
    {
      RerunCallIsNoop(files, readOnly, patches, k);
    }
    RerunIsNoop(files, readOnly, patches);
  }

  /** Each call moves at most one counter. */
  lemma {:induction false} CountersBounded(reports: seq<Report>)
    ensures CountApplied(reports) + CountSkipped(reports) <= |reports|
  {
    if reports != [] {
      CountersBounded(reports[..|reports| - 1]);
    }
  }
}
