/** Concrete runs of the patch engine on small files, with patch data in
    the style of the fix scripts: a single-mode threshold change
    (DM-002-cpu-load-threshold/fix.py), an all-mode namespace fallback
    (NS-001-discovery-default-namespace/fix.py), and the edge cases of the
    ladder. */
module Scenarios {
  import opened Text
  import opened Patcher
  import opened Properties
  import Paths

  /** The worker daemon and the embeddings tools under a package tree at
      `/pkg`. */
  const WD := Paths.Targets("/pkg")[1]
  const EMB := Paths.Targets("/pkg")[8]
  /** The headless worker executor, absent from the file systems below. */
  const HWE := Paths.Targets("/pkg")[0]

  const CpuOld := "maxCpuLoad: 2.0"
  const CpuNew := "maxCpuLoad: 28.0"
  const NsOld := "namespace: namespace || 'default',"
  const NsNew := "namespace: namespace || 'all',"

  /** A pattern holding a character the text lacks does not occur in it. */
  lemma MissingChar(s: string, p: string, c: char)
    requires c in p && c !in s
    ensures !Contains(s, p)
  {
  }

  /** A text that starts with the pattern has its leftmost occurrence at 0. */
  lemma FoundAtFront(p: string, post: string)
    ensures Find(p + post, p) == Some(0)
  {
    assert (p + post)[..|p|] == p;
  }

  /** A text that starts with one other character and then the pattern
      has its leftmost occurrence at 1. */
  lemma FoundAfterChar(c: char, p: string, post: string)
    requires p != [] && c != p[0]
    ensures Find([c] + p + post, p) == Some(1)
  {
    var s := [c] + p + post;
    assert s[1..1 + |p|] == p;
    assert !OccursAt(s, p, 0) by {
      assert s[0] != p[0];
    }
    assert FindFrom(s, p, 1) == Some(1);
  }

  /** DM-002 on a file holding the old threshold: `patch` rewrites it. */
  lemma CpuThresholdDecision()
    ensures DecideSingle(CpuOld + ", x: 1", CpuOld, CpuNew) == Rewrite(CpuNew + ", x: 1")
  {
    var code := CpuOld + ", x: 1";
    assert '8' !in code;
    MissingChar(code, CpuNew, '8');
    FoundAtFront(CpuOld, ", x: 1");
    assert code[..0] + CpuNew + code[|CpuOld|..] == CpuNew + ", x: 1";
  }

  /** DM-002: the threshold is rewritten once; the second run is a skip. */
  lemma CpuThresholdAppliedThenSkipped()
    ensures var rec := PatchRecord("5: CPU load threshold", WD, CpuOld, CpuNew, Single);
      var first := Step(map[WD := CpuOld + ", x: 1"], {}, rec);
      var second := Step(first.files, {}, rec);
      first.report.outcome == Applied &&
      first.files[WD] == CpuNew + ", x: 1" &&
      second.report.outcome == Skipped && second.files == first.files
  {
    var rec := PatchRecord("5: CPU load threshold", WD, CpuOld, CpuNew, Single);
    CpuThresholdDecision();
    SingleIdempotent(map[WD := CpuOld + ", x: 1"], {}, rec);
  }

  /** NS-001 (`patch_all`): both occurrences of the fallback are converted. */
  lemma NamespaceAllDecision()
    ensures DecideAll(NsOld + (" " + NsOld), NsOld, NsNew) == Rewrite(NsNew + " " + NsNew)
  {
    assert " " + NsOld == [' '] + NsOld;
    PairReplaced(NsOld, NsNew, ' ');
    FoundAtFront(NsOld, " " + NsOld);
  }

  /** `patch_all` on two occurrences separated by one character. */
  lemma PairReplaced(p: string, n: string, c: char)
    requires p != [] && c != p[0]
    ensures ReplaceAll(p + ([c] + p), p, n) == n + [c] + n
  {
    var s := p + ([c] + p);
    var ms := Matches(s, p);
    PairMatches(p, c);
    PutAtHead(s, 0, ms, |p|, n);
    PutAtHead(s, |p|, ms[1..], |p|, n);
    assert s[|p|..|p| + 1] == [c];
  }

  /** The scan finds the two occurrences at 0 and after the separator. */
  lemma PairMatches(p: string, c: char)
    requires p != [] && c != p[0]
    ensures var ms := Matches(p + ([c] + p), p);
      |ms| == 2 && ms[0] == 0 && ms[1] == |p| + 1 && MatchesFrom(p + ([c] + p), p, ms[1] + |p|) == []
  {
    var s := p + ([c] + p);
    var e := |p| + 1 + |p|;
    FoundAtFront(p, [c] + p);
    assert s[|p|..] == [c] + p + [];
    FoundAfterChar(c, p, []);
    FindInSuffix(s, p, |p|);
    assert s[e..] == [];
    FindInSuffix(s, p, e);
    MatchesFromUnfold(s, p, 0);
    MatchesFromUnfold(s, p, |p|);
  }

  /** After NS-001 the file holds only the new fallback: a re-run skips. */
  lemma NamespaceAllRerunDecision()
    ensures DecideAll(NsNew + " " + NsNew, NsOld, NsNew) == Skip
  {
    var code := NsNew + " " + NsNew;
    assert code == NsNew + (" " + NsNew);
    FoundAtFront(NsNew, " " + NsNew);
    NoOldInNew();
    MissingChar(code, NsOld, 'd');
  }

  /** NS-001 run twice through the file system: applied, then skipped. */
  lemma NamespaceAllAppliedThenSkipped()
    ensures var rec := PatchRecord("19e: embeddings metadata namespace all", EMB, NsOld, NsNew, All);
      var first := Step(map[EMB := NsOld + (" " + NsOld)], {}, rec);
      var second := Step(first.files, {}, rec);
      first.report.outcome == Applied && first.files[EMB] == NsNew + " " + NsNew &&
      second.report.outcome == Skipped && second.files == first.files
  {
    NamespaceAllDecision();
    NamespaceAllRerunDecision();
  }

  /** A file converted halfway (new fallback and old fallback both
      present): `patch_all` finishes the conversion, where `patch` would
      skip. */
  lemma PartialConversionResumed()
    ensures DecideAll(NsOld + (" " + NsNew), NsOld, NsNew) == Rewrite(NsNew + (" " + NsNew))
  {
    NoOldInNew();
    MissingChar(" " + NsNew, NsOld, 'd');
    ReplaceAllFront(NsOld, NsNew, " " + NsNew);
  }

  /** `patch_all` on a text that starts with the pattern and has no other
      occurrence. */
  lemma ReplaceAllFront(p: string, n: string, post: string)
    requires p != [] && !Contains(post, p)
    ensures Contains(p + post, p)
    ensures ReplaceAll(p + post, p, n) == n + post
  {
    var s := p + post;
    FoundAtFront(p, post);
    assert s[|p|..] == post;
    FindInSuffix(s, p, |p|);
    MatchesFromUnfold(s, p, 0);
    PutAtHead(s, 0, Matches(s, p), |p|, n);
  }

  /** On the same half-converted file, `patch` skips. */
  lemma PartialConversionSkippedBySingle()
    ensures DecideSingle(NsOld + (" " + NsNew), NsOld, NsNew) == Skip
  {
    var code := NsOld + (" " + NsNew);
    OccursAfterPrefix(NsOld + " ", NsNew, NsNew, 0);
    assert NsOld + " " + NsNew == code;
    OccurrenceContained(code, NsNew, |NsOld + " "|);
  }

  /** The old fallback has a `d` that the new one lacks. */
  lemma NoOldInNew()
    ensures 'd' in NsOld && 'd' !in " " + NsNew && 'd' !in NsNew + " " + NsNew
  {
    assert NsOld[25] == 'd';
  }

  /** `patch` replaces the first occurrence only; the later one is kept. */
  lemma FirstOccurrenceOnly()
    ensures DecideSingle("x = 1;" + " x = 1;", "x = 1;", "x = 2;") == Rewrite("x = 2;" + " x = 1;")
  {
    var code := "x = 1;" + " x = 1;";
    assert '2' !in code;
    MissingChar(code, "x = 2;", '2');
    FoundAtFront("x = 1;", " x = 1;");
    assert code[..0] + "x = 2;" + code[6..] == "x = 2;" + " x = 1;";
  }

  /** Neither the original nor the replacement is in the file: a warning,
      and nothing changes. */
  lemma DriftWarns()
    ensures var rec := PatchRecord("5: CPU load threshold", WD, CpuOld, CpuNew, Single);
      var r := Step(map[WD := "nothing here"], {}, rec);
      r.report.outcome == Warned && r.files == map[WD := "nothing here"]
  {
    assert 'm' !in "nothing here";
    MissingChar("nothing here", CpuOld, 'm');
    MissingChar("nothing here", CpuNew, 'm');
  }

  /** The worker executor and the worker daemon are different files. */
  lemma GoneIsNotWd()
    ensures HWE != WD
  {
    Paths.TargetsDistinct("/pkg");
  }

  /** A call on a file that cannot be read fails, and the next call of the
      script is still made and applied. */
  lemma FailureThenApplied()
    ensures var patches := [PatchRecord("4: gone", HWE, "a", "b", Single),
                            PatchRecord("5: CPU load threshold", WD, CpuOld, CpuNew, Single)];
      var r := RunSpec(map[WD := CpuOld + ", x: 1"], {}, patches);
      r.reports == [Report("4: gone", Failed(ReadFailed)), Report("5: CPU load threshold", Applied)] &&
      r.files == map[WD := CpuNew + ", x: 1"] &&
      CountApplied(r.reports) == 1 && CountSkipped(r.reports) == 0
  {
    var files := map[WD := CpuOld + ", x: 1"];
    var gone := PatchRecord("4: gone", HWE, "a", "b", Single);
    var rec := PatchRecord("5: CPU load threshold", WD, CpuOld, CpuNew, Single);
    GoneIsNotWd();
    CpuThresholdDecision();
    StepApplies(files, rec, CpuNew + ", x: 1");
    assert files[WD := CpuNew + ", x: 1"] == map[WD := CpuNew + ", x: 1"];
    TwoCallRun(files, gone, rec);
    CountTwo(Report("4: gone", Failed(ReadFailed)), Report("5: CPU load threshold", Applied));
  }

  /** `patch_all` whose replacement contains the original keeps growing
      the file: "a" becomes "ab", then "abb". */
  lemma AllModeGrowsOnRerun()
    ensures DecideAll("a", "a", "ab") == Rewrite("ab")
    ensures DecideAll("ab", "a", "ab") == Rewrite("abb")
  {
    AllModeRewrites("", "a", "ab");
    AllModeRewrites("b", "ab", "abb");
  }

  /** `patch_all` of `a` by `ab` on `a` followed by a text without `a`. */
  lemma AllModeRewrites(post: string, code: string, result: string)
    requires 'a' !in post && code == "a" + post && result == "ab" + post
    ensures DecideAll(code, "a", "ab") == Rewrite(result)
  {
    MissingChar(post, "a", 'a');
    ReplaceAllFront("a", "ab", post);
  }

  /** Two single-mode patches on the same file, the second undoing part of
      the first: every run of the script applies both again and the file
      keeps changing, so a re-run is not a no-op once two calls share a
      file. */
  lemma SharedFileRerunNotNoop()
    ensures var patches := [PatchRecord("A", WD, "x", "y", Single), PatchRecord("B", WD, "y", "xz", Single)];
      var first := RunSpec(map[WD := "x"], {}, patches);
      var second := RunSpec(first.files, {}, patches);
      first.files == map[WD := "xz"] && second.files == map[WD := "xzz"] && CountApplied(second.reports) == 2
  {
    SharedFileRun("x", "", "xz");
    SharedFileRun("xz", "z", "xzz");
    CountTwo(Report("A", Applied), Report("B", Applied));
  }

  /** One run of the two patches on a file `x` + `post`. */
  lemma SharedFileRun(code: string, post: string, result: string)
    requires code == "x" + post && result == "xz" + post && 'y' !in post && 'x' !in post
    ensures var patches := [PatchRecord("A", WD, "x", "y", Single), PatchRecord("B", WD, "y", "xz", Single)];
      var r := RunSpec(map[WD := code], {}, patches);
      r.files == map[WD := result] && r.reports == [Report("A", Applied), Report("B", Applied)]
  {
    var a := PatchRecord("A", WD, "x", "y", Single);
    var b := PatchRecord("B", WD, "y", "xz", Single);
    SingleRewrites(code, "x", "y", post);
    SingleRewrites("y" + post, "y", "xz", post);
    StepApplies(map[WD := code], a, "y" + post);
    assert map[WD := code][WD := "y" + post] == map[WD := "y" + post];
    StepApplies(map[WD := "y" + post], b, result);
    assert map[WD := "y" + post][WD := result] == map[WD := result];
    TwoCallRun(map[WD := code], a, b);
  }

  /** `patch` rewrites `p + post` to `n + post` when `n` is absent. */
  lemma SingleRewrites(code: string, p: string, n: string, post: string)
    requires code == p + post && p != [] && n != []
    requires n[0] !in code
    ensures DecideSingle(code, p, n) == Rewrite(n + post)
  {
    MissingChar(code, n, n[0]);
    FoundAtFront(p, post);
  }

  /** A call whose ladder rewrites a writable file is applied. */
  lemma StepApplies(files: map<string, string>, rec: PatchRecord, text: string)
    requires rec.path in files
    requires Decide(rec.mode, files[rec.path], rec.oldText, rec.newText) == Rewrite(text)
    ensures Step(files, {}, rec) == StepResult(files[rec.path := text], Report(rec.name, Applied))
  {
  }

  lemma CountTwo(r1: Report, r2: Report)
    ensures CountApplied([r1, r2]) == (if r1.outcome.Applied? then 1 else 0) + (if r2.outcome.Applied? then 1 else 0)
    ensures CountSkipped([r1, r2]) == (if r1.outcome.Skipped? then 1 else 0) + (if r2.outcome.Skipped? then 1 else 0)
  {
    CountSnoc([], r1);
    CountSnoc([r1], r2);
    assert [] + [r1] == [r1] && [r1] + [r2] == [r1, r2];
  }

  lemma TwoCallRun(files: map<string, string>, a: PatchRecord, b: PatchRecord)
    ensures var r := RunSpec(files, {}, [a, b]);
      var s1 := Step(files, {}, a);
      var s2 := Step(s1.files, {}, b);
      r.files == s2.files && r.reports == [s1.report, s2.report]
  {
    RunSpecLast(files, {}, [a, b]);
    RunSpecLast(files, {}, [a]);
    assert [a, b][..1] == [a];
    assert [a][..0] == [];
  }

  /** An empty original: `patch` puts the replacement in front. */
  lemma EmptyOriginalSingle()
    ensures DecideSingle("ab", "", "X") == Rewrite("Xab")
  {
    MissingChar("ab", "X", 'X');
    assert Contains("ab", "");
    assert ReplaceFirst("ab", "", "X") == "X" + "ab";
  }

  /** An empty original: `patch_all` puts the replacement before every
      character and at the end. */
  lemma EmptyOriginalAll()
    ensures DecideAll("ab", "", "X") == Rewrite("XaXbX")
  {
    assert "ab"[1..] == "b" && "b"[1..] == [];
    assert Interleave("b", "X") == "XbX";
    assert Interleave("ab", "X") == "XaXbX";
  }
}
