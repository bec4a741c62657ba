/** The patch engine of lib/common.py: `patch` (first occurrence) and
    `patch_all` (every occurrence) with their decision ladder, the
    module-level `applied` / `skipped` counters, and a run of a sequence of
    patch calls such as a fix script makes. The file system is a map from
    path to content; a path that is not a key cannot be read, and a path in
    `readOnly` cannot be written. */
module Patcher {
  import opened Text

  datatype Mode = Single | All

  /** One call `patch(label, path, old, new)` (mode `Single`) or
      `patch_all(label, path, old, new)` (mode `All`). */
  datatype PatchRecord = PatchRecord(name: string, path: string, oldText: string, newText: string, mode: Mode)

  datatype IoError = ReadFailed | WriteFailed

  /** What a call reports on the console: `Applied`, nothing (a skip),
      `WARN` (pattern not found) or `ERROR` (a caught exception). */
  datatype Outcome = Applied | Skipped | Warned | Failed(error: IoError)

  datatype Report = Report(name: string, outcome: Outcome)

  /** What the ladder decides for the content of a file that was read. */
  datatype Decision = Skip | Drift | Rewrite(text: string)

  datatype StepResult = StepResult(files: map<string, string>, report: Report)

  datatype RunResult = RunResult(files: map<string, string>, reports: seq<Report>)

  /** The ladder of `patch`: skip when the replacement is already there
      (even if the original is there too), warn when neither is there,
      otherwise replace the leftmost occurrence of the original. */
  function DecideSingle(code: string, oldText: string, newText: string): (d: Decision)
    ensures d.Skip? <==> Contains(code, newText)
    ensures d.Drift? <==> !Contains(code, newText) && !Contains(code, oldText)
    ensures d.Rewrite? ==> Contains(code, oldText) && Contains(d.text, newText)
    ensures d.Rewrite? ==>
      var i := Find(code, oldText).value;
      d.text == code[..i] + newText + code[i + |oldText|..]
  {
    if Contains(code, newText) then Skip
    else if !Contains(code, oldText) then Drift
    else
      ReplaceFirstPlacesNew(code, oldText, newText);
      Rewrite(ReplaceFirst(code, oldText, newText))
  }

  /** The ladder of `patch_all`: skip only when the replacement is there
      and the original is not, so a file with both is converted further;
      warn when neither is there; otherwise replace every occurrence. */
  function DecideAll(code: string, oldText: string, newText: string): (d: Decision)
    ensures d.Skip? <==> Contains(code, newText) && !Contains(code, oldText)
    ensures d.Drift? <==> !Contains(code, newText) && !Contains(code, oldText)
    ensures d.Rewrite? <==> Contains(code, oldText)
    ensures d.Rewrite? ==> Contains(d.text, newText) && d.text == ReplaceAll(code, oldText, newText)
  {
    if Contains(code, newText) && !Contains(code, oldText) then Skip
    else if !Contains(code, oldText) then Drift
    else
      ReplaceAllPlacesNew(code, oldText, newText);
      Rewrite(ReplaceAll(code, oldText, newText))
  }

  function Decide(mode: Mode, code: string, oldText: string, newText: string): Decision
  {
    match mode
    case Single => DecideSingle(code, oldText, newText)
    case All => DecideAll(code, oldText, newText)
  }

  /** One call of `patch` or `patch_all` on the file system `files`. Only
      the named file can change, and only when the call is applied; the
      outcome is decided by the content of the named file alone. */
  function Step(files: map<string, string>, readOnly: set<string>, rec: PatchRecord): (res: StepResult)
    ensures res.report.name == rec.name
    ensures res.files.Keys == files.Keys
    ensures forall p :: p in files && p != rec.path ==> res.files[p] == files[p]
    ensures !res.report.outcome.Applied? ==> res.files == files
    ensures res.report.outcome == Failed(ReadFailed) <==> rec.path !in files
    ensures res.report.outcome == Skipped <==>
      rec.path in files && Decide(rec.mode, files[rec.path], rec.oldText, rec.newText).Skip?
    ensures res.report.outcome == Warned <==>
      rec.path in files && Decide(rec.mode, files[rec.path], rec.oldText, rec.newText).Drift?
    ensures res.report.outcome == Failed(WriteFailed) <==>
      rec.path in files && rec.path in readOnly && Decide(rec.mode, files[rec.path], rec.oldText, rec.newText).Rewrite?
    ensures res.report.outcome == Applied <==>
      rec.path in files && rec.path !in readOnly && Decide(rec.mode, files[rec.path], rec.oldText, rec.newText).Rewrite?
    ensures res.report.outcome == Applied ==>
      res.files[rec.path] == Decide(rec.mode, files[rec.path], rec.oldText, rec.newText).text
  {
    if rec.path !in files then StepResult(files, Report(rec.name, Failed(ReadFailed)))
    else
      match Decide(rec.mode, files[rec.path], rec.oldText, rec.newText)
      case Skip => StepResult(files, Report(rec.name, Skipped))
      case Drift => StepResult(files, Report(rec.name, Warned))
      case Rewrite(text) =>
        if rec.path in readOnly then StepResult(files, Report(rec.name, Failed(WriteFailed)))
        else StepResult(files[rec.path := text], Report(rec.name, Applied))
  }

  /** A sequence of calls, each on the files the previous ones left. */
  function RunSpec(files: map<string, string>, readOnly: set<string>, patches: seq<PatchRecord>): (res: RunResult)
    ensures |res.reports| == |patches|
    ensures forall k :: 0 <= k < |patches| ==> res.reports[k].name == patches[k].name
    ensures res.files.Keys == files.Keys
    decreases |patches|
  {
    if patches == [] then RunResult(files, [])
    else
      var prev := RunSpec(files, readOnly, patches[..|patches| - 1]);
      var last := Step(prev.files, readOnly, patches[|patches| - 1]);
      RunResult(last.files, prev.reports + [last.report])
  }

  /** How much a sequence of calls adds to `applied`. */
  function CountApplied(reports: seq<Report>): (n: nat)
    ensures n <= |reports|
    ensures n == 0 <==> forall k :: 0 <= k < |reports| ==> !reports[k].outcome.Applied?
  {
    if reports == [] then 0
    else CountApplied(reports[..|reports| - 1]) + (if reports[|reports| - 1].outcome.Applied? then 1 else 0)
  }

  /** How much a sequence of calls adds to `skipped`. */
  function CountSkipped(reports: seq<Report>): (n: nat)
    ensures n <= |reports|
    ensures n == 0 <==> forall k :: 0 <= k < |reports| ==> !reports[k].outcome.Skipped?
  {
    if reports == [] then 0
    else CountSkipped(reports[..|reports| - 1]) + (if reports[|reports| - 1].outcome.Skipped? then 1 else 0)
  }

  lemma PrefixOfPrefix<T>(s: seq<T>, m: nat, n: nat)
    requires n <= m <= |s|
    ensures s[..m][..n] == s[..n]
  {
  }

  /** Running one more call of a script. */
  lemma RunSpecSnoc(files: map<string, string>, readOnly: set<string>, patches: seq<PatchRecord>, i: nat)
    requires i < |patches|
    ensures var prev := RunSpec(files, readOnly, patches[..i]);
      var last := Step(prev.files, readOnly, patches[i]);
      RunSpec(files, readOnly, patches[..i + 1]) == RunResult(last.files, prev.reports + [last.report])
  {
    PrefixOfPrefix(patches, i + 1, i);
  }

  lemma CountSnoc(reports: seq<Report>, rep: Report)
    ensures CountApplied(reports + [rep]) == CountApplied(reports) + (if rep.outcome.Applied? then 1 else 0)
    ensures CountSkipped(reports + [rep]) == CountSkipped(reports) + (if rep.outcome.Skipped? then 1 else 0)
  {
    PrefixOfPrefix(reports + [rep], |reports| + 1, |reports|);
  }

  /** The state of lib/common.py: the files it patches and its two
      counters. */
  class PatchEngine {
    var files: map<string, string>
    const readOnly: set<string>
    var applied: nat
    var skipped: nat

    constructor (files0: map<string, string>, readOnly0: set<string>)
      ensures files == files0 && readOnly == readOnly0
      ensures applied == 0 && skipped == 0
    {
      files := files0;
      readOnly := readOnly0;
      applied := 0;
      skipped := 0;
    }

    /** `patch(label, filepath, old, new)`. */
    method Patch(name: string, path: string, oldText: string, newText: string) returns (rep: Report)
      modifies this
      ensures StepResult(files, rep) == Step(old(files), readOnly, PatchRecord(name, path, oldText, newText, Single))
      ensures applied == old(applied) + (if rep.outcome.Applied? then 1 else 0)
      ensures skipped == old(skipped) + (if rep.outcome.Skipped? then 1 else 0)
    {
      if path !in files {
        return Report(name, Failed(ReadFailed));
      }
      var code := files[path];
      if Contains(code, newText) {
        skipped := skipped + 1;
        return Report(name, Skipped);
      }
      if !Contains(code, oldText) {
        return Report(name, Warned);
      }
      code := ReplaceFirst(code, oldText, newText);
      if path in readOnly {
        return Report(name, Failed(WriteFailed));
      }
      files := files[path := code];
      applied := applied + 1;
      rep := Report(name, Applied);
    }

    /** `patch_all(label, filepath, old, new)`. */
    method PatchAll(name: string, path: string, oldText: string, newText: string) returns (rep: Report)
      modifies this
      ensures StepResult(files, rep) == Step(old(files), readOnly, PatchRecord(name, path, oldText, newText, All))
      ensures applied == old(applied) + (if rep.outcome.Applied? then 1 else 0)
      ensures skipped == old(skipped) + (if rep.outcome.Skipped? then 1 else 0)
    {
      if path !in files {
        return Report(name, Failed(ReadFailed));
      }
      var code := files[path];
      if Contains(code, newText) && !Contains(code, oldText) {
        skipped := skipped + 1;
        return Report(name, Skipped);
      }
      if !Contains(code, oldText) {
        return Report(name, Warned);
      }
      code := ReplaceAll(code, oldText, newText);
      if path in readOnly {
        return Report(name, Failed(WriteFailed));
      }
      files := files[path := code];
      applied := applied + 1;
      rep := Report(name, Applied);
    }

    /** One line of a fix script: `patch(...)` or `patch_all(...)`. */
    method Call(rec: PatchRecord) returns (rep: Report)
      modifies this
      ensures StepResult(files, rep) == Step(old(files), readOnly, rec)
      ensures applied == old(applied) + (if rep.outcome.Applied? then 1 else 0)
      ensures skipped == old(skipped) + (if rep.outcome.Skipped? then 1 else 0)
    {
      if rec.mode == Single {
        rep := Patch(rec.name, rec.path, rec.oldText, rec.newText);
      } else {
        rep := PatchAll(rec.name, rec.path, rec.oldText, rec.newText);
      }
    }

    /** The calls of a fix script, one after the other: every call is made,
        whatever the earlier ones reported, and the counters add up. */
    method Run(patches: seq<PatchRecord>) returns (reports: seq<Report>)
      modifies this
      ensures RunResult(files, reports) == RunSpec(old(files), readOnly, patches)
      ensures applied == old(applied) + CountApplied(reports)
      ensures skipped == old(skipped) + CountSkipped(reports)
    {
      reports := [];
      var i := 0;
      while i < |patches|
        invariant 0 <= i <= |patches|
        invariant RunResult(files, reports) == RunSpec(old(files), readOnly, patches[..i])
        invariant applied == old(applied) + CountApplied(reports)
        invariant skipped == old(skipped) + CountSkipped(reports)
      {
        var rep := Call(patches[i]);
        RunSpecSnoc(old(files), readOnly, patches, i);
        CountSnoc(reports, rep);
        reports := reports + [rep];
        i := i + 1;
      }
      assert patches[..i] == patches;
    }
  }
}
