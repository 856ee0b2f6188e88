/** Streamed and batch commit review: src/intentumdiff/core/commit_differ.py and the
  * streaming half of src/intentumdiff/live_server.py.
  *
  * The per-file pipeline, index building and cross-file analysis are deterministic
  * functions of their inputs, gathered in a World.
  */
module CommitReview {
  import opened Common

  datatype Source = Source(oldText: string, newText: string, oldPath: string, newPath: string, staging: Option<string>)

  datatype FileDiff = FileDiff(oldName: string, newName: string, violations: seq<string>, fallback: bool,
                               parseErrors: seq<string>, staging: Option<string>, body: string)

  datatype Kind = NoParser | PipelineError

  datatype FileResult = FileResult(diff: FileDiff, source: Source)

  datatype FileError = FileError(oldPath: string, newPath: string, reason: string, kind: Kind)

  /** One pipeline run; Crashed is an exception neither loop catches. */
  datatype Run = Ran(diff: FileDiff) | Missing | Failed(why: string) | Crashed(why: string)

  datatype Loader = NoSummary | Summary(text: string)

  datatype CommitDiff = CommitDiff(violations: seq<string>, files: seq<FileDiff>, crossFile: seq<string>,
                                   parseErrors: seq<string>)

  datatype Outcome =
    | Complete(commit: CommitDiff)
    | NothingParsed(summary: string, errors: seq<FileError>)
    | Incomplete(errors: seq<FileError>, total: nat)
    | NoIndex
    | Raised(why: string)
    | Superseded

  datatype World = World(
    pipeline: Source -> Run,
    text: string -> bool,
    loader: Loader,
    indexed: seq<FileResult> -> bool,
    crossFile: seq<FileResult> -> seq<string>)

  /* ----- One source at a time. ----- */

  datatype Item = Good(result: FileResult) | Bad(error: FileError) | Stop(why: string)

  function EffectivePath(s: Source): string {
    if s.newPath != "" then s.newPath else s.oldPath
  }

  function ItemOf(w: World, s: Source): Item {
    match w.pipeline(s)
    case Ran(d) => Good(FileResult(if s.staging.Some? then d.(staging := s.staging) else d, s))
    case Missing => Bad(FileError(s.oldPath, EffectivePath(s), "no parser available", NoParser))
    case Failed(why) => Bad(FileError(s.oldPath, EffectivePath(s), why, PipelineError))
    case Crashed(why) => Stop(why)
  }

  predicate IsText(w: World, s: Source) {
    w.text(s.newText) && w.text(s.oldText)
  }

  /** What the streaming iterator does not skip. */
  function TextOnly(w: World, sources: seq<Source>): seq<Source> {
    if sources == [] then []
    else
      var s := sources[|sources| - 1];
      var before := TextOnly(w, sources[..|sources| - 1]);
      if IsText(w, s) then before + [s] else before
  }

  function Results(w: World, sources: seq<Source>): seq<FileResult> {
    if sources == [] then []
    else
      var item := ItemOf(w, sources[|sources| - 1]);
      var before := Results(w, sources[..|sources| - 1]);
      if item.Good? then before + [item.result] else before
  }

  function Errors(w: World, sources: seq<Source>): seq<FileError> {
    if sources == [] then []
    else
      var item := ItemOf(w, sources[|sources| - 1]);
      var before := Errors(w, sources[..|sources| - 1]);
      if item.Bad? then before + [item.error] else before
  }

  /** The first uncaught exception, if any. */
  function Crash(w: World, sources: seq<Source>): Option<string> {
    if sources == [] then None
    else
      var before := Crash(w, sources[..|sources| - 1]);
      if before.Some? then before
      else match ItemOf(w, sources[|sources| - 1])
        case Stop(why) => Some(why)
        case Good(_) => None
        case Bad(_) => None
  }

  /* ----- Finishing. ----- */

  function FilesOf(results: seq<FileResult>): (files: seq<FileDiff>)
    ensures |files| == |results| && forall k :: 0 <= k < |results| ==> files[k] == results[k].diff
  {
    seq(|results|, k requires 0 <= k < |results| => results[k].diff)
  }

  function Violations(files: seq<FileDiff>): seq<string> {
    if files == [] then [] else Violations(files[..|files| - 1]) + files[|files| - 1].violations
  }

  function PipelineErrors(errors: seq<FileError>): seq<string> {
    if errors == [] then []
    else
      var e := errors[|errors| - 1];
      var before := PipelineErrors(errors[..|errors| - 1]);
      if e.kind == PipelineError then before + [e.oldPath + ": " + e.reason] else before
  }

  /** _raise_if_all_parsers_failed and _finalize_commit_diff */
  function Finalize(w: World, results: seq<FileResult>, errors: seq<FileError>, total: nat): (r: Outcome)
    ensures !r.Superseded? && !r.Raised?
  {
    if total > 0 && results == [] && PipelineErrors(errors) == [] && w.loader.Summary? then
      NothingParsed(w.loader.text, if w.loader.text == "" then errors else [])
    else if errors != [] then Incomplete(errors, total)
    else if results != [] && !w.indexed(results) then NoIndex
    else Complete(CommitDiff(Violations(FilesOf(results)), FilesOf(results),
                             if results == [] then [] else w.crossFile(results), []))
  }

  method CollectFileDiffs(w: World, sources: seq<Source>)
    returns (results: seq<FileResult>, errors: seq<FileError>, count: nat, crash: Option<string>)
    ensures crash == Crash(w, sources)
    ensures crash.None? ==> results == Results(w, sources) && errors == Errors(w, sources) && count == |sources|
  {
    results, errors, count := [], [], 0;
    var i := 0;
    while i < |sources|
      invariant 0 <= i <= |sources| && count == i
      invariant Crash(w, sources[..i]).None?
      invariant results == Results(w, sources[..i]) && errors == Errors(w, sources[..i])
    {
      assert sources[..i + 1][..i] == sources[..i];
      count := count + 1;
      match ItemOf(w, sources[i]) {
        case Good(r) => results := results + [r];
        case Bad(e) => errors := errors + [e];
        case Stop(why) =>
          CrashStays(w, sources, i + 1);
          return results, errors, count, Some(why);
      }
      i := i + 1;
    }
    assert sources[..i] == sources;
    crash := None;
  }

  lemma {:induction false} CrashStays(w: World, sources: seq<Source>, i: nat)
    requires i <= |sources| && Crash(w, sources[..i]).Some?
    ensures Crash(w, sources) == Crash(w, sources[..i])
  {
    if i == |sources| {
      assert sources[..i] == sources;
    } else {
      assert sources[..|sources| - 1][..i] == sources[..i];
      CrashStays(w, sources[..|sources| - 1], i);
    }
  }

  function Batch(w: World, sources: seq<Source>): Outcome {
    if Crash(w, sources).Some? then Raised(Crash(w, sources).value)
    else Finalize(w, Results(w, sources), Errors(w, sources), |sources|)
  }

  method DiffCommit(w: World, sources: seq<Source>) returns (outcome: Outcome)
    ensures outcome == Batch(w, sources)
  {
    var results, errors, count, crash := CollectFileDiffs(w, sources);
    if crash.Some? {
      return Raised(crash.value);
    }
    return Finalize(w, results, errors, count);
  }

  /* ----- The streamed review. ----- */

  datatype Event = ReviewFile(index: nat, diff: FileDiff)

  predicate Ended(superseded: seq<bool>, k: int) {
    0 <= k < |superseded| && superseded[k]
  }

  /** The events sent for a list of items, none of which stops the stream. */
  function Events(w: World, items: seq<Source>): seq<Event> {
    if items == [] then []
    else
      var item := ItemOf(w, items[|items| - 1]);
      var before := Events(w, items[..|items| - 1]);
      if item.Good? then before + [ReviewFile(|items|, item.result.diff)] else before
  }

  /** The loop gets past item k: its pipeline run is caught and the review is still current. */
  predicate Goes(w: World, items: seq<Source>, superseded: seq<bool>, k: nat)
    requires k < |items|
  {
    !ItemOf(w, items[k]).Stop? && !Ended(superseded, k)
  }

  /** The first item from k on that the loop does not get past. */
  function Reached(w: World, items: seq<Source>, superseded: seq<bool>, k: nat): (n: nat)
    requires k <= |items|
    ensures k <= n <= |items|
    decreases |items| - k
  {
    if k == |items| || !Goes(w, items, superseded, k) then k else Reached(w, items, superseded, k + 1)
  }

  lemma {:induction false} ReachedHere(w: World, items: seq<Source>, superseded: seq<bool>, k: nat, n: nat)
    requires k <= n <= |items|
    requires forall j :: k <= j < n ==> Goes(w, items, superseded, j)
    requires n < |items| ==> !Goes(w, items, superseded, n)
    ensures Reached(w, items, superseded, k) == n
    decreases n - k
  {
    if k < n {
      ReachedHere(w, items, superseded, k + 1, n);
    }
  }

  /** How a stream that stops at item n ends. */
  function EndAt(w: World, items: seq<Source>, n: nat): Outcome
    requires n <= |items|
  {
    if n == |items| then Batch(w, items)
    else match ItemOf(w, items[n])
      case Stop(why) => Raised(why)
      case Good(_) => Superseded
      case Bad(_) => Superseded
  }

  /** _run_streaming_review over iter_file_diffs: item k is dropped, and the review
    * abandoned, when superseded[k] holds at its check.
    */
  method Stream(w: World, sources: seq<Source>, superseded: seq<bool>) returns (events: seq<Event>, outcome: Outcome)
    ensures var all := TextOnly(w, sources);
            var n := Reached(w, all, superseded, 0);
            events == Events(w, all[..n]) && outcome == EndAt(w, all, n)
    ensures (forall k :: 0 <= k < |TextOnly(w, sources)| ==> !Ended(superseded, k))
            && Crash(w, TextOnly(w, sources)).None? ==>
              events == Events(w, TextOnly(w, sources))
    ensures (forall k :: 0 <= k < |TextOnly(w, sources)| ==> !Ended(superseded, k)) ==>
              outcome == Batch(w, TextOnly(w, sources))
    ensures outcome.Superseded? ==> exists k :: 0 <= k < |TextOnly(w, sources)| && Ended(superseded, k)
    ensures outcome.Complete? ==>
              && outcome == Batch(w, TextOnly(w, sources))
              && events == Events(w, TextOnly(w, sources))
  {
    hide TextOnly, Results, Errors, Events, Crash, ItemOf, IsText, Finalize, Reached;
    var results: seq<FileResult>, errors: seq<FileError> := [], [];
    events := [];
    var index := 0;
    var i := 0;
    ghost var seen: seq<Source> := [];
    ghost var all := TextOnly(w, sources);
    NothingYet(w, sources);
    while i < |sources|
      invariant 0 <= i <= |sources|
      invariant seen == TextOnly(w, sources[..i]) && seen <= all && index == |seen|
      invariant forall k :: 0 <= k < index ==> Goes(w, all, superseded, k)
      invariant Crash(w, seen).None?
      invariant results == Results(w, seen) && errors == Errors(w, seen) && events == Events(w, seen)
    {
      var s := sources[i];
      OneMore(w, sources, i);
      i := i + 1;
      if !IsText(w, s) {
        continue;
      }
      OneMoreItem(w, seen, s, all);
      assert all[..index] == seen && events == Events(w, all[..index]);
      seen := seen + [s];
      match ItemOf(w, s) {
        case Stop(why) =>
          ReachedHere(w, all, superseded, 0, index);
          return events, Raised(why);
        case Good(r) =>
          if index < |superseded| && superseded[index] {
            assert Ended(superseded, index) && index < |all|;
            ReachedHere(w, all, superseded, 0, index);
            return events, Superseded;
          }
          index := index + 1;
          results := results + [r];
          events := events + [ReviewFile(index, r.diff)];
        case Bad(e) =>
          if index < |superseded| && superseded[index] {
            assert Ended(superseded, index) && index < |all|;
            ReachedHere(w, all, superseded, 0, index);
            return events, Superseded;
          }
          index := index + 1;
          errors := errors + [e];
      }
    }
    assert sources[..i] == sources;
    CountsAdd(w, all);
    ReachedHere(w, all, superseded, 0, index);
    assert all[..index] == all;
    outcome := Finalize(w, results, errors, |results| + |errors|);
  }

  lemma NothingYet(w: World, sources: seq<Source>)
    ensures TextOnly(w, sources[..0]) == []
    ensures Crash(w, []).None? && Results(w, []) == [] && Errors(w, []) == [] && Events(w, []) == []
  {
  }

  lemma OneMore(w: World, sources: seq<Source>, i: nat)
    requires i < |sources|
    ensures TextOnly(w, sources[..i + 1]) ==
            if IsText(w, sources[i]) then TextOnly(w, sources[..i]) + [sources[i]] else TextOnly(w, sources[..i])
    ensures TextOnly(w, sources[..i + 1]) <= TextOnly(w, sources)
  {
    assert sources[..i + 1][..i] == sources[..i];
    PrefixOfText(w, sources, i + 1);
  }

  lemma OneMoreItem(w: World, seen: seq<Source>, s: Source, all: seq<Source>)
    requires Crash(w, seen).None? && seen + [s] <= all
    ensures var item := ItemOf(w, s);
            && Results(w, seen + [s]) == (if item.Good? then Results(w, seen) + [item.result] else Results(w, seen))
            && Errors(w, seen + [s]) == (if item.Bad? then Errors(w, seen) + [item.error] else Errors(w, seen))
            && Events(w, seen + [s]) ==
               (if item.Good? then Events(w, seen) + [ReviewFile(|seen| + 1, item.result.diff)] else Events(w, seen))
            && Crash(w, seen + [s]) == (if item.Stop? then Some(item.why) else None)
            && (item.Stop? ==> Crash(w, all) == Some(item.why))
  {
    var now := seen + [s];
    assert now[..|seen|] == seen;
    if ItemOf(w, s).Stop? {
      assert all[..|now|] == now;
      CrashStays(w, all, |now|);
    }
  }

  lemma {:induction false} PrefixOfText(w: World, sources: seq<Source>, i: nat)
    requires i <= |sources|
    ensures TextOnly(w, sources[..i]) <= TextOnly(w, sources)
  {
    if i == |sources| {
      assert sources[..i] == sources;
    } else {
      var before := sources[..|sources| - 1];
      assert before[..i] == sources[..i];
      PrefixOfText(w, before, i);
      assert TextOnly(w, before) <= TextOnly(w, sources);
    }
  }

  /** Without a crash every item is a result or an error. */
  lemma {:induction false} CountsAdd(w: World, items: seq<Source>)
    requires Crash(w, items).None?
    ensures |Results(w, items)| + |Errors(w, items)| == |items|
  {
    if items != [] {
      CountsAdd(w, items[..|items| - 1]);
    }
  }

  /* ----- What the two routes promise. ----- */

  lemma {:induction false} TextKept(w: World, sources: seq<Source>)
    ensures |TextOnly(w, sources)| <= |sources|
    ensures |TextOnly(w, sources)| == |sources| <==> forall k :: 0 <= k < |sources| ==> IsText(w, sources[k])
    ensures |TextOnly(w, sources)| == |sources| ==> TextOnly(w, sources) == sources
  {
    if sources != [] {
      var before := sources[..|sources| - 1];
      TextKept(w, before);
      assert sources == before + [sources[|sources| - 1]];
      assert forall k :: 0 <= k < |before| ==> before[k] == sources[k];
    }
  }

  /** When every source is text the two routes end alike, failures included. */
  lemma StreamedIsBatch(w: World, sources: seq<Source>)
    requires forall k :: 0 <= k < |sources| ==> IsText(w, sources[k])
    ensures Batch(w, TextOnly(w, sources)) == Batch(w, sources)
  {
    TextKept(w, sources);
  }

  /** A complete batch review is reproduced by the stream exactly when every source is text. */
  lemma StreamedIsBatchExactly(w: World, sources: seq<Source>)
    requires Batch(w, sources).Complete?
    ensures Batch(w, TextOnly(w, sources)) == Batch(w, sources) <==>
            forall k :: 0 <= k < |sources| ==> IsText(w, sources[k])
  {
    TextKept(w, sources);
    CompleteMeansAll(w, sources);
    if Batch(w, TextOnly(w, sources)).Complete? {
      CompleteMeansAll(w, TextOnly(w, sources));
    }
  }

  predicate AllMissing(w: World, sources: seq<Source>) {
    forall k :: 0 <= k < |sources| ==> w.pipeline(sources[k]).Missing?
  }

  predicate AllSucceed(w: World, sources: seq<Source>) {
    forall k :: 0 <= k < |sources| ==> w.pipeline(sources[k]).Ran?
  }

  lemma PrefixCases(w: World, before: seq<Source>, s: Source)
    ensures AllMissing(w, before + [s]) <==> AllMissing(w, before) && w.pipeline(s).Missing?
    ensures AllSucceed(w, before + [s]) <==> AllSucceed(w, before) && w.pipeline(s).Ran?
  {
    var all := before + [s];
    assert all[|before|] == s && forall k :: 0 <= k < |before| ==> all[k] == before[k];
  }

  /** What holds of every source holds of those that are text. */
  lemma {:induction false} TextInherits(w: World, sources: seq<Source>)
    ensures AllMissing(w, sources) ==> AllMissing(w, TextOnly(w, sources))
    ensures AllSucceed(w, sources) ==> AllSucceed(w, TextOnly(w, sources))
  {
    if sources != [] {
      var before, s := sources[..|sources| - 1], sources[|sources| - 1];
      assert sources == before + [s];
      hide AllMissing, AllSucceed;
      TextInherits(w, before);
      PrefixCases(w, before, s);
      PrefixCases(w, TextOnly(w, before), s);
    } else {
      assert TextOnly(w, sources) == [];
    }
  }

  /** Nothing ran and nothing failed in the pipeline: no file has a parser. */
  lemma {:induction false} MissingExactly(w: World, sources: seq<Source>)
    ensures Crash(w, sources).None? && Results(w, sources) == [] && PipelineErrors(Errors(w, sources)) == []
            <==> AllMissing(w, sources)
    ensures AllMissing(w, sources) ==> |Errors(w, sources)| == |sources|
  {
    if sources != [] {
      var before, s := sources[..|sources| - 1], sources[|sources| - 1];
      assert sources == before + [s];
      MissingExactly(w, before);
      PrefixCases(w, before, s);
      var item := ItemOf(w, s);
      if item.Bad? {
        assert Errors(w, sources)[..|Errors(w, before)|] == Errors(w, before);
      }
      hide AllMissing;
    } else {
      assert PipelineErrors([]) == [];
    }
  }

  lemma {:induction false} SucceedExactly(w: World, sources: seq<Source>)
    ensures Crash(w, sources).None? && Errors(w, sources) == [] <==> AllSucceed(w, sources)
    ensures AllSucceed(w, sources) ==> |Results(w, sources)| == |sources|
  {
    if sources != [] {
      var before, s := sources[..|sources| - 1], sources[|sources| - 1];
      assert sources == before + [s];
      SucceedExactly(w, before);
      PrefixCases(w, before, s);
      hide AllSucceed;
    }
  }

  /** The failures that look the same although the stream skipped a source. */
  predicate SameFailure(w: World, sources: seq<Source>) {
    var text := TextOnly(w, sources);
    || (Crash(w, sources).Some? && Crash(w, sources) == Crash(w, text))
    || (text != [] && AllMissing(w, sources) && w.loader.Summary? && w.loader.text != "")
    || (text != [] && AllSucceed(w, sources) && !w.indexed(Results(w, sources)) && !w.indexed(Results(w, text)))
  }

  /** The two routes end alike, whatever the end, exactly when every source is text, or the
    * same uncaught exception comes first, or no file has a parser and the registry explains
    * it, or every file succeeds and both indexes are missing.
    */
  lemma StreamedIsBatchAlways(w: World, sources: seq<Source>)
    ensures Batch(w, TextOnly(w, sources)) == Batch(w, sources) <==>
            (forall k :: 0 <= k < |sources| ==> IsText(w, sources[k])) || SameFailure(w, sources)
  {
    var text := TextOnly(w, sources);
    TextKept(w, sources);
    TextInherits(w, sources);
    MissingExactly(w, sources);
    MissingExactly(w, text);
    SucceedExactly(w, sources);
    SucceedExactly(w, text);
    hide TextOnly, Crash, Results, Errors, PipelineErrors, AllMissing, AllSucceed, IsText;
  }

  lemma {:induction false} NoErrorsAllRan(w: World, sources: seq<Source>)
    requires Crash(w, sources).None? && Errors(w, sources) == []
    ensures |Results(w, sources)| == |sources|
    ensures forall k :: 0 <= k < |sources| ==> ItemOf(w, sources[k]) == Good(Results(w, sources)[k])
  {
    if sources != [] {
      var before := sources[..|sources| - 1];
      NoErrorsAllRan(w, before);
      assert forall k :: 0 <= k < |before| ==> before[k] == sources[k];
    }
  }

  /** A commit diff is returned only when every file's pipeline ran: one entry per
    * changed file, in order, and no parse error.
    */
  lemma CompleteMeansAll(w: World, sources: seq<Source>)
    requires Batch(w, sources).Complete?
    ensures var c := Batch(w, sources).commit;
            && |c.files| == |sources|
            && (forall k :: 0 <= k < |sources| ==> ItemOf(w, sources[k]) == Good(FileResult(c.files[k], sources[k])))
            && (forall k :: 0 <= k < |sources| ==> RanAs(w, sources[k], c.files[k]))
            && c.violations == Violations(c.files)
            && c.parseErrors == []
  {
    NoErrorsAllRan(w, sources);
    forall k | 0 <= k < |sources| ensures RanAs(w, sources[k], Batch(w, sources).commit.files[k]) {
      assert w.pipeline(sources[k]).Ran?;
    }
  }

  /** Conversely nothing but a failed file or a missing index withholds it. */
  lemma AllMeansComplete(w: World, sources: seq<Source>)
    requires forall k :: 0 <= k < |sources| ==> w.pipeline(sources[k]).Ran?
    ensures Batch(w, sources).Complete? <==> sources == [] || w.indexed(Results(w, sources))
  {
    AllRan(w, sources);
  }

  /** A commit diff is returned exactly when every file's pipeline ran and the indexes exist. */
  lemma CompleteExactly(w: World, sources: seq<Source>)
    ensures Batch(w, sources).Complete? <==>
            && (forall k :: 0 <= k < |sources| ==> w.pipeline(sources[k]).Ran?)
            && (sources == [] || w.indexed(Results(w, sources)))
  {
    if Batch(w, sources).Complete? {
      CompleteMeansAll(w, sources);
      forall k | 0 <= k < |sources| ensures w.pipeline(sources[k]).Ran? {
        assert ItemOf(w, sources[k]).Good?;
      }
    }
    if forall k :: 0 <= k < |sources| ==> w.pipeline(sources[k]).Ran? {
      AllMeansComplete(w, sources);
    }
  }

  lemma {:induction false} AllRan(w: World, sources: seq<Source>)
    requires forall k :: 0 <= k < |sources| ==> w.pipeline(sources[k]).Ran?
    ensures Crash(w, sources).None? && Errors(w, sources) == [] && |Results(w, sources)| == |sources|
  {
    if sources != [] {
      var before := sources[..|sources| - 1];
      assert forall k :: 0 <= k < |before| ==> before[k] == sources[k];
      AllRan(w, before);
    }
  }

  /** The violations are laid out file after file. */
  lemma {:induction false} ViolationsConcatenate(a: seq<FileDiff>, b: seq<FileDiff>)
    ensures Violations(a + b) == Violations(a) + Violations(b)
    ensures |b| == 1 ==> Violations(b) == b[0].violations
  {
    if b == [] {
      assert a + b == a;
    } else {
      assert (a + b)[..|a + b| - 1] == a + b[..|b| - 1];
      ViolationsConcatenate(a, b[..|b| - 1]);
    }
  }

  /** On a complete stream the events carry 1..n and exactly the terminal file diffs. */
  lemma EventsMatchTerminal(w: World, sources: seq<Source>)
    requires Batch(w, sources).Complete?
    ensures var c := Batch(w, sources).commit;
            && |Events(w, sources)| == |c.files|
            && forall k :: 0 <= k < |c.files| ==> Events(w, sources)[k] == ReviewFile(k + 1, c.files[k])
  {
    CompleteMeansAll(w, sources);
    EventsOfGood(w, sources, Batch(w, sources).commit.files);
  }

  lemma {:induction false} EventsOfGood(w: World, sources: seq<Source>, files: seq<FileDiff>)
    requires |files| == |sources|
    requires forall k :: 0 <= k < |sources| ==> ItemOf(w, sources[k]) == Good(FileResult(files[k], sources[k]))
    ensures |Events(w, sources)| == |files|
    ensures forall k :: 0 <= k < |files| ==> Events(w, sources)[k] == ReviewFile(k + 1, files[k])
  {
    if sources != [] {
      var before := sources[..|sources| - 1];
      assert forall k :: 0 <= k < |before| ==> before[k] == sources[k];
      EventsOfGood(w, before, files[..|before|]);
    }
  }

  /* ----- The lists of the review, item by item. ----- */

  ghost predicate Positions(at: seq<nat>, n: nat) {
    && (forall i, j :: 0 <= i < j < |at| ==> at[i] < at[j])
    && (forall i :: 0 <= i < |at| ==> at[i] < n)
  }

  /** A file that ran, with the staging mark of its source, if it has one. */
  ghost predicate RanAs(w: World, s: Source, d: FileDiff) {
    exists own: FileDiff :: w.pipeline(s) == Ran(own)
                            && d == match s.staging case None => own case Some(mark) => own.(staging := Some(mark))
  }

  /** The results are those of the files that ran, in order; each is announced by its place among all files. */
  lemma {:induction false} ResultsInOrder(w: World, items: seq<Source>) returns (at: seq<nat>)
    ensures Positions(at, |items|) && |at| == |Results(w, items)| == |Events(w, items)|
    ensures forall k :: 0 <= k < |items| ==> (k in at <==> w.pipeline(items[k]).Ran?)
    ensures forall i :: 0 <= i < |at| ==>
              && RanAs(w, items[at[i]], Results(w, items)[i].diff)
              && Results(w, items)[i].source == items[at[i]]
              && Events(w, items)[i] == ReviewFile(at[i] + 1, Results(w, items)[i].diff)
  {
    if items == [] {
      at := [];
    } else {
      var before, s := items[..|items| - 1], items[|items| - 1];
      at := ResultsInOrder(w, before);
      if w.pipeline(s).Ran? {
        assert RanAs(w, s, ItemOf(w, s).result.diff);
        at := at + [|before|];
      }
    }
  }

  /** The errors are those of the files without a parser or with a failed run, in order. */
  lemma {:induction false} ErrorsInOrder(w: World, items: seq<Source>) returns (at: seq<nat>)
    ensures Positions(at, |items|) && |at| == |Errors(w, items)|
    ensures forall k :: 0 <= k < |items| ==>
              (k in at <==> w.pipeline(items[k]).Missing? || w.pipeline(items[k]).Failed?)
    ensures forall i :: 0 <= i < |at| ==>
              var s, e := items[at[i]], Errors(w, items)[i];
              && e.oldPath == s.oldPath && e.newPath == (if s.newPath == "" then s.oldPath else s.newPath)
              && (w.pipeline(s).Missing? ==> e.reason == "no parser available" && e.kind == NoParser)
              && (w.pipeline(s).Failed? ==> e.reason == w.pipeline(s).why && e.kind == PipelineError)
  {
    if items == [] {
      at := [];
    } else {
      var before, s := items[..|items| - 1], items[|items| - 1];
      at := ErrorsInOrder(w, before);
      if w.pipeline(s).Missing? || w.pipeline(s).Failed? {
        at := at + [|before|];
      }
    }
  }

  /** The uncaught exception is that of the first file that raises one. */
  lemma {:induction false} CrashExactly(w: World, items: seq<Source>)
    ensures Crash(w, items) == None <==> forall k :: 0 <= k < |items| ==> !w.pipeline(items[k]).Crashed?
    ensures forall k :: 0 <= k < |items| && w.pipeline(items[k]).Crashed?
                        && (forall j :: 0 <= j < k ==> !w.pipeline(items[j]).Crashed?) ==>
              Crash(w, items) == Some(w.pipeline(items[k]).why)
  {
    if items != [] {
      var before := items[..|items| - 1];
      CrashExactly(w, before);
      assert forall k :: 0 <= k < |before| ==> before[k] == items[k];
    }
  }

  /** How a batch review ends, whatever the files do. */
  lemma BatchEndsExactly(w: World, sources: seq<Source>)
    ensures Batch(w, sources).Raised? <==> exists k :: 0 <= k < |sources| && w.pipeline(sources[k]).Crashed?
    ensures Batch(w, sources).NothingParsed? <==>
            && sources != [] && w.loader != NoSummary
            && forall k :: 0 <= k < |sources| ==> w.pipeline(sources[k]) == Missing
    ensures Batch(w, sources).NothingParsed? ==>
              && w.loader == Summary(Batch(w, sources).summary)
              && Batch(w, sources).errors == if w.loader == Summary("") then Errors(w, sources) else []
    ensures Batch(w, sources).Incomplete? <==>
            && (forall k :: 0 <= k < |sources| ==> !w.pipeline(sources[k]).Crashed?)
            && (exists k :: 0 <= k < |sources| && !w.pipeline(sources[k]).Ran?)
            && ((exists k :: 0 <= k < |sources| && w.pipeline(sources[k]) != Missing) || w.loader == NoSummary)
    ensures Batch(w, sources).Incomplete? ==> Batch(w, sources) == Incomplete(Errors(w, sources), |sources|)
    ensures Batch(w, sources) == NoIndex <==>
            && (forall k :: 0 <= k < |sources| ==> w.pipeline(sources[k]).Ran?)
            && sources != [] && !w.indexed(Results(w, sources))
    ensures Batch(w, sources).Complete? ==>
              Batch(w, sources).commit.crossFile == if sources == [] then [] else w.crossFile(Results(w, sources))
    ensures !Batch(w, sources).Superseded?
  {
    CrashExactly(w, sources);
    MissingExactly(w, sources);
    SucceedExactly(w, sources);
    hide ItemOf, Results, Errors, PipelineErrors;
  }

  /** Where a stream ends: at the first file that raises, or that is found superseded at its check. */
  lemma StreamEndsExactly(w: World, items: seq<Source>, superseded: seq<bool>, n: nat)
    requires n <= |items|
    ensures Reached(w, items, superseded, 0) == n <==>
            && (forall k :: 0 <= k < n ==> !w.pipeline(items[k]).Crashed? && !(k < |superseded| && superseded[k]))
            && (n < |items| ==> w.pipeline(items[n]).Crashed? || (n < |superseded| && superseded[n]))
    ensures n < |items| ==>
              EndAt(w, items, n) ==
              if w.pipeline(items[n]).Crashed? then Raised(w.pipeline(items[n]).why) else Superseded
    ensures EndAt(w, items, |items|) == Batch(w, items)
  {
    ReachedMeans(w, items, superseded, 0);
    forall k | 0 <= k < |items|
      ensures Goes(w, items, superseded, k) <==>
              !w.pipeline(items[k]).Crashed? && !(k < |superseded| && superseded[k])
    {
    }
    hide Batch, Goes;
    if && (forall k :: 0 <= k < n ==> Goes(w, items, superseded, k))
       && (n < |items| ==> !Goes(w, items, superseded, n)) {
      ReachedHere(w, items, superseded, 0, n);
    }
  }

  lemma {:induction false} ReachedMeans(w: World, items: seq<Source>, superseded: seq<bool>, k: nat)
    requires k <= |items|
    ensures var n := Reached(w, items, superseded, k);
            && (forall j :: k <= j < n ==> Goes(w, items, superseded, j))
            && (n < |items| ==> !Goes(w, items, superseded, n))
    decreases |items| - k
  {
    if k < |items| && Goes(w, items, superseded, k) {
      ReachedMeans(w, items, superseded, k + 1);
    }
  }

  /** The stream's items are the sources both of whose texts are text, in order. */
  lemma {:induction false} TextInOrder(w: World, sources: seq<Source>) returns (at: seq<nat>)
    ensures Positions(at, |sources|) && |at| == |TextOnly(w, sources)|
    ensures forall k :: 0 <= k < |sources| ==> (k in at <==> w.text(sources[k].oldText) && w.text(sources[k].newText))
    ensures forall i :: 0 <= i < |at| ==> TextOnly(w, sources)[i] == sources[at[i]]
  {
    if sources == [] {
      at := [];
    } else {
      var before, s := sources[..|sources| - 1], sources[|sources| - 1];
      at := TextInOrder(w, before);
      if IsText(w, s) {
        at := at + [|before|];
      }
    }
  }

  /* ----- The response. ----- */

  datatype Response = Published(commit: CommitDiff) | Declined | Failure | Silent

  predicate Certain(c: CommitDiff) {
    c.parseErrors == [] && forall k :: 0 <= k < |c.files| ==> !c.files[k].fallback && c.files[k].parseErrors == []
  }

  /** The tail of _process_review_request; `stale` is the last check before sending. */
  method Respond(outcome: Outcome, stale: bool) returns (r: Response)
    ensures r.Published? <==> outcome.Complete? && Certain(outcome.commit) && !stale
    ensures r.Published? ==>
              && r.commit == outcome.commit && r.commit.parseErrors == []
              && forall file :: file in r.commit.files ==> file.fallback == false && file.parseErrors == []
    ensures r.Declined? <==> outcome.Complete? && !Certain(outcome.commit)
    ensures r.Declined? ==>
              || outcome.commit.parseErrors != []
              || exists file :: file in outcome.commit.files && (file.fallback || file.parseErrors != [])
    ensures r.Failure? <==> !outcome.Complete? && !outcome.Superseded?
    ensures r.Silent? <==> outcome.Superseded? || (outcome.Complete? && Certain(outcome.commit) && stale)
  {
    match outcome {
      case Superseded => return Silent;
      case NothingParsed(_, _) => return Failure;
      case Incomplete(_, _) => return Failure;
      case NoIndex => return Failure;
      case Raised(_) => return Failure;
      case Complete(c) =>
        var bad := c.parseErrors != [];
        var i := 0;
        while i < |c.files|
          invariant 0 <= i <= |c.files|
          invariant bad <==> c.parseErrors != []
                             || exists k :: 0 <= k < i && (c.files[k].fallback || c.files[k].parseErrors != [])
        {
          bad := bad || c.files[i].fallback || c.files[i].parseErrors != [];
          i := i + 1;
        }
        if bad {
          return Declined;
        }
        if stale {
          return Silent;
        }
        return Published(c);
    }
  }

  /** A streamed review: what is published repeats, in order, what was streamed. */
  method StreamedReview(w: World, sources: seq<Source>, superseded: seq<bool>, stale: bool)
    returns (events: seq<Event>, r: Response)
    ensures r.Published? ==>
              && |events| == |r.commit.files| == |TextOnly(w, sources)|
              && (forall k :: 0 <= k < |events| ==> events[k] == ReviewFile(k + 1, r.commit.files[k]))
              && Certain(r.commit) && !stale
              && r.commit.violations == Violations(r.commit.files)
    ensures r.Published? && (forall k :: 0 <= k < |sources| ==> IsText(w, sources[k])) ==>
              Batch(w, sources) == Complete(r.commit)
  {
    var outcome;
    events, outcome := Stream(w, sources, superseded);
    r := Respond(outcome, stale);
    if r.Published? {
      EventsMatchTerminal(w, TextOnly(w, sources));
      CompleteMeansAll(w, TextOnly(w, sources));
      TextKept(w, sources);
    }
  }
}
