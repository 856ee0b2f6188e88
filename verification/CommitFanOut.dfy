/** The commit fan-out: SemanticDiffer.diff_commit in src/intentumdiff/differ.py.
  *
  * The per-file pipeline, the lifecycle rules and the guardrail screen are
  * deterministic functions of their inputs, gathered in a World.
  */
module CommitFanOut {
  import B = BatchAdmission
  import opened Common

  datatype Source = Source(oldText: string, newText: string, oldPath: string, newPath: Option<string>,
                           staging: Option<string>)

  datatype Request = Request(oldText: string, newText: string, oldPath: string, newPath: string, lifecycle: string)

  /** How one run of the per-file pipeline ends. */
  datatype Run<D> =
    | Ran(diff: D)
    | Gated(why: string)
    | Warned(why: string)
    | Crashed(why: string)

  datatype Failure =
    | MalformedBatch(why: string)
    | UnfinishedBatch(source: nat)
    | GateClosed(why: string)
    | FileFailed(path: string, why: string)
    | Uncaught(why: string)

  datatype Review<D> = Reviewed(results: seq<D>) | Failed(failure: Failure)

  datatype World<!P, !D> = World(
    lower: string -> string,
    guarded: (string, string) -> bool,
    lifecycle: (string, string, Option<string>) -> string,
    finish: (B.Certified<P>, string) -> Option<D>,
    stage: (D, string) -> D,
    pipeline: Source -> Run<D>)

  function EffectivePath(s: Source): string {
    if s.newPath.Some? then s.newPath.value else s.oldPath
  }

  predicate PythonPath(path: string) {
    EndsWith(path, ".py") || EndsWith(path, ".pyi")
  }

  predicate Eligible<P, D>(w: World<P, D>, s: Source) {
    && (PythonPath(w.lower(s.oldPath)) || PythonPath(w.lower(EffectivePath(s))))
    && !w.guarded(s.oldPath, EffectivePath(s))
  }

  function RequestFor<P, D>(w: World<P, D>, s: Source): Request {
    Request(s.oldText, s.newText, s.oldPath, EffectivePath(s), w.lifecycle(s.oldText, s.newText, s.staging))
  }

  lemma PythonPathExactly(path: string)
    ensures PythonPath(path) <==> exists stem: string :: path == stem + ".py" || path == stem + ".pyi"
  {
    EndsWithExactly(path, ".py");
    EndsWithExactly(path, ".pyi");
  }

  /** A batch request is made for a source with a Python name, old or new, in lower case,
    * that no guardrail may apply to; a source without a new name keeps its old one.
    */
  lemma EligibleExactly<P, D>(w: World<P, D>, s: Source, newPath: string)
    requires s.newPath == Some(newPath) || (s.newPath == None && newPath == s.oldPath)
    ensures Eligible(w, s) <==>
            && (PythonPath(w.lower(s.oldPath)) || PythonPath(w.lower(newPath)))
            && !w.guarded(s.oldPath, newPath)
  {
  }

  /** What the request for a source says. */
  lemma RequestSays<P, D>(w: World<P, D>, s: Source)
    ensures RequestFor(w, s).oldText == s.oldText && RequestFor(w, s).newText == s.newText
    ensures RequestFor(w, s).oldPath == s.oldPath
    ensures RequestFor(w, s).newPath == match s.newPath case Some(path) => path case None => s.oldPath
    ensures RequestFor(w, s).lifecycle == w.lifecycle(s.oldText, s.newText, s.staging)
  {
  }

  /* ----- Requests and the way back. ----- */

  predicate Increasing(a: seq<nat>) {
    forall i, j :: 0 <= i < j < |a| ==> a[i] < a[j]
  }

  predicate Lists(a: seq<int>, x: int) {
    exists k :: 0 <= k < |a| && a[k] == x
  }

  /** The eligible sources among the first n. */
  function Chosen<P, D>(w: World<P, D>, sources: seq<Source>, n: nat): (back: seq<nat>)
    requires n <= |sources|
    ensures forall i :: 0 <= i < |back| ==> back[i] < n
  {
    if n == 0 then [] else
      var before := Chosen(w, sources, n - 1);
      if Eligible(w, sources[n - 1]) then before + [n - 1] else before
  }

  lemma ListsSnoc(a: seq<nat>, x: nat, y: int)
    ensures Lists(a + [x], y) <==> Lists(a, y) || y == x
  {
    var all := a + [x];
    assert all[|a|] == x && forall i :: 0 <= i < |a| ==> all[i] == a[i];
  }

  lemma IncreasingSnoc(a: seq<nat>, x: nat)
    requires Increasing(a) && forall i :: 0 <= i < |a| ==> a[i] < x
    ensures Increasing(a + [x])
  {
  }

  lemma {:induction false} ChosenIncreases<P, D>(w: World<P, D>, sources: seq<Source>, n: nat)
    requires n <= |sources|
    ensures Increasing(Chosen(w, sources, n))
  {
    if n > 0 {
      hide Eligible, Increasing;
      ChosenIncreases(w, sources, n - 1);
      IncreasingSnoc(Chosen(w, sources, n - 1), n - 1);
    } else {
      assert Increasing([]);
    }
  }

  lemma {:induction false} ChosenLists<P, D>(w: World<P, D>, sources: seq<Source>, n: nat, s: nat)
    requires s < n <= |sources|
    ensures Lists(Chosen(w, sources, n), s) <==> Eligible(w, sources[s])
  {
    hide Eligible, Lists;
    var before := Chosen(w, sources, n - 1);
    ListsSnoc(before, n - 1, s);
    if s < n - 1 {
      ChosenLists(w, sources, n - 1, s);
    } else {
      NotYetListed(before, s);
    }
  }

  /** request_to_source_index is strictly increasing and lists exactly the eligible sources. */
  lemma ChosenExact<P, D>(w: World<P, D>, sources: seq<Source>, n: nat)
    requires n <= |sources|
    ensures Increasing(Chosen(w, sources, n))
    ensures forall s :: 0 <= s < n ==> (Lists(Chosen(w, sources, n), s) <==> Eligible(w, sources[s]))
  {
    hide Chosen, Increasing, Lists, Eligible;
    ChosenIncreases(w, sources, n);
    forall s | 0 <= s < n ensures Lists(Chosen(w, sources, n), s) <==> Eligible(w, sources[s]) {
      ChosenLists(w, sources, n, s);
    }
  }

  lemma NotYetListed(a: seq<nat>, n: nat)
    requires forall i :: 0 <= i < |a| ==> a[i] < n
    ensures !Lists(a, n)
  {
  }

  /** request_files and request_to_source_index */
  method BuildRequests<P, D>(w: World<P, D>, sources: seq<Source>) returns (requests: seq<Request>, back: seq<nat>)
    ensures back == Chosen(w, sources, |sources|) && |requests| == |back|
    ensures forall i :: 0 <= i < |back| ==> requests[i] == RequestFor(w, sources[back[i]])
  {
    hide RequestFor, PythonPath, Increasing, EffectivePath;
    requests, back := [], [];
    var idx := 0;
    while idx < |sources|
      invariant 0 <= idx <= |sources|
      invariant back == Chosen(w, sources, idx) && |requests| == |back|
      invariant forall i :: 0 <= i < |back| ==> requests[i] == RequestFor(w, sources[back[i]])
    {
      var item := sources[idx];
      if PythonPath(w.lower(item.oldPath)) || PythonPath(w.lower(EffectivePath(item))) {
        if !w.guarded(item.oldPath, EffectivePath(item)) {
          back := back + [idx];
          requests := requests + [RequestFor(w, item)];
        }
      }
      idx := idx + 1;
    }
  }

  /* ----- Merging the batch's answers. ----- */

  /** Lifecycle finish and staging mark of one batch diff. */
  function Finished<P, D>(w: World<P, D>, diff: B.Certified<P>, s: Source): Option<D> {
    var done := w.finish(diff, w.lifecycle(s.oldText, s.newText, s.staging));
    if done.None? then None
    else if s.staging.Some? then Some(w.stage(done.value, s.staging.value))
    else done
  }

  /** A diff is finished under the lifecycle of its own source, and carries that source's staging mark. */
  lemma FinishedExactly<P, D>(w: World<P, D>, diff: B.Certified<P>, s: Source)
    ensures s.staging == None ==>
              Finished(w, diff, s) == w.finish(diff, w.lifecycle(s.oldText, s.newText, None))
    ensures forall mark: string :: s.staging == Some(mark) ==>
              match w.finish(diff, w.lifecycle(s.oldText, s.newText, Some(mark)))
              case None => Finished(w, diff, s) == None
              case Some(done) => Finished(w, diff, s) == Some(w.stage(done, mark))
  {
  }

  /** The request that stood for source s, if any, and whether it was answered. */
  ghost predicate Served<V>(back: seq<nat>, diffs: map<int, V>, i: int, s: int) {
    0 <= i < |back| && back[i] == s && i in diffs
  }

  /** `merged` holds the finished diff of every answered request, at its source. */
  ghost predicate Merged<P, D>(w: World<P, D>, sources: seq<Source>, back: seq<nat>, diffs: map<int, B.Certified<P>>,
                               merged: map<int, D>)
  {
    && (forall i :: 0 <= i < |back| && i in diffs ==>
          && back[i] < |sources| && back[i] in merged
          && Finished(w, diffs[i], sources[back[i]]) == Some(merged[back[i]]))
    && (forall s :: s in merged ==> exists i :: Served(back, diffs, i, s))
  }

  predicate AllFinish<P, D>(w: World<P, D>, sources: seq<Source>, back: seq<nat>, diffs: map<int, B.Certified<P>>)
    requires forall i :: 0 <= i < |back| ==> back[i] < |sources|
  {
    forall i :: 0 <= i < |back| && i in diffs ==> Finished(w, diffs[i], sources[back[i]]).Some?
  }

  method MergeBatch<P, D>(w: World<P, D>, sources: seq<Source>, back: seq<nat>, diffs: map<int, B.Certified<P>>)
    returns (failed: Option<nat>, merged: map<int, D>)
    requires Increasing(back) && forall i :: 0 <= i < |back| ==> back[i] < |sources|
    ensures failed.None? <==> AllFinish(w, sources, back, diffs)
    ensures failed.None? ==> Merged(w, sources, back, diffs, merged)
    ensures failed.Some? ==> exists i :: 0 <= i < |back| && i in diffs && failed.value == back[i]
                                         && Finished(w, diffs[i], sources[back[i]]) == None
  {
    merged := map[];
    var left := diffs.Keys;
    ghost var done: map<int, B.Certified<P>> := map[];
    while left != {}
      invariant left <= diffs.Keys
      invariant done == map i | i in diffs && i !in left :: diffs[i]
      invariant AllFinish(w, sources, back, done)
      invariant Merged(w, sources, back, done, merged)
      decreases left
    {
      ghost var some := Member(left);
      var i :| i in left;
      left := left - {i};
      ghost var before := done;
      done := map k | k in diffs && k !in left :: diffs[k];
      assert done == before[i := diffs[i]];
      if i < 0 || i >= |back| {
        MergeStep(w, sources, back, before, i, diffs[i], merged);
        continue;
      }
      var finished := Finished(w, diffs[i], sources[back[i]]);
      if finished.None? {
        return Some(back[i]), map[];
      }
      MergeStep(w, sources, back, before, i, diffs[i], merged);
      merged := merged[back[i] := finished.value];
    }
    assert done == diffs;
    failed := None;
  }

  /** One more answered request; distinct requests have distinct sources. */
  lemma MergeStep<P, D>(w: World<P, D>, sources: seq<Source>, back: seq<nat>, before: map<int, B.Certified<P>>,
                        i: int, diff: B.Certified<P>, merged: map<int, D>)
    requires Increasing(back) && forall i :: 0 <= i < |back| ==> back[i] < |sources|
    requires AllFinish(w, sources, back, before) && Merged(w, sources, back, before, merged)
    requires i !in before
    requires 0 <= i < |back| ==> Finished(w, diff, sources[back[i]]).Some?
    ensures AllFinish(w, sources, back, before[i := diff])
    ensures Merged(w, sources, back, before[i := diff],
                   if 0 <= i < |back| then merged[back[i] := Finished(w, diff, sources[back[i]]).value] else merged)
  {
    var after := before[i := diff];
    var grown := if 0 <= i < |back| then merged[back[i] := Finished(w, diff, sources[back[i]]).value] else merged;
    forall s | s in grown ensures exists k :: Served(back, after, k, s) {
      if s in merged && !(0 <= i < |back| && s == back[i]) {
        var k :| Served(back, before, k, s);
        assert Served(back, after, k, s);
      } else {
        assert Served(back, after, i, s);
      }
    }
  }

  /* ----- Running what the batch did not answer. ----- */

  /** The result of source s, once the batch's results are known. */
  function Answer<P, D>(w: World<P, D>, sources: seq<Source>, merged: map<int, D>, s: nat): Run<D>
    requires s < |sources|
  {
    if s in merged then Ran(merged[s]) else w.pipeline(sources[s])
  }

  function FailureOf<D>(s: Source, run: Run<D>): Failure
    requires !run.Ran?
  {
    match run
    case Gated(why) => GateClosed(why)
    case Warned(why) => FileFailed(s.oldPath, why)
    case Crashed(why) => Uncaught(why)
  }

  /** One result per source, in source order. */
  ghost predicate InOrder<P, D>(w: World<P, D>, sources: seq<Source>, merged: map<int, D>, results: seq<D>) {
    |results| == |sources| && forall s :: 0 <= s < |sources| ==> Answer(w, sources, merged, s) == Ran(results[s])
  }

  /** `order` reaches the failing source order[k] before any other failing one. */
  ghost predicate FailsFirst<P, D>(w: World<P, D>, sources: seq<Source>, merged: map<int, D>, order: seq<nat>, k: nat,
                                   f: Failure)
  {
    && k < |order| && order[k] < |sources|
    && (forall j :: 0 <= j < k ==> order[j] < |sources| && Answer(w, sources, merged, order[j]).Ran?)
    && !Answer(w, sources, merged, order[k]).Ran?
    && f == FailureOf(sources[order[k]], Answer(w, sources, merged, order[k]))
  }

  /** What a fan-out that handles sources in this order may return. */
  ghost predicate FanOut<P, D>(w: World<P, D>, sources: seq<Source>, merged: map<int, D>, order: seq<nat>, r: Review<D>)
  {
    match r
    case Reviewed(results) => InOrder(w, sources, merged, results)
    case Failed(f) => exists k :: FailsFirst(w, sources, merged, order, k, f)
  }

  ghost predicate Permutation(order: seq<nat>, n: nat) {
    && (forall k :: 0 <= k < |order| ==> order[k] < n)
    && (forall j, k :: 0 <= j < k < |order| ==> order[j] != order[k])
    && (forall s :: 0 <= s < n ==> Lists(order, s))
  }

  function Identity(n: nat): (r: seq<nat>)
    ensures |r| == n && forall k :: 0 <= k < n ==> r[k] == k
  {
    seq(n, k requires 0 <= k < n => k)
  }

  /** The sequential loop. */
  method Sequential<P, D>(w: World<P, D>, sources: seq<Source>, merged: map<int, D>) returns (r: Review<D>)
    ensures FanOut(w, sources, merged, Identity(|sources|), r)
  {
    var results: seq<D> := [];
    var idx := 0;
    while idx < |sources|
      invariant 0 <= idx <= |sources| && |results| == idx
      invariant forall s :: 0 <= s < idx ==> Answer(w, sources, merged, s) == Ran(results[s])
    {
      if idx in merged {
        results := results + [merged[idx]];
      } else {
        var run := w.pipeline(sources[idx]);
        if !run.Ran? {
          assert FailsFirst(w, sources, merged, Identity(|sources|), idx, FailureOf(sources[idx], run));
          return Failed(FailureOf(sources[idx], run));
        }
        results := results + [run.diff];
      }
      idx := idx + 1;
    }
    return Reviewed(results);
  }

  /** sorted() on a set of indices. */
  method Sorted(keys: set<int>) returns (sorted: seq<int>)
    ensures forall i, j :: 0 <= i < j < |sorted| ==> sorted[i] < sorted[j]
    ensures forall x :: x in keys <==> Lists(sorted, x)
  {
    sorted := [];
    var left := keys;
    while left != {}
      invariant left <= keys
      invariant forall i, j :: 0 <= i < j < |sorted| ==> sorted[i] < sorted[j]
      invariant forall k, x :: 0 <= k < |sorted| && x in left ==> sorted[k] < x
      invariant forall k :: 0 <= k < |sorted| ==> sorted[k] in keys
      invariant forall x :: x in keys && x !in left ==> Lists(sorted, x)
      decreases left
    {
      var least := Least(left);
      ghost var before := sorted;
      sorted := sorted + [least];
      assert sorted[|before|] == least;
      assert forall k :: 0 <= k < |before| ==> sorted[k] == before[k];
      assert forall x :: Lists(before, x) ==> Lists(sorted, x);
      left := left - {least};
    }
  }

  method Least(keys: set<int>) returns (least: int)
    requires keys != {}
    ensures least in keys && forall x :: x in keys ==> least <= x
  {
    ghost var some := Member(keys);
    least :| least in keys;
    var left := keys - {least};
    while left != {}
      invariant left <= keys && least in keys
      invariant forall x :: x in keys && x !in left ==> least <= x
      decreases left
    {
      ghost var other := Member(left);
      var x :| x in left;
      if x < least {
        least := x;
      }
      left := left - {x};
    }
  }

  /** An increasing list of exactly 0..n-1 is 0, 1, .., n-1. */
  lemma {:induction false} IncreasingIsIdentity(sorted: seq<int>, n: nat, k: nat)
    requires forall i, j :: 0 <= i < j < |sorted| ==> sorted[i] < sorted[j]
    requires forall x :: Lists(sorted, x) <==> 0 <= x < n
    requires k <= n
    ensures k <= |sorted| && (k == n ==> |sorted| == n)
    ensures forall j :: 0 <= j < k ==> sorted[j] == j
  {
    if k > 0 {
      IncreasingIsIdentity(sorted, n, k - 1);
      assert Lists(sorted, k - 1);
      var p :| 0 <= p < |sorted| && sorted[p] == k - 1;
      assert p >= k - 1;
      assert Lists(sorted, sorted[k - 1]);
      if k > 1 {
        assert sorted[k - 2] < sorted[k - 1];
      }
    }
    if k < |sorted| {
      assert Lists(sorted, sorted[k]);
    }
  }

  /** The as_completed loop, then the results by ascending source index. */
  method Parallel<P, D>(w: World<P, D>, sources: seq<Source>, merged: map<int, D>, order: seq<nat>)
    returns (r: Review<D>)
    requires Permutation(order, |sources|)
    requires forall s :: s in merged ==> 0 <= s < |sources|
    ensures FanOut(w, sources, merged, order, r)
  {
    var done := merged;
    var c := 0;
    while c < |order|
      invariant 0 <= c <= |order|
      invariant forall j :: 0 <= j < c ==> Answer(w, sources, merged, order[j]).Ran?
      invariant forall s :: s in done ==> 0 <= s < |sources| && Answer(w, sources, merged, s) == Ran(done[s])
      invariant forall s :: s in merged ==> s in done
      invariant forall j :: 0 <= j < c ==> order[j] in done
    {
      var idx := order[c];
      if idx !in merged {
        var run := w.pipeline(sources[idx]);
        if !run.Ran? {
          assert FailsFirst(w, sources, merged, order, c, FailureOf(sources[idx], run));
          return Failed(FailureOf(sources[idx], run));
        }
        done := done[idx := run.diff];
      }
      c := c + 1;
    }
    forall s | 0 <= s < |sources| ensures s in done.Keys {
      assert Lists(order, s);
    }
    var sorted := Sorted(done.Keys);
    assert forall x :: x in done.Keys <==> 0 <= x < |sources|;
    IncreasingIsIdentity(sorted, |sources|, |sources|);
    var results: seq<D> := [];
    var i := 0;
    while i < |sorted|
      invariant 0 <= i <= |sorted| && |results| == i
      invariant forall s :: 0 <= s < i ==> Answer(w, sources, merged, s) == Ran(results[s])
    {
      results := results + [done[sorted[i]]];
      i := i + 1;
    }
    return Reviewed(results);
  }

  /* ----- What the fan-out guarantees. ----- */

  /** Two fan-outs over the same files agree: both succeed, with the same results,
    * or both fail, each naming a file whose pipeline run really failed.
    */
  lemma FanOutsAgree<P, D>(w: World<P, D>, sources: seq<Source>, merged: map<int, D>, order: seq<nat>, order': seq<nat>,
                           r: Review<D>, r': Review<D>)
    requires Permutation(order, |sources|) && Permutation(order', |sources|)
    requires FanOut(w, sources, merged, order, r) && FanOut(w, sources, merged, order', r')
    ensures r.Reviewed? <==> r'.Reviewed?
    ensures r.Reviewed? ==> r == r'
    ensures r.Reviewed? <==> forall s :: 0 <= s < |sources| ==> Answer(w, sources, merged, s).Ran?
  {
    if r.Reviewed? && r'.Reviewed? {
      forall s | 0 <= s < |sources| ensures r.results[s] == r'.results[s] {
        assert Answer(w, sources, merged, s) == Ran(r.results[s]);
      }
      assert r.results == r'.results;
    }
  }

  /** The completion order settles the review, the failure it reports included. */
  lemma FanOutIsSettled<P, D>(w: World<P, D>, sources: seq<Source>, merged: map<int, D>, order: seq<nat>,
                              r: Review<D>, r': Review<D>)
    requires Permutation(order, |sources|)
    requires FanOut(w, sources, merged, order, r) && FanOut(w, sources, merged, order, r')
    ensures r == r'
  {
    FanOutsAgree(w, sources, merged, order, order, r, r');
    if r.Failed? {
      var k: nat :| FailsFirst(w, sources, merged, order, k, r.failure);
      var k': nat :| FailsFirst(w, sources, merged, order, k', r'.failure);
      assert k == k';
    }
  }

  predicate Fails<P, D>(w: World<P, D>, sources: seq<Source>, merged: map<int, D>, s: nat) {
    s < |sources| && !Answer(w, sources, merged, s).Ran?
  }

  /** Every file that fails is reported in the same words. */
  ghost predicate OneFailure<P, D>(w: World<P, D>, sources: seq<Source>, merged: map<int, D>) {
    forall s: nat, t: nat ::
      Fails(w, sources, merged, s) && Fails(w, sources, merged, t) ==>
        FailureAt(w, sources, merged, s) == FailureAt(w, sources, merged, t)
  }

  function FailureAt<P, D>(w: World<P, D>, sources: seq<Source>, merged: map<int, D>, s: nat): Failure
    requires Fails(w, sources, merged, s)
  {
    FailureOf(sources[s], Answer(w, sources, merged, s))
  }

  /** Then the completion order does not change the report. */
  lemma OneFailureOneReport<P, D>(w: World<P, D>, sources: seq<Source>, merged: map<int, D>,
                                  order: seq<nat>, order': seq<nat>, r: Review<D>, r': Review<D>)
    requires Permutation(order, |sources|) && Permutation(order', |sources|)
    requires FanOut(w, sources, merged, order, r) && FanOut(w, sources, merged, order', r')
    requires OneFailure(w, sources, merged)
    ensures r == r'
  {
    FanOutsAgree(w, sources, merged, order, order', r, r');
    if r.Failed? {
      var k: nat :| FailsFirst(w, sources, merged, order, k, r.failure);
      var k': nat :| FailsFirst(w, sources, merged, order', k', r'.failure);
      assert FailureAt(w, sources, merged, order[k]) == FailureAt(w, sources, merged, order'[k']);
    }
  }

  /** The order that takes source s first. */
  function StartingWith(n: nat, s: nat): (order: seq<nat>)
    requires s < n
  {
    Identity(n)[0 := s][s := 0]
  }

  lemma StartingWithPermutes(n: nat, s: nat)
    requires s < n
    ensures Permutation(StartingWith(n, s), n) && StartingWith(n, s)[0] == s
  {
    var order := StartingWith(n, s);
    forall x | 0 <= x < n ensures Lists(order, x) {
      assert order[if x == s then 0 else if x == 0 then s else x] == x;
    }
  }

  /** Any failing file can be the one a parallel review reports. */
  lemma AnyFailureCanBeReported<P, D>(w: World<P, D>, sources: seq<Source>, merged: map<int, D>, s: nat)
    returns (order: seq<nat>)
    requires Fails(w, sources, merged, s)
    ensures Permutation(order, |sources|)
    ensures FanOut(w, sources, merged, order, Failed(FailureAt(w, sources, merged, s)))
  {
    order := StartingWith(|sources|, s);
    StartingWithPermutes(|sources|, s);
    assert FailsFirst(w, sources, merged, order, 0, FailureAt(w, sources, merged, s));
  }

  /** What the sequential review reports when some file fails. */
  lemma {:induction false} SequentialReport<P, D>(w: World<P, D>, sources: seq<Source>, merged: map<int, D>, s: nat)
    returns (first: nat)
    requires Fails(w, sources, merged, s)
    ensures first <= s && Fails(w, sources, merged, first)
    ensures FanOut(w, sources, merged, Identity(|sources|), Failed(FailureAt(w, sources, merged, first)))
  {
    if k: nat :| k < s && Fails(w, sources, merged, k) {
      first := SequentialReport(w, sources, merged, k);
    } else {
      first := s;
      forall j | 0 <= j < s ensures Answer(w, sources, merged, Identity(|sources|)[j]).Ran? {
        assert !Fails(w, sources, merged, j);
      }
      assert FailsFirst(w, sources, merged, Identity(|sources|), s, FailureAt(w, sources, merged, s));
    }
  }

  /** Two files that fail differently: some completion order reports otherwise than the sequential review. */
  lemma ReportDependsOnOrder<P, D>(w: World<P, D>, sources: seq<Source>, merged: map<int, D>, s: nat, t: nat)
    returns (order: seq<nat>, sequential: Failure, parallel: Failure)
    requires Fails(w, sources, merged, s)
    requires Fails(w, sources, merged, t)
    requires FailureAt(w, sources, merged, s) != FailureAt(w, sources, merged, t)
    ensures Permutation(order, |sources|) && sequential != parallel
    ensures FanOut(w, sources, merged, Identity(|sources|), Failed(sequential))
    ensures FanOut(w, sources, merged, order, Failed(parallel))
  {
    var first := SequentialReport(w, sources, merged, s);
    sequential := FailureAt(w, sources, merged, first);
    var other := if FailureAt(w, sources, merged, s) == sequential then t else s;
    parallel := FailureAt(w, sources, merged, other);
    order := AnyFailureCanBeReported(w, sources, merged, other);
  }

  /** The parallel review equals the sequential one in every completion order exactly when
    * no two files fail differently.
    */
  lemma ParallelIsSequentialExactly<P(!new), D(!new)>(w: World<P, D>, sources: seq<Source>, merged: map<int, D>)
    ensures OneFailure(w, sources, merged) <==>
            forall order: seq<nat>, r: Review<D>, r': Review<D> ::
              Permutation(order, |sources|) && FanOut(w, sources, merged, Identity(|sources|), r) ==>
                FanOut(w, sources, merged, order, r') ==> r == r'
  {
    IdentityPermutes(|sources|);
    if OneFailure(w, sources, merged) {
      forall order: seq<nat>, r: Review<D>, r': Review<D> |
        Permutation(order, |sources|)
        && FanOut(w, sources, merged, Identity(|sources|), r) && FanOut(w, sources, merged, order, r')
        ensures r == r'
      {
        OneFailureOneReport(w, sources, merged, Identity(|sources|), order, r, r');
      }
    } else {
      var s: nat, t: nat :| Fails(w, sources, merged, s) && Fails(w, sources, merged, t)
        && FailureAt(w, sources, merged, s) != FailureAt(w, sources, merged, t);
      var order, f, g := ReportDependsOnOrder(w, sources, merged, s, t);
      var sequential: Review<D>, parallel: Review<D> := Failed(f), Failed(g);
      assert FanOut(w, sources, merged, Identity(|sources|), sequential) && FanOut(w, sources, merged, order, parallel);
      assert sequential != parallel;
    }
  }

  /* ----- The whole review. ----- */

  predicate BatchTried<P, D>(w: World<P, D>, sources: seq<Source>, skip: bool) {
    !skip && |Chosen(w, sources, |sources|)| != 0
  }

  predicate BatchBroken<P, D>(w: World<P, D>, sources: seq<Source>, skip: bool, outcome: B.Outcome<P>) {
    && BatchTried(w, sources, skip)
    && (outcome.Broken? || (outcome.Answered? && !B.Admissible(outcome.reply, |Chosen(w, sources, |sources|)|)))
  }

  /** The batch is broken when it was asked, for some eligible source, and did not reply properly. */
  lemma BatchBrokenExactly<P, D>(w: World<P, D>, sources: seq<Source>, skip: bool, outcome: B.Outcome<P>)
    ensures BatchBroken(w, sources, skip, outcome) <==>
            && skip == false
            && (exists s :: 0 <= s < |sources| && Eligible(w, sources[s]))
            && match outcome
               case Declined(_) => false
               case Broken(_) => true
               case Answered(reply) => !B.Admissible(reply, |Chosen(w, sources, |sources|)|)
  {
    var back := Chosen(w, sources, |sources|);
    ChosenExact(w, sources, |sources|);
    hide Eligible, Chosen;
    if back != [] {
      assert Lists(back, back[0]);
    }
  }

  /** The certified diffs of the batch reply, by request index. */
  function BatchDiffs<P, D>(w: World<P, D>, sources: seq<Source>, skip: bool, outcome: B.Outcome<P>)
    : map<int, B.Certified<P>>
  {
    if BatchTried(w, sources, skip) && outcome.Answered?
       && B.Admissible(outcome.reply, |Chosen(w, sources, |sources|)|) then
      B.AdmissibleIsReadable(outcome.reply, |Chosen(w, sources, |sources|)|);
      B.DiffsOf(outcome.reply.items.value)
    else map[]
  }

  /** A batch that was skipped or declined answers nothing; an admissible reply answers with its diffs. */
  lemma BatchDiffsExactly<P, D>(w: World<P, D>, sources: seq<Source>, outcome: B.Outcome<P>)
    ensures BatchDiffs(w, sources, true, outcome) == map[]
    ensures !outcome.Answered? ==> BatchDiffs(w, sources, false, outcome) == map[]
    ensures outcome.Answered? && B.Admissible(outcome.reply, |Chosen(w, sources, |sources|)|) ==>
              && B.AllReadable(outcome.reply.items.value)
              && BatchDiffs(w, sources, false, outcome) == B.DiffsOf(outcome.reply.items.value)
  {
    if outcome.Answered? && B.Admissible(outcome.reply, |Chosen(w, sources, |sources|)|) {
      B.AdmissibleIsReadable(outcome.reply, |Chosen(w, sources, |sources|)|);
    }
  }

  /** One result per source in source order: the finished batch diff of the request
    * that was built from that source, or that source's own pipeline run.
    */
  ghost predicate Delivered<P, D>(w: World<P, D>, sources: seq<Source>, diffs: map<int, B.Certified<P>>,
                                  results: seq<D>)
  {
    var back := Chosen(w, sources, |sources|);
    && |results| == |sources|
    && (forall i :: 0 <= i < |back| && i in diffs ==> Finished(w, diffs[i], sources[back[i]]) == Some(results[back[i]]))
    && (forall s :: 0 <= s < |sources| && Unserved(back, diffs, s) ==> w.pipeline(sources[s]) == Ran(results[s]))
  }

  ghost predicate Unserved<V>(back: seq<nat>, diffs: map<int, V>, s: int) {
    forall i :: !Served(back, diffs, i, s)
  }

  ghost predicate Deliverable<P, D>(w: World<P, D>, sources: seq<Source>, diffs: map<int, B.Certified<P>>) {
    var back := Chosen(w, sources, |sources|);
    && AllFinish(w, sources, back, diffs)
    && (forall s :: 0 <= s < |sources| && Unserved(back, diffs, s) ==> w.pipeline(sources[s]).Ran?)
  }

  /** A review can be delivered when every source has a diff: finished, if the batch answered it. */
  lemma DeliverableExactly<P, D>(w: World<P, D>, sources: seq<Source>, diffs: map<int, B.Certified<P>>)
    ensures var back := Chosen(w, sources, |sources|);
            Deliverable(w, sources, diffs) <==>
            forall s :: 0 <= s < |sources| ==>
              || (exists i :: 0 <= i < |back| && i in diffs && back[i] == s
                              && Finished(w, diffs[i], sources[s]) != None)
              || ((forall i :: 0 <= i < |back| && i in diffs ==> back[i] != s) && w.pipeline(sources[s]).Ran?)
  {
    var back := Chosen(w, sources, |sources|);
    ChosenIncreases(w, sources, |sources|);
    hide Finished, Chosen;
    forall s | 0 <= s < |sources|
      ensures Unserved(back, diffs, s) <==> forall i :: 0 <= i < |back| && i in diffs ==> back[i] != s
    {
      assert forall i :: Served(back, diffs, i, s) <==> 0 <= i < |back| && back[i] == s && i in diffs;
    }
    if Deliverable(w, sources, diffs) {
      forall s | 0 <= s < |sources| && !Unserved(back, diffs, s)
        ensures exists i :: 0 <= i < |back| && i in diffs && back[i] == s && Finished(w, diffs[i], sources[s]) != None
      {
        var i :| Served(back, diffs, i, s);
      }
    }
  }

  /** In-order results over the merged batch are delivered results. */
  lemma InOrderDelivers<P, D>(w: World<P, D>, sources: seq<Source>, diffs: map<int, B.Certified<P>>,
                              merged: map<int, D>, results: seq<D>)
    requires Merged(w, sources, Chosen(w, sources, |sources|), diffs, merged)
    requires InOrder(w, sources, merged, results)
    ensures Delivered(w, sources, diffs, results)
  {
    var back := Chosen(w, sources, |sources|);
    forall i | 0 <= i < |back| && i in diffs
      ensures Finished(w, diffs[i], sources[back[i]]) == Some(results[back[i]])
    {
      assert Answer(w, sources, merged, back[i]) == Ran(results[back[i]]);
    }
    forall s | 0 <= s < |sources| && Unserved(back, diffs, s) ensures w.pipeline(sources[s]) == Ran(results[s]) {
      assert s !in merged;
      assert Answer(w, sources, merged, s) == Ran(results[s]);
    }
  }

  lemma DeliverableMeansRan<P, D>(w: World<P, D>, sources: seq<Source>, diffs: map<int, B.Certified<P>>,
                                  merged: map<int, D>)
    requires Merged(w, sources, Chosen(w, sources, |sources|), diffs, merged)
    requires AllFinish(w, sources, Chosen(w, sources, |sources|), diffs)
    ensures Deliverable(w, sources, diffs) <==> forall s :: 0 <= s < |sources| ==> Answer(w, sources, merged, s).Ran?
  {
    var back := Chosen(w, sources, |sources|);
    forall s | 0 <= s < |sources| ensures Unserved(back, diffs, s) <==> s !in merged {
      if i :| Served(back, diffs, i, s) {
        assert back[i] in merged;
      }
    }
    if Deliverable(w, sources, diffs) {
      forall s | 0 <= s < |sources| ensures Answer(w, sources, merged, s).Ran? {
        assert s in merged || Unserved(back, diffs, s);
      }
    } else {
      var s :| 0 <= s < |sources| && Unserved(back, diffs, s) && !w.pipeline(sources[s]).Ran?;
      assert !Answer(w, sources, merged, s).Ran?;
    }
  }

  /** Only ascending indices of existing sources are merged. */
  lemma MergedInRange<P, D>(w: World<P, D>, sources: seq<Source>, back: seq<nat>, diffs: map<int, B.Certified<P>>,
                            merged: map<int, D>)
    requires Merged(w, sources, back, diffs, merged)
    ensures forall s :: s in merged ==> 0 <= s < |sources|
  {
    forall s | s in merged ensures 0 <= s < |sources| {
      var i :| Served(back, diffs, i, s);
    }
  }

  /** What a failed review reports: a batch diff that could not be finished, or, of the runs of the
    * sources the batch did not answer, the one that fails first in the order they complete.
    */
  ghost predicate WhyFailed<P, D>(w: World<P, D>, sources: seq<Source>, diffs: map<int, B.Certified<P>>,
                                  order: seq<nat>, f: Failure)
  {
    var back := Chosen(w, sources, |sources|);
    || (exists i :: 0 <= i < |back| && i in diffs && Finished(w, diffs[i], sources[back[i]]) == None
                    && f == UnfinishedBatch(back[i]))
    || (exists k :: 0 <= k < |order| && RunFailed(w, sources, back, diffs, order[k], f)
                    && AllFinish(w, sources, back, diffs)
                    && forall j :: 0 <= j < k && Unserved(back, diffs, order[j]) ==>
                         0 <= order[j] < |sources| && w.pipeline(sources[order[j]]).Ran?)
  }

  ghost predicate RunFailed<P, D, V>(w: World<P, D>, sources: seq<Source>, back: seq<nat>, diffs: map<int, V>,
                                     s: int, f: Failure)
  {
    && 0 <= s < |sources| && Unserved(back, diffs, s)
    && match w.pipeline(sources[s])
       case Ran(_) => false
       case Gated(why) => f == GateClosed(why)
       case Warned(why) => f == FileFailed(sources[s].oldPath, why)
       case Crashed(why) => f == Uncaught(why)
  }

  /** Every failure of the fan-out is that of an unanswered source's own run. */
  lemma FanOutFailure<P, D>(w: World<P, D>, sources: seq<Source>, diffs: map<int, B.Certified<P>>,
                            merged: map<int, D>, order: seq<nat>, f: Failure)
    requires Merged(w, sources, Chosen(w, sources, |sources|), diffs, merged)
    requires AllFinish(w, sources, Chosen(w, sources, |sources|), diffs)
    requires FanOut(w, sources, merged, order, Failed(f))
    ensures WhyFailed(w, sources, diffs, order, f)
  {
    var back := Chosen(w, sources, |sources|);
    var k: nat :| FailsFirst(w, sources, merged, order, k, f);
    AnswerIsOwn(w, sources, diffs, merged, order[k]);
    assert RunFailed(w, sources, back, diffs, order[k], f);
    forall j | 0 <= j < k && Unserved(back, diffs, order[j]) ensures w.pipeline(sources[order[j]]).Ran? {
      AnswerIsOwn(w, sources, diffs, merged, order[j]);
    }
  }

  lemma AnswerIsOwn<P, D>(w: World<P, D>, sources: seq<Source>, diffs: map<int, B.Certified<P>>,
                          merged: map<int, D>, s: nat)
    requires s < |sources| && Merged(w, sources, Chosen(w, sources, |sources|), diffs, merged)
    ensures Unserved(Chosen(w, sources, |sources|), diffs, s) ==>
              Answer(w, sources, merged, s) == w.pipeline(sources[s])
    ensures !Answer(w, sources, merged, s).Ran? ==> Unserved(Chosen(w, sources, |sources|), diffs, s)
  {
    var back := Chosen(w, sources, |sources|);
    if i :| Served(back, diffs, i, s) {
      assert back[i] in merged;
    }
  }

  lemma FanOutOutcome<P, D>(w: World<P, D>, sources: seq<Source>, diffs: map<int, B.Certified<P>>,
                            merged: map<int, D>, order: seq<nat>, r: Review<D>)
    requires Permutation(order, |sources|)
    requires Merged(w, sources, Chosen(w, sources, |sources|), diffs, merged)
    requires AllFinish(w, sources, Chosen(w, sources, |sources|), diffs)
    requires FanOut(w, sources, merged, order, r)
    ensures r.Reviewed? <==> Deliverable(w, sources, diffs)
    ensures r.Reviewed? ==> Delivered(w, sources, diffs, r.results)
    ensures r.Failed? ==> WhyFailed(w, sources, diffs, order, r.failure)
  {
    DeliverableMeansRan(w, sources, diffs, merged);
    FanOutsAgree(w, sources, merged, order, order, r, r);
    hide WhyFailed, Deliverable, Delivered;
    match r
    case Reviewed(results) => InOrderDelivers(w, sources, diffs, merged, results);
    case Failed(f) => FanOutFailure(w, sources, diffs, merged, order, f);
  }

  lemma UnfinishedMeansWhy<P, D>(w: World<P, D>, sources: seq<Source>, diffs: map<int, B.Certified<P>>,
                                 order: seq<nat>, i: nat)
    requires var back := Chosen(w, sources, |sources|);
             i < |back| && i in diffs && Finished(w, diffs[i], sources[back[i]]) == None
    ensures WhyFailed(w, sources, diffs, order, UnfinishedBatch(Chosen(w, sources, |sources|)[i]))
    ensures !AllFinish(w, sources, Chosen(w, sources, |sources|), diffs) && !Deliverable(w, sources, diffs)
  {
  }

  /** The batch: its finished diffs by source, or why the review fails. */
  method TryBatchReview<P, D>(w: World<P, D>, sources: seq<Source>, skip: bool, outcome: B.Outcome<P>)
    returns (failed: Option<Failure>, merged: map<int, D>)
    ensures var diffs, back := BatchDiffs(w, sources, skip, outcome), Chosen(w, sources, |sources|);
            && (BatchBroken(w, sources, skip, outcome) <==> failed.Some? && failed.value.MalformedBatch?)
            && (failed.None? ==> Merged(w, sources, back, diffs, merged) && AllFinish(w, sources, back, diffs))
            && (failed.Some? && !failed.value.MalformedBatch? ==>
                  exists i :: 0 <= i < |back| && i in diffs && failed.value == UnfinishedBatch(back[i])
                              && Finished(w, diffs[i], sources[back[i]]) == None)
    ensures BatchBroken(w, sources, skip, outcome) && outcome.Broken? ==>
              failed.value.why == if outcome.why == "" then "invalid native output" else outcome.why
  {
    hide Merged, AllFinish, Finished;
    merged := map[];
    if !skip {
      var requests, back := BuildRequests(w, sources);
      ChosenExact(w, sources, |sources|);
      if |requests| != 0 {
        var batch := B.TryBatch(outcome, |requests|);
        if batch.invalid {
          return Some(MalformedBatch(if batch.reason != "" then batch.reason else "invalid native output")), map[];
        }
        var source;
        source, merged := MergeBatch(w, sources, back, batch.diffs);
        return if source.Some? then Some(UnfinishedBatch(source.value)) else None, merged;
      }
    }
    NothingMerged<P, D>(w, sources);
    failed := None;
  }

  lemma NothingMerged<P, D>(w: World<P, D>, sources: seq<Source>)
    ensures Merged(w, sources, Chosen(w, sources, |sources|), map[], map[])
    ensures AllFinish(w, sources, Chosen(w, sources, |sources|), map[])
  {
  }

  /** diff_commit; `order` is the order in which the parallel runs complete. */
  method DiffCommit<P, D>(w: World<P, D>, sources: seq<Source>, skip: bool, outcome: B.Outcome<P>,
                          parallel: bool, order: seq<nat>)
    returns (r: Review<D>)
    requires Permutation(order, |sources|)
    ensures BatchBroken(w, sources, skip, outcome) ==> r.Failed? && r.failure.MalformedBatch?
    ensures r.Reviewed? <==> !BatchBroken(w, sources, skip, outcome)
                             && Deliverable(w, sources, BatchDiffs(w, sources, skip, outcome))
    ensures r.Reviewed? ==> Delivered(w, sources, BatchDiffs(w, sources, skip, outcome), r.results)
    ensures r.Failed? && !BatchBroken(w, sources, skip, outcome) ==>
              WhyFailed(w, sources, BatchDiffs(w, sources, skip, outcome),
                        if parallel then order else Identity(|sources|), r.failure)
    ensures BatchBroken(w, sources, skip, outcome) && outcome.Broken? ==>
              r.failure.why == if outcome.why == "" then "invalid native output" else outcome.why
  {
    hide *;
    ghost var diffs, chosen := BatchDiffs(w, sources, skip, outcome), Chosen(w, sources, |sources|);
    var failed, merged := TryBatchReview(w, sources, skip, outcome);
    if failed.Some? {
      if !failed.value.MalformedBatch? {
        ghost var i :| 0 <= i < |chosen| && i in diffs && failed.value == UnfinishedBatch(chosen[i])
                       && Finished(w, diffs[i], sources[chosen[i]]) == None;
        UnfinishedMeansWhy(w, sources, diffs, if parallel then order else Identity(|sources|), i);
      }
      return Failed(failed.value);
    }
    MergedInRange(w, sources, chosen, diffs, merged);
    if !parallel {
      IdentityPermutes(|sources|);
      r := Sequential(w, sources, merged);
      FanOutOutcome(w, sources, diffs, merged, Identity(|sources|), r);
    } else {
      r := Parallel(w, sources, merged, order);
      FanOutOutcome(w, sources, diffs, merged, order, r);
    }
  }

  lemma IdentityPermutes(n: nat)
    ensures Permutation(Identity(n), n)
  {
    forall s | 0 <= s < n ensures Lists(Identity(n), s) {
      assert Identity(n)[s] == s;
    }
  }

  /** A complete item's diff is delivered, finished, at the source its index was built from,
    * wherever the item stood in the reply; a declined item's source gets its own run.
    */
  lemma LandsOnItsSource<P, D>(w: World<P, D>, sources: seq<Source>, reply: B.Reply<P>, k: nat, results: seq<D>)
    requires var n := |Chosen(w, sources, |sources|)|;
             && 0 < n && B.Admissible(reply, n) && k < n
             && Delivered(w, sources, BatchDiffs(w, sources, false, B.Answered(reply)), results)
    ensures var back := Chosen(w, sources, |sources|); var item := reply.items.value[k];
            && B.Placed(item, |back|)
            && var s := back[item.index.value];
               && |results| == |sources| && Eligible(w, sources[s])
               && (B.IsComplete(item) ==>
                     && item.diff.Dto? && item.diff.metadata.Some?
                     && Finished(w, B.Certify(item.diff), sources[s]) == Some(results[s]))
               && (!B.IsComplete(item) ==> w.pipeline(sources[s]) == Ran(results[s]))
  {
    var back := Chosen(w, sources, |sources|);
    ChosenExact(w, sources, |sources|);
    B.AdmissibleIsReadable(reply, |back|);
    assert B.ItemAdmissible(reply.status, reply.items.value[k], |back|);
    B.Lookup(reply.items.value, k);
    var i := reply.items.value[k].index.value;
    var diffs := B.DiffsOf(reply.items.value);
    assert Lists(back, back[i]);
    hide Eligible, Finished, Chosen;
    if !B.IsComplete(reply.items.value[k]) {
      OnlyServer(back, diffs, i);
    }
  }

  /** Each source stands for one request only. */
  lemma OnlyServer<V>(back: seq<nat>, diffs: map<int, V>, i: nat)
    requires Increasing(back) && i < |back| && i !in diffs
    ensures Unserved(back, diffs, back[i])
  {
  }
}
