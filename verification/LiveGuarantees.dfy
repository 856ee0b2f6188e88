/**
 What the live server's protocol guarantees over whole runs, and where it stops
 short: superseded requests, cancellation, lost updates.
 */
module LiveGuarantees {
  import opened Common
  import opened LiveProtocol

  // ---------------------------------------------------------------- superseded requests

  /** The lines that a stale worker can still write. */
  function Owed(worker: Worker): nat {
    if worker.phase.Computing? || worker.phase.Passed? then 1 else 0
  }

  lemma StaleStep(s: State, step: Step, w: nat)
    requires Enabled(s, step) && w < |s.workers| && s.Stale(w)
    ensures var t := Apply(s, step);
      && w < |t.workers|
      && t.Stale(w)
      && |t.workers[w].lines| + Owed(t.workers[w]) <= |s.workers[w].lines| + Owed(s.workers[w])
      && s.workers[w].lines <= t.workers[w].lines
  {
    Persistent(s, step);
    LatestGrows(s, step);
  }

  lemma {:induction false} StaleRun(s: State, steps: seq<Step>, w: nat)
    requires ValidRun(s, steps) && w < |s.workers| && s.Stale(w)
    ensures var t := Run(s, steps);
      && w < |t.workers|
      && t.Stale(w)
      && |t.workers[w].lines| <= |s.workers[w].lines| + Owed(s.workers[w])
      && s.workers[w].lines <= t.workers[w].lines
    decreases |steps|
  {
    if steps != [] {
      StaleStep(s, steps[0], w);
      StaleRun(Apply(s, steps[0]), steps[1..], w);
    }
  }

  /**
   Once a newer request for its path is scheduled, a worker writes at most one
   more line in any continuation, and none unless it was computing its diff or
   had passed the check of that line.
   */
  lemma SupersededWritesAtMostOneMore(s: State, req: Request, w: nat, t: State)
    requires w < |s.workers| && s.workers[w].req.path == req.path && s.workers[w].req.seqNo < req.seqNo
    requires Leads(Apply(s, Schedule(req)), t)
    ensures w < |t.workers|
    ensures |t.workers[w].lines| <= |s.workers[w].lines| + Owed(s.workers[w]) <= |s.workers[w].lines| + 1
  {
    var u := Apply(s, Schedule(req));
    Persistent(s, Schedule(req));
    assert u.workers[w].lines == s.workers[w].lines && Owed(u.workers[w]) == Owed(s.workers[w]);
    var steps :| ValidRun(u, steps) && Run(u, steps) == t;
    StaleRun(u, steps, w);
  }

  /** Some continuation lets worker w write another line. */
  ghost predicate WritesMore(s: State, w: nat)
    requires w < |s.workers|
  {
    exists t :: Leads(s, t) && w < |t.workers| && |s.workers[w].lines| < |t.workers[w].lines|
  }

  lemma WritesNext(s: State, step: Step, w: nat)
    requires Enabled(s, step) && w < |s.workers| && w < |Apply(s, step).workers|
    requires |s.workers[w].lines| < |Apply(s, step).workers[w].lines|
    ensures WritesMore(s, w)
  {
    var t := Apply(s, step);
    assert ([step])[1..] == [];
    assert ValidRun(t, []) && Run(t, []) == t;
    assert ValidRun(s, [step]) && Run(s, [step]) == t;
  }

  /** A step that leaves worker w's lines alone loses no continuation. */
  lemma WritesMoreBefore(s: State, step: Step, w: nat)
    requires Enabled(s, step) && w < |s.workers| && w < |Apply(s, step).workers|
    requires Apply(s, step).workers[w].lines == s.workers[w].lines && WritesMore(Apply(s, step), w)
    ensures WritesMore(s, w)
  {
    var t :| Leads(Apply(s, step), t) && w < |t.workers| && |s.workers[w].lines| < |t.workers[w].lines|;
    var steps :| ValidRun(Apply(s, step), steps) && Run(Apply(s, step), steps) == t;
    assert ([step] + steps)[1..] == steps;
    assert ValidRun(s, [step] + steps) && Run(s, [step] + steps) == t;
  }

  /** Nothing is left for this worker to do. */
  predicate Resting(worker: Worker) { worker.phase.Cancelled? || worker.phase.Dropped? || worker.phase.Finished? }

  lemma {:induction false} RestingRun(s: State, steps: seq<Step>, w: nat)
    requires ValidRun(s, steps) && w < |s.workers| && Resting(s.workers[w])
    ensures w < |Run(s, steps).workers| && Run(s, steps).workers[w] == s.workers[w]
    decreases |steps|
  {
    if steps != [] {
      Persistent(s, steps[0]);
      assert Apply(s, steps[0]).workers[w] == s.workers[w];
      RestingRun(Apply(s, steps[0]), steps[1..], w);
    }
  }

  function StepsLeft(phase: Phase): nat {
    match phase
    case Armed => 5 case Fired => 4 case Computing => 3 case Replying(_) => 2 case Passed(_) => 1 case _ => 0
  }

  lemma {:induction false} LatestWritesMore(s: State, w: nat)
    requires w < |s.workers| && !s.Stale(w) && !Resting(s.workers[w])
    ensures WritesMore(s, w)
    decreases StepsLeft(s.workers[w].phase)
  {
    match s.workers[w].phase
    case Armed => LatestWritesMore(Apply(s, Fire(w)), w); WritesMoreBefore(s, Fire(w), w);
    case Fired => LatestWritesMore(Apply(s, Start(w)), w); WritesMoreBefore(s, Start(w), w);
    case Replying(_) => LatestWritesMore(Apply(s, Check(w)), w); WritesMoreBefore(s, Check(w), w);
    case Computing => WritesNext(s, ComputeFail(w), w);
    case Passed(_) => WritesNext(s, Send(w), w);
    case _ =>
  }

  /**
   A stale request writes another line in some continuation exactly when it is
   computing its diff, which may still fail, or has passed the check of a line.
   */
  lemma StaleWritesExactly(s: State, w: nat)
    requires w < |s.workers| && s.Stale(w)
    ensures WritesMore(s, w) <==> s.workers[w].phase.Computing? || s.workers[w].phase.Passed?
  {
    if s.workers[w].phase.Computing? {
      WritesNext(s, ComputeFail(w), w);
    } else if s.workers[w].phase.Passed? {
      WritesNext(s, Send(w), w);
    } else {
      forall t | Leads(s, t) && w < |t.workers|
        ensures |t.workers[w].lines| <= |s.workers[w].lines|
      {
        var steps :| ValidRun(s, steps) && Run(s, steps) == t;
        StaleRun(s, steps, w);
      }
    }
  }

  /** Any request, whatever it is doing: a stale one as above, another one unless it is at rest. */
  lemma WritesExactly(s: State, w: nat)
    requires w < |s.workers|
    ensures WritesMore(s, w) <==>
      if s.Stale(w) then s.workers[w].phase.Computing? || s.workers[w].phase.Passed? else !Resting(s.workers[w])
  {
    if s.Stale(w) {
      StaleWritesExactly(s, w);
    } else if Resting(s.workers[w]) {
      forall t | Leads(s, t) && w < |t.workers|
        ensures |t.workers[w].lines| <= |s.workers[w].lines|
      {
        var steps :| ValidRun(s, steps) && Run(s, steps) == t;
        RestingRun(s, steps, w);
      }
    } else {
      LatestWritesMore(s, w);
    }
  }

  /** Some continuation lets worker w write a line. */
  ghost predicate Answerable(s: State, w: nat) {
    exists t :: Leads(s, t) && w < |t.workers| && t.workers[w].lines != []
  }

  lemma AnswerableIsWritesMore(s: State, w: nat)
    requires w < |s.workers| && s.workers[w].lines == []
    ensures Answerable(s, w) <==> WritesMore(s, w)
  {
  }

  lemma StaleIsNeverAnswered(s: State, w: nat)
    requires w < |s.workers| && s.Stale(w) && s.workers[w].lines == [] && Owed(s.workers[w]) == 0
    ensures !Answerable(s, w)
  {
    hide Answerable, WritesMore;
    AnswerableIsWritesMore(s, w);
    StaleWritesExactly(s, w);
  }

  lemma CancelledIsNeverAnswered(s: State, w: nat)
    requires w < |s.workers| && s.workers[w].phase.Cancelled? && s.workers[w].lines == []
    ensures !Answerable(s, w)
  {
    hide Answerable, WritesMore;
    AnswerableIsWritesMore(s, w);
    WritesExactly(s, w);
  }

  /** A request at the latest seq of its path that was neither cancelled nor dropped is answered or can be. */
  lemma LatestIsAnswerable(s: State, w: nat)
    requires w < |s.workers| && !s.Stale(w) && WellWritten(s.workers[w])
    requires !s.workers[w].phase.Cancelled? && !s.workers[w].phase.Dropped?
    ensures Answerable(s, w)
  {
    if s.workers[w].lines != [] {
      assert ValidRun(s, []) && Run(s, []) == s;
    } else {
      hide Answerable, WritesMore;
      AnswerableIsWritesMore(s, w);
      LatestWritesMore(s, w);
    }
  }

  // ---------------------------------------------------------------- cancellation

  /**
   After a path cancellation, a request of that path can still write another line
   exactly when it was past the check of that line (or computing, which may
   fail), or when it is the latest of its path, the cancellation names a seq no
   larger than its own (without a seq: the tabled request is older, or nothing is
   tabled and its seq is positive), it is not at rest, and cancel() did not reach
   its timer: the timer had fired, or an older one had evicted its table entry.
   */
  lemma PathCancelWritesExactly(s: State, path: string, n: int, w: nat)
    requires Inv(s) && w < |s.workers| && s.workers[w].req.path == path
    ensures w < |Apply(s, CancelPath(path, n)).workers|
    ensures WritesMore(Apply(s, CancelPath(path, n)), w) <==>
      || s.workers[w].phase.Computing? || s.workers[w].phase.Passed?
      || (&& s.workers[w].req.seqNo == s.Latest(path)
          && (n != 0 ==> n <= s.workers[w].req.seqNo)
          && (n == 0 && path in s.timerRequests ==> s.timerRequests[path].seqNo < s.workers[w].req.seqNo)
          && (n == 0 && path !in s.timerRequests ==> 0 < s.workers[w].req.seqNo)
          && !Resting(s.workers[w])
          && (s.workers[w].phase.Armed? ==> !s.Tabled(w)))
  {
    var t := Apply(s, CancelPath(path, n));
    Persistent(s, CancelPath(path, n));
    WritesExactly(t, w);
    hide WritesMore;
  }

  /** A path cancellation leaves the other paths alone, and so does scheduling. */
  lemma OtherPathsKept(s: State, step: Step, path: string, w: nat)
    requires Inv(s) && w < |s.workers| && s.workers[w].req.path != path
    requires (step.CancelPath? && step.path == path) || (step.Schedule? && step.req.path == path)
    ensures var t := Apply(s, step); var other := s.workers[w].req.path;
      && w < |t.workers| && t.workers[w] == s.workers[w]
      && t.Latest(other) == s.Latest(other)
      && (other in t.timers <==> other in s.timers) && (other in s.timers ==> t.timers[other] == s.timers[other])
  {
  }

  /** For a request that has not started this says whether it can still be answered. */
  lemma PathCancelExact(s: State, path: string, n: int, w: nat)
    requires Inv(s) && w < |s.workers| && s.workers[w].req.path == path && Pending(s.workers[w])
    ensures Answerable(Apply(s, CancelPath(path, n)), w) <==>
      && s.workers[w].req.seqNo == s.Latest(path)
      && (n != 0 ==> n <= s.workers[w].req.seqNo)
      && (n == 0 && path in s.timerRequests ==> s.timerRequests[path].seqNo < s.workers[w].req.seqNo)
      && (n == 0 && path !in s.timerRequests ==> 0 < s.workers[w].req.seqNo)
      && (s.workers[w].phase.Armed? ==> !s.Tabled(w))
  {
    var t := Apply(s, CancelPath(path, n));
    assert s.workers[w].lines == [] && t.workers[w].lines == [];
    hide Answerable, WritesMore, Inv;
    PathCancelWritesExactly(s, path, n, w);
    AnswerableIsWritesMore(t, w);
  }

  /** The latest seq of every path, and the latest review seq, grow over any run. */
  lemma {:induction false} LatestGrowsRun(s: State, steps: seq<Step>, path: string)
    requires ValidRun(s, steps)
    ensures s.Latest(path) <= Run(s, steps).Latest(path)
    decreases |steps|
  {
    if steps != [] {
      LatestGrows(s, steps[0]);
      LatestGrowsRun(Apply(s, steps[0]), steps[1..], path);
    }
  }

  /**
   After a path cancellation of n, no request of the path below n passes another
   check, whether it was scheduled before the cancellation or after; and one that
   was scheduled before writes at most the line it still owed.
   */
  lemma PathCancelStopsOlder(s: State, path: string, n: int, w: nat, t: State)
    requires n != 0 && Leads(Apply(s, CancelPath(path, n)), t)
    requires w < |t.workers| && t.workers[w].req.path == path && t.workers[w].req.seqNo < n
    ensures t.Stale(w)
    ensures forall step | Enabled(t, step) && (step == Start(w) || step == Check(w)) ::
      Apply(t, step).passed == t.passed && Apply(t, step).workers[w].phase.Dropped?
    ensures w < |s.workers| ==> |t.workers[w].lines| <= |s.workers[w].lines| + Owed(s.workers[w])
  {
    var u := Apply(s, CancelPath(path, n));
    assert n <= u.Latest(path);
    var steps :| ValidRun(u, steps) && Run(u, steps) == t;
    LatestGrowsRun(u, steps, path);
    if w < |s.workers| {
      Persistent(s, CancelPath(path, n));
      RequestsStay(u, steps, w);
      StaleRun(u, steps, w);
    }
  }

  lemma {:induction false} RequestsStay(s: State, steps: seq<Step>, w: nat)
    requires ValidRun(s, steps) && w < |s.workers|
    ensures w < |Run(s, steps).workers| && Run(s, steps).workers[w].req == s.workers[w].req
    decreases |steps|
  {
    if steps != [] {
      Persistent(s, steps[0]);
      RequestsStay(Apply(s, steps[0]), steps[1..], w);
    }
  }

  /** In particular, a path cancellation without a seq always stops the tabled request. */
  lemma PathCancelWithoutSeqStopsTabled(s: State, path: string)
    requires Inv(s) && path in s.timers
    ensures !Answerable(Apply(s, CancelPath(path, 0)), s.timers[path])
  {
    PathCancelExact(s, path, 0, s.timers[path]);
  }

  /**
   After a seq-only cancellation of n, a request can still write another line
   exactly when it was past the check of that line (or computing), or when it is
   the latest of its path, not at rest, and, if the request tabled for its path
   is reached, is itself newer than n.
   */
  lemma SeqCancelWritesExactly(s: State, n: int, w: nat)
    requires Inv(s) && w < |s.workers| && n != 0
    ensures w < |Apply(s, CancelSeq(n)).workers|
    ensures var req := s.workers[w].req;
      WritesMore(Apply(s, CancelSeq(n)), w) <==>
        || s.workers[w].phase.Computing? || s.workers[w].phase.Passed?
        || (&& req.seqNo == s.Latest(req.path)
            && !Resting(s.workers[w])
            && (req.path in Hit(s, n, s.timerRequests.Keys) ==> n < req.seqNo))
  {
    var t := Apply(s, CancelSeq(n));
    Persistent(s, CancelSeq(n));
    WritesExactly(t, w);
    hide WritesMore;
  }

  /** For a request that has not started this says whether it can still be answered. */
  lemma SeqCancelExact(s: State, n: int, w: nat)
    requires Inv(s) && w < |s.workers| && Pending(s.workers[w]) && n != 0
    ensures var req := s.workers[w].req;
      Answerable(Apply(s, CancelSeq(n)), w) <==>
        && req.seqNo == s.Latest(req.path)
        && (req.path in Hit(s, n, s.timerRequests.Keys) ==> n < req.seqNo)
  {
    var t := Apply(s, CancelSeq(n));
    assert s.workers[w].lines == [] && t.workers[w].lines == [];
    hide Answerable, WritesMore, Inv;
    SeqCancelWritesExactly(s, n, w);
    AnswerableIsWritesMore(t, w);
  }

  /** Every request tabled at a seq-only cancellation that reaches it is never answered, fired or not. */
  lemma SeqCancelStopsTabled(s: State, n: int, path: string)
    requires Inv(s) && n != 0 && path in s.timers && s.timerRequests[path].seqNo <= n
    ensures !Answerable(Apply(s, CancelSeq(n)), s.timers[path])
  {
    SeqCancelExact(s, n, s.timers[path]);
  }

  /** The lines that a superseded review can still write: the one it is cleared for, and an error. */
  function ReviewOwed(review: Review): nat {
    match review.phase case Cleared => 2 case Working => 1 case Ended => 0
  }

  lemma {:induction false} StaleReviewRun(s: State, steps: seq<Step>, r: nat)
    requires ValidRun(s, steps) && r < |s.reviews| && s.reviews[r].seqNo < s.latestReviewSeq
    ensures var t := Run(s, steps);
      && r < |t.reviews|
      && s.reviews[r].lines <= t.reviews[r].lines
      && t.reviews[r].lines + ReviewOwed(t.reviews[r]) <= s.reviews[r].lines + ReviewOwed(s.reviews[r])
      && (t.reviews[r].phase.Cleared? ==> s.reviews[r].phase.Cleared?)
    decreases |steps|
  {
    if steps != [] {
      Persistent(s, steps[0]);
      LatestGrows(s, steps[0]);
      StaleReviewRun(Apply(s, steps[0]), steps[1..], r);
    }
  }

  /** While the latest review seq is above n, no review up to n becomes cleared. */
  lemma {:induction false} OldReviewsStayUncleared(s: State, steps: seq<Step>, n: int, r: nat)
    requires ValidRun(s, steps) && n < s.latestReviewSeq
    requires r < |Run(s, steps).reviews| && Run(s, steps).reviews[r].seqNo <= n
    ensures n < Run(s, steps).latestReviewSeq
    ensures Run(s, steps).reviews[r].phase.Cleared? ==> r < |s.reviews| && s.reviews[r].phase.Cleared?
    decreases |steps|
  {
    if steps != [] {
      var u := Apply(s, steps[0]);
      Persistent(s, steps[0]);
      LatestGrows(s, steps[0]);
      OldReviewsStayUncleared(u, steps[1..], n, r);
      if r < |u.reviews| {
        ReviewSeqMonotone(u, steps[1..], r);
      }
    }
  }

  /**
   After a seq-only cancellation of n, no review up to n passes another check,
   whether it was begun before the cancellation or after; and one that was begun
   before writes at most what it was cleared for and an error.
   */
  lemma SeqCancelStopsReviews(s: State, n: int, r: nat, t: State)
    requires n != 0 && Leads(Apply(s, CancelSeq(n)), t)
    requires r < |t.reviews| && t.reviews[r].seqNo <= n
    ensures t.reviews[r].phase.Cleared? ==> r < |s.reviews| && s.reviews[r].phase.Cleared?
    ensures t.reviews[r].phase.Working? ==> Apply(t, ReviewCheck(r)).reviews[r].phase.Ended?
    ensures r < |s.reviews| ==> t.reviews[r].lines <= s.reviews[r].lines + ReviewOwed(s.reviews[r])
  {
    var u := Apply(s, CancelSeq(n));
    var steps :| ValidRun(u, steps) && Run(u, steps) == t;
    OldReviewsStayUncleared(u, steps, n, r);
    if r < |s.reviews| {
      ReviewSeqMonotone(u, steps, r);
      StaleReviewRun(u, steps, r);
    }
  }

  lemma {:induction false} ReviewSeqMonotone(s: State, steps: seq<Step>, r: nat)
    requires ValidRun(s, steps) && r < |s.reviews|
    ensures var t := Run(s, steps);
      && r < |t.reviews| && t.reviews[r].seqNo == s.reviews[r].seqNo
      && s.latestReviewSeq <= t.latestReviewSeq
    decreases |steps|
  {
    if steps != [] {
      Persistent(s, steps[0]);
      LatestGrows(s, steps[0]);
      ReviewSeqMonotone(Apply(s, steps[0]), steps[1..], r);
    }
  }

  // ---------------------------------------------------------------- shutdown

  /**
   After a shutdown the tables are empty, and a request can write another line
   exactly when it could before and was not a tabled timer still waiting.
   */
  lemma StopWritesExactly(s: State, w: nat)
    requires w < |s.workers|
    ensures var t := Apply(s, Stop);
      && t.timers == map[] && t.timerRequests == map[] && w < |t.workers|
      && (WritesMore(t, w) <==> WritesMore(s, w) && !(s.workers[w].phase.Armed? && s.Tabled(w)))
  {
    WritesExactly(s, w);
    WritesExactly(Apply(s, Stop), w);
    hide WritesMore;
  }

  /** A cancellation that names neither a path nor a seq changes nothing. */
  lemma EmptyCancelDoesNothing(s: State)
    ensures Apply(s, CancelSeq(0)) == s
  {
  }

  // ---------------------------------------------------------------- answers

  /** Some continuation leaves worker w as `after`. */
  ghost predicate CanBecome(s: State, w: nat, after: Worker)
    requires w < |s.workers|
  {
    exists t :: Leads(s, t) && w < |t.workers| && t.workers[w] == after
  }

  lemma BecomesNext(s: State, step: Step, w: nat, after: Worker)
    requires Enabled(s, step) && w < |s.workers| && w < |Apply(s, step).workers| && CanBecome(Apply(s, step), w, after)
    ensures CanBecome(s, w, after)
  {
    var t :| Leads(Apply(s, step), t) && w < |t.workers| && t.workers[w] == after;
    var steps :| ValidRun(Apply(s, step), steps) && Run(Apply(s, step), steps) == t;
    assert ([step] + steps)[1..] == steps;
    assert ValidRun(s, [step] + steps) && Run(s, [step] + steps) == t;
  }

  function EventsUpTo(n: nat): seq<Line> {
    seq(n, i requires 0 <= i < n => Event(i))
  }

  /** The complete answer: every change in order and a done line, or the one diff. */
  function FullAnswer(stream: bool, changes: nat): seq<Line> {
    if stream then EventsUpTo(changes) + [Done] else [Diff]
  }

  lemma {:induction false} AnswerGoesOn(s: State, w: nat)
    requires w < |s.workers| && !s.Stale(w) && WellWritten(s.workers[w]) && s.workers[w].phase.Replying?
    ensures var worker := s.workers[w];
      CanBecome(s, w, worker.(phase := Finished, lines := FullAnswer(worker.req.stream, worker.changes)))
    decreases s.workers[w].Total() - s.workers[w].phase.next
  {
    var worker := s.workers[w];
    var next := worker.phase.next;
    var checked := Apply(s, Check(w));
    var sent := Apply(checked, Send(w));
    var after := worker.(phase := Finished, lines := FullAnswer(worker.req.stream, worker.changes));
    WriteKeepsWellWritten(checked.workers[w]);
    if next + 1 < worker.Total() {
      AnswerGoesOn(sent, w);
    } else {
      assert ValidRun(sent, []) && Run(sent, []) == sent;
      assert sent.workers[w] == after;
    }
    assert Enabled(s, Check(w)) && Enabled(checked, Send(w)) && CanBecome(sent, w, after);
    hide *;
    BecomesNext(checked, Send(w), w, after);
    BecomesNext(s, Check(w), w, after);
  }

  /**
   A request at the latest seq of its path that has not written anything can be
   answered completely, whatever diff is computed for it: a stream sends one event
   for every change, in order, and its done line; the other form sends its diff.
   */
  lemma LatestIsAnsweredFully(s: State, w: nat, changes: nat)
    requires w < |s.workers| && !s.Stale(w)
    requires s.workers[w].lines == []
    requires s.workers[w].phase.Armed? || s.workers[w].phase.Fired? || s.workers[w].phase.Computing?
    ensures var req := s.workers[w].req;
      CanBecome(s, w, Worker(req, Finished, changes, FullAnswer(req.stream, changes)))
    decreases StepsLeft(s.workers[w].phase)
  {
    var step := match s.workers[w].phase case Armed => Fire(w) case Fired => Start(w) case _ => Compute(w, changes);
    var t := Apply(s, step);
    if step.Compute? {
      AnswerGoesOn(t, w);
    } else {
      LatestIsAnsweredFully(t, w, changes);
    }
    var req := s.workers[w].req;
    hide CanBecome;
    BecomesNext(s, step, w, Worker(req, Finished, changes, FullAnswer(req.stream, changes)));
  }

  // ---------------------------------------------------------------- reviews

  /** A working review passes its check exactly when its seq is the latest review seq. */
  lemma ReviewClearedIffLatest(s: State, r: nat)
    requires Inv(s) && r < |s.reviews| && s.reviews[r].phase.Working?
    ensures var t := Apply(s, ReviewCheck(r));
      && r < |t.reviews|
      && t.reviews[r].phase == (if s.reviews[r].seqNo == s.latestReviewSeq then Cleared else Ended)
      && t.reviews[r].lines == s.reviews[r].lines
  {
  }

  /** Some continuation clears review r to write. */
  ghost predicate Clearable(s: State, r: nat) {
    exists t :: Leads(s, t) && r < |t.reviews| && t.reviews[r].phase.Cleared?
  }

  lemma {:induction false} EndedReviewRun(s: State, steps: seq<Step>, r: nat)
    requires ValidRun(s, steps) && r < |s.reviews| && s.reviews[r].phase.Ended?
    ensures r < |Run(s, steps).reviews| && Run(s, steps).reviews[r] == s.reviews[r]
    decreases |steps|
  {
    if steps != [] {
      Persistent(s, steps[0]);
      assert Apply(s, steps[0]).reviews[r] == s.reviews[r];
      EndedReviewRun(Apply(s, steps[0]), steps[1..], r);
    }
  }

  /**
   In a state of the invariant a review can be cleared to write, now or in some
   continuation, exactly when it is cleared, or working at the latest review seq.
   */
  lemma ClearableExactly(s: State, r: nat)
    requires r < |s.reviews| && s.reviews[r].seqNo <= s.latestReviewSeq
    ensures Clearable(s, r) <==>
      s.reviews[r].phase.Cleared? || (s.reviews[r].phase.Working? && s.reviews[r].seqNo == s.latestReviewSeq)
  {
    if s.reviews[r].phase.Cleared? {
      assert ValidRun(s, []) && Run(s, []) == s;
    } else if s.reviews[r].phase.Working? && s.reviews[r].seqNo == s.latestReviewSeq {
      var t := Apply(s, ReviewCheck(r));
      assert ([ReviewCheck(r)])[1..] == [];
      assert ValidRun(t, []) && Run(t, []) == t;
      assert ValidRun(s, [ReviewCheck(r)]) && Run(s, [ReviewCheck(r)]) == t;
    } else {
      forall t | Leads(s, t) && r < |t.reviews| ensures !t.reviews[r].phase.Cleared? {
        var steps :| ValidRun(s, steps) && Run(s, steps) == t;
        if s.reviews[r].phase.Ended? {
          EndedReviewRun(s, steps, r);
        } else {
          ReviewSeqMonotone(s, steps, r);
          OldReviewsStayUncleared(s, steps, s.reviews[r].seqNo, r);
        }
      }
    }
  }

  /**
   After a seq-only cancellation of n, a review can still be cleared exactly when
   it already was, or is working at the latest review seq and above n.
   */
  lemma SeqCancelReviewExact(s: State, n: int, r: nat)
    requires Inv(s) && n != 0 && r < |s.reviews|
    ensures Clearable(Apply(s, CancelSeq(n)), r) <==>
      || s.reviews[r].phase.Cleared?
      || (s.reviews[r].phase.Working? && s.reviews[r].seqNo == s.latestReviewSeq && n < s.reviews[r].seqNo)
  {
    ClearableExactly(Apply(s, CancelSeq(n)), r);
    hide Clearable;
  }

  /** How many of the files of a review give an event. */
  function Count(files: seq<bool>): nat {
    if files == [] then 0 else (if files[0] then 1 else 0) + Count(files[1..])
  }

  /**
   A working review at the latest review seq can be completed over any files: one
   line for each that gives an event, none for the others, and the result.
   */
  lemma {:induction false} LatestReviewIsPublished(s: State, r: nat, files: seq<bool>) returns (steps: seq<Step>)
    requires r < |s.reviews| && s.reviews[r].phase.Working? && s.reviews[r].seqNo == s.latestReviewSeq
    ensures ValidRun(s, steps) && |steps| == 2 * |files| + 2
    ensures Run(s, steps) ==
      s.PutReview(r, s.reviews[r].(phase := Ended, lines := s.reviews[r].lines + Count(files) + 1))
    decreases |files|
  {
    var step := if files == [] then ReviewSend(r, true) else if files[0] then ReviewSend(r, false) else ReviewSkip(r);
    var next := CheckedThen(s, r, step);
    var rest: seq<Step> := [];
    assert ValidRun(next, rest) && Run(next, rest) == next;
    assert Count(files) == if files == [] then 0 else (if files[0] then 1 else 0) + Count(files[1..]);
    hide *;
    if files != [] {
      rest := LatestReviewIsPublished(next, r, files[1..]);
      PutTwice(s, r, next.reviews[r], next.reviews[r].(
        phase := Ended, lines := next.reviews[r].lines + Count(files[1..]) + 1));
    }
    TwoStepsThen(s, ReviewCheck(r), step, rest);
    steps := [ReviewCheck(r), step] + rest;
  }

  lemma PutTwice(s: State, r: nat, a: Review, b: Review)
    requires r < |s.reviews|
    ensures s.PutReview(r, a).PutReview(r, b) == s.PutReview(r, b)
  {
  }

  lemma TwoStepsThen(s: State, a: Step, b: Step, rest: seq<Step>)
    requires Enabled(s, a) && Enabled(Apply(s, a), b) && ValidRun(Apply(Apply(s, a), b), rest)
    ensures ValidRun(s, [a, b] + rest) && Run(s, [a, b] + rest) == Run(Apply(Apply(s, a), b), rest)
  {
    hide Apply, Enabled;
    var steps := [a, b] + rest;
    assert steps[1..] == [b] + rest && ([b] + rest)[1..] == rest;
  }

  /** A latest review passes its check and takes the step that the file calls for. */
  lemma CheckedThen(s: State, r: nat, step: Step) returns (next: State)
    requires r < |s.reviews| && s.reviews[r].phase.Working? && s.reviews[r].seqNo == s.latestReviewSeq
    requires step in {ReviewSend(r, true), ReviewSend(r, false), ReviewSkip(r)}
    ensures Enabled(s, ReviewCheck(r)) && Enabled(Apply(s, ReviewCheck(r)), step)
    ensures next == Apply(Apply(s, ReviewCheck(r)), step)
    ensures next == s.PutReview(r, s.reviews[r].(
      phase := if step == ReviewSend(r, true) then Ended else Working,
      lines := s.reviews[r].lines + if step == ReviewSkip(r) then 0 else 1))
    ensures r < |next.reviews| && next.latestReviewSeq == s.latestReviewSeq
    ensures next.reviews[r].lines == s.reviews[r].lines + if step == ReviewSkip(r) then 0 else 1
    ensures next.reviews[r].seqNo == s.reviews[r].seqNo
    ensures next.reviews[r].phase == if step == ReviewSend(r, true) then Ended else Working
  {
    next := Apply(Apply(s, ReviewCheck(r)), step);
  }

  /** A failing review reports one error line and ends. */
  lemma FailingReviewReports(s: State, r: nat)
    requires r < |s.reviews| && !s.reviews[r].phase.Ended?
    ensures Apply(s, ReviewFail(r)) == s.PutReview(r, Review(s.reviews[r].seqNo, Ended, s.reviews[r].lines + 1))
  {
  }

  // ---------------------------------------------------------------- what every run shows

  /** Every request that has ended its work, in any run, was answered fully, or got some of its
    * events in order and an error.
    */
  lemma FinishedAnswer(s: State, w: nat)
    requires Inv(s) && w < |s.workers| && s.workers[w].phase == Finished
    ensures var worker := s.workers[w];
      || worker.lines == FullAnswer(worker.req.stream, worker.changes)
      || exists n: nat :: worker.lines == EventsUpTo(n) + [Error]
  {
    var worker := s.workers[w];
    var n := |worker.lines| - 1;
    assert WellWritten(worker);
    assert worker.lines == worker.lines[..n] + [worker.lines[n]];
    assert worker.lines[..n] == EventsUpTo(n);
    if worker.lines[n] == Diff {
      assert EventsUpTo(0) == [];
    }
  }

  /** The checks that requests of one path pass are passed in the order of their seqs. */
  lemma PassesInOrder(s: State, i: nat, j: nat)
    requires Inv(s) && i < j < |s.passed| && s.passed[i].path == s.passed[j].path
    ensures s.passed[i].seqNo <= s.passed[j].seqNo <= s.Latest(s.passed[j].path)
  {
  }

  /** A connection is admitted exactly while fewer than four handlers run, and each gives its place back. */
  lemma ClientsExactly(s: State)
    requires Inv(s)
    ensures 0 <= s.clientCount <= 4 && s.clientCount == s.handlers
    ensures Apply(s, Accept) ==
      if s.handlers < 4 then s.(clientCount := s.clientCount + 1, handlers := s.handlers + 1) else s
    ensures Enabled(s, HandlerExit) <==> s.handlers != 0
    ensures s.handlers != 0 ==>
      Apply(s, HandlerExit) == s.(clientCount := s.clientCount - 1, handlers := s.handlers - 1)
  {
  }

  /** The first request of a path, and the first review, of a server that has done nothing yet are
    * current exactly when their seq is not negative.
    */
  lemma FirstIsCurrent(req: Request, n: int)
    ensures var s := Apply(Init, Schedule(req)); |s.workers| == 1 && (s.Stale(0) <==> req.seqNo < 0)
    ensures var s := Apply(Init, ReviewBegin(n));
      s.reviews == [Review(n, Working, 0)] && (Apply(s, ReviewCheck(0)).reviews[0].phase.Cleared? <==> n >= 0)
    ensures Inv(Init)
  {
  }

  /** A review begins with nothing written, at the latest review seq or behind it. */
  lemma ReviewBeginsFresh(s: State, n: int)
    ensures var t := Apply(s, ReviewBegin(n));
      && t.reviews == s.reviews + [Review(n, Working, 0)]
      && (t.latestReviewSeq == n <==> s.latestReviewSeq <= n)
      && (n < s.latestReviewSeq ==> t.latestReviewSeq == s.latestReviewSeq)
  {
  }

  // ---------------------------------------------------------------- no lost update

  /** Worker w is the most recently scheduled request of its path. */
  predicate Last(s: State, w: nat) {
    w < |s.workers| &&
    forall v :: w < v < |s.workers| ==> s.workers[v].req.path != s.workers[w].req.path
  }

  /** Its seq is not negative and not below any request scheduled for its path before it. */
  predicate Newest(s: State, w: nat)
    requires w < |s.workers|
  {
    && 0 <= s.workers[w].req.seqNo
    && (forall v :: 0 <= v < w && s.workers[v].req.path == s.workers[w].req.path ==>
      s.workers[v].req.seqNo <= s.workers[w].req.seqNo)
  }

  /** The latest seq of a path is that of one of its requests, or the default 0. */
  ghost predicate LatestAttained(s: State) {
    forall p :: 0 <= s.Latest(p) && (s.Latest(p) == 0 || AttainedBy(s, p))
  }

  predicate AttainedBy(s: State, p: string) {
    exists v :: 0 <= v < |s.workers| && s.workers[v].req.path == p && s.workers[v].req.seqNo == s.Latest(p)
  }

  /** What holds of the most recent request of a path while nobody cancels. */
  predicate SafeAt(s: State, w: nat) {
    && w < |s.workers|
    && var worker := s.workers[w];
    && (worker.req.path in s.timers ==> s.timers[worker.req.path] == w)
    && !worker.phase.Cancelled?
    && (if s.Stale(w) then worker.lines == [] && (Pending(worker) || worker.phase.Dropped?)
        else !worker.phase.Dropped?)
  }

  ghost predicate LastIsSafe(s: State) {
    forall w: nat :: Last(s, w) ==> SafeAt(s, w)
  }

  lemma LatestAttainedStep(s: State, step: Step)
    requires Enabled(s, step) && step.Ordinary() && LatestAttained(s)
    ensures LatestAttained(Apply(s, step))
  {
    var t := Apply(s, step);
    Persistent(s, step);
    LatestGrows(s, step);
    forall p
      ensures 0 <= t.Latest(p) && (t.Latest(p) == 0 || AttainedBy(t, p))
    {
      if t.Latest(p) == s.Latest(p) {
        if s.Latest(p) != 0 {
          var v :| 0 <= v < |s.workers| && s.workers[v].req.path == p && s.workers[v].req.seqNo == s.Latest(p);
          assert t.workers[v].req == s.workers[v].req;
        }
      } else {
        assert t.workers[|s.workers|].req.path == p;
      }
    }
  }

  lemma ScheduleSafeAt(s: State, req: Request, w: nat)
    requires TablesAgree(s) && w < |s.workers| && SafeAt(s, w) && s.workers[w].req.path != req.path
    ensures SafeAt(ApplySchedule(s, req), w)
  {
    assert ApplySchedule(s, req).workers[w] == s.workers[w];
  }

  lemma StartSafeAt(s: State, v: nat, w: nat)
    requires v < |s.workers| && s.workers[v].phase.Fired?
    requires w < |s.workers| && SafeAt(s, w) && WellWritten(s.workers[w])
    ensures SafeAt(ApplyStart(s, v), w)
  {
  }

  lemma PutSafeAt(s: State, v: nat, worker: Worker, w: nat)
    requires v < |s.workers| && w < |s.workers| && SafeAt(s, w) && worker.req == s.workers[v].req
    requires v == w ==> !worker.phase.Cancelled? && !worker.phase.Dropped?
    requires v == w && s.Stale(w) ==> worker.lines == [] && Pending(worker)
    ensures SafeAt(s.Put(v, worker), w)
  {
  }

  lemma CheckSafeAt(s: State, v: nat, w: nat)
    requires v < |s.workers| && s.workers[v].phase.Replying?
    requires w < |s.workers| && SafeAt(s, w)
    ensures SafeAt(ApplyCheck(s, v), w)
  {
  }

  lemma SafeAtStep(s: State, step: Step, w: nat)
    requires Enabled(s, step) && step.Ordinary() && TablesAgree(s)
    requires w < |s.workers| && SafeAt(s, w) && WellWritten(s.workers[w]) && Last(Apply(s, step), w)
    ensures SafeAt(Apply(s, step), w)
  {
    hide TablesAgree, WellWritten;
    var t := Apply(s, step);
    match step
    case Schedule(req) =>
      assert t.workers[|s.workers|].req == req;
      ScheduleSafeAt(s, req, w);
    case Fire(v) => PutSafeAt(s, v, t.workers[v], w);
    case Start(v) => StartSafeAt(s, v, w);
    case Compute(v, _) => PutSafeAt(s, v, t.workers[v], w);
    case ComputeFail(v) => PutSafeAt(s, v, t.workers[v], w);
    case Check(v) => CheckSafeAt(s, v, w);
    case Send(v) => PutSafeAt(s, v, t.workers[v], w);
    case SendFail(v) => PutSafeAt(s, v, t.workers[v], w);
    case _ =>
  }

  lemma LastBefore(s: State, step: Step, w: nat)
    requires Enabled(s, step) && Last(Apply(s, step), w) && w < |s.workers|
    ensures Last(s, w)
  {
    Persistent(s, step);
    forall v | w < v < |s.workers|
      ensures s.workers[v].req.path != s.workers[w].req.path
    {
      assert Apply(s, step).workers[v].req == s.workers[v].req;
    }
  }

  lemma NewIsSafe(s: State, step: Step, w: nat)
    requires Enabled(s, step) && |s.workers| <= w < |Apply(s, step).workers|
    ensures SafeAt(Apply(s, step), w)
  {
    assert step.Schedule?;
  }

  lemma LastIsSafeStep(s: State, step: Step)
    requires Enabled(s, step) && step.Ordinary() && TablesAgree(s) && AllWellWritten(s.workers) && LastIsSafe(s)
    ensures LastIsSafe(Apply(s, step))
  {
    hide TablesAgree, WellWritten, Apply, SafeAt;
    forall w: nat | Last(Apply(s, step), w)
      ensures SafeAt(Apply(s, step), w)
    {
      if w < |s.workers| {
        LastBefore(s, step, w);
        SafeAtStep(s, step, w);
      } else {
        NewIsSafe(s, step, w);
      }
    }
  }

  lemma {:induction false} OrdinaryRun(s: State, steps: seq<Step>)
    requires ValidRun(s, steps) && AllOrdinary(steps)
    requires Inv(s) && LatestAttained(s) && LastIsSafe(s)
    ensures Inv(Run(s, steps)) && LatestAttained(Run(s, steps)) && LastIsSafe(Run(s, steps))
    decreases |steps|
  {
    if steps != [] {
      assert steps[0].Ordinary();
      InvStep(s, steps[0]);
      hide TablesAgree, NothingAhead, PassesOrdered, AllWellWritten, LatestAttained, LastIsSafe, Apply;
      LatestAttainedStep(s, steps[0]);
      LastIsSafeStep(s, steps[0]);
      OrdinaryRun(Apply(s, steps[0]), steps[1..]);
    }
  }

  /**
   No lost update.  Without cancellation or shutdown, the most recently scheduled
   request of a path can still be answered (or has been) exactly when its seq is
   not negative and not below an earlier seq of the path; it is then never
   cancelled or dropped, even if a late timer evicted its table entry.
   */
  lemma NoLostUpdate(s: State, w: nat)
    requires OrdinarilyLeads(Init, s) && Last(s, w)
    ensures Newest(s, w) <==> Answerable(s, w)
    ensures Newest(s, w) ==> !s.workers[w].phase.Cancelled? && !s.workers[w].phase.Dropped?
  {
    var steps :| ValidRun(Init, steps) && AllOrdinary(steps) && Run(Init, steps) == s;
    OrdinaryRun(Init, steps);
    var path := s.workers[w].req.path;
    if Newest(s, w) {
      if AttainedBy(s, path) {
        var v :| 0 <= v < |s.workers| && s.workers[v].req.path == path && s.workers[v].req.seqNo == s.Latest(path);
        assert v <= w;
      }
      assert !s.Stale(w);
      LatestIsAnswerable(s, w);
    } else {
      assert s.Stale(w);
      StaleIsNeverAnswered(s, w);
    }
  }

  // ---------------------------------------------------------------- runs that show the limits

  lemma OrdinaryInv(s: State)
    requires OrdinarilyLeads(Init, s)
    ensures Inv(s)
  {
    var steps :| ValidRun(Init, steps) && AllOrdinary(steps) && Run(Init, steps) == s;
    InvRun(Init, steps);
  }

  lemma Then(s: State, step: Step) returns (t: State)
    requires OrdinarilyLeads(Init, s) && Enabled(s, step) && step.Ordinary()
    ensures t == Apply(s, step) && OrdinarilyLeads(Init, t)
  {
    t := Apply(s, step);
    LeadsThen(Init, s, step);
  }

  lemma EvictingRun(path: string) returns (s: State)
    ensures OrdinarilyLeads(Init, s)
    ensures s.timers == map[] && s.timerRequests == map[] && s.latestSeq == map[path := 2]
    ensures |s.workers| == 2 && s.workers[1] == Worker(Request(path, 2, false), Armed, 0, [])
  {
    OrdinarilyLeadsToItself(Init);
    hide OrdinarilyLeads;
    s := Then(Init, Schedule(Request(path, 1, false)));
    s := Then(s, Fire(0));
    s := Then(s, Schedule(Request(path, 2, false)));
    s := Then(s, Start(0));
  }

  /**
   A late timer evicts the entry of a newer one: the newer request stays armed
   outside the table, and neither a path cancellation without a seq nor a
   seq-only cancellation of its own seq stops it.
   */
  lemma EvictedTimerEscapesCancellation(path: string) returns (s: State)
    ensures OrdinarilyLeads(Init, s)
    ensures |s.workers| == 2 && s.workers[1].req == Request(path, 2, false)
    ensures s.workers[1].phase.Armed? && !s.Tabled(1)
    ensures Answerable(Apply(s, CancelPath(path, 0)), 1)
    ensures Answerable(Apply(s, CancelSeq(2)), 1)
  {
    s := EvictingRun(path);
    OrdinaryInv(s);
    PathCancelExact(s, path, 0, 1);
    SeqCancelExact(s, 2, 1);
  }

  /** A path cancellation that names the seq of a fired request does not stop it. */
  lemma PathCancelMissesFiredRequest(path: string, n: int) returns (s: State)
    requires n > 0
    ensures OrdinarilyLeads(Init, s) && path in s.timers && path in s.timerRequests
    ensures s.timerRequests[path].seqNo == n
    ensures Answerable(Apply(s, CancelPath(path, n)), s.timers[path])
  {
    OrdinarilyLeadsToItself(Init);
    hide OrdinarilyLeads;
    s := Then(Init, Schedule(Request(path, n, false)));
    s := Then(s, Fire(0));
    OrdinaryInv(s);
    hide Inv;
    PathCancelExact(s, path, n, 0);
  }

  /** An armed request that runs alone is computed. */
  lemma RunToReplying(s: State, w: nat) returns (t: State)
    requires OrdinarilyLeads(Init, s)
    requires w < |s.workers| && s.workers[w].phase.Armed? && !s.Stale(w)
    ensures OrdinarilyLeads(Init, t)
    ensures t.latestSeq == s.latestSeq
    ensures t.workers == s.workers[w := s.workers[w].(phase := Replying(0), changes := 0)]
  {
    hide OrdinarilyLeads;
    t := Then(s, Fire(w));
    t := Then(t, Start(w));
    t := Then(t, Compute(w, 0));
  }

  /**
   The check and the write are not one step: a reachable state in which a newer
   request is answered and an older one, stale but past its check, can still write.
   */
  lemma OlderLineCanFollowNewer(path: string) returns (s: State)
    ensures OrdinarilyLeads(Init, s) && |s.workers| == 2
    ensures s.Stale(0) && WritesMore(s, 0)
    ensures s.workers[0].req == Request(path, 1, false) && s.workers[0].lines == []
    ensures s.workers[1].req == Request(path, 2, false) && s.workers[1].lines == [Diff]
    ensures Enabled(s, Send(0)) && Apply(s, Send(0)).workers[0].lines == [Diff]
  {
    OrdinarilyLeadsToItself(Init);
    hide OrdinarilyLeads;
    s := Then(Init, Schedule(Request(path, 1, false)));
    s := RunToReplying(s, 0);
    s := Then(s, Check(0));
    s := Then(s, Schedule(Request(path, 2, false)));
    s := RunToReplying(s, 1);
    s := Then(s, Check(1));
    s := Then(s, Send(1));
    hide WritesMore;
    StaleWritesExactly(s, 0);
  }
}
