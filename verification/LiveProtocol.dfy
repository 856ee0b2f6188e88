/**
 The debounce, supersede and cancel protocol of the live server, as a step
 system.  Every locked block of the server and every unlocked action of one of
 its threads is one atomic step, so a run is any interleaving of them.

 A diff request becomes a worker: its debounce timer first, the diff it computes
 afterwards.  Workers are numbered in the order in which they were scheduled.
 A timer that has passed its wait (`Fired`) can no longer be cancelled, and the
 worker that starts evicts the table entry of its path whoever that entry
 belongs to; what holds in every run is therefore stated through the sequence
 numbers, not through the tables.
 */
module LiveProtocol {
  import opened Common

  const MAX_CLIENTS: nat := 4

  /** What the protocol looks at in a parsed request; `stream` is the resolved setting. */
  datatype Request = Request(path: string, seqNo: int, stream: bool)

  datatype Phase =
    | Armed                // the timer is waiting; cancel() still works
    | Fired                // past the wait, not yet in the locked block; cancel() does nothing
    | Cancelled            // cancelled while it was waiting
    | Computing            // passed the entry check
    | Replying(next: nat)  // about to check before writing line `next`
    | Passed(next: nat)    // that check passed, the line is not yet written
    | Dropped              // found stale
    | Finished             // wrote its last line

  datatype Line = Event(index: nat) | Done | Diff | Error

  /** `changes` is the number of changes of the computed diff. */
  datatype Worker = Worker(req: Request, phase: Phase, changes: nat, lines: seq<Line>) {
    function Total(): nat { if req.stream then changes + 1 else 1 }

    function LineAt(i: nat): Line {
      if !req.stream then Diff else if i == changes then Done else Event(i)
    }

    function Cancel(): Worker { if phase.Armed? then this.(phase := Cancelled) else this }
  }

  datatype ReviewPhase = Working | Cleared | Ended

  /** A review runs on its client's thread; `lines` counts what it has written. */
  datatype Review = Review(seqNo: int, phase: ReviewPhase, lines: nat)

  /** A staleness check that a diff request has passed. */
  datatype Pass = Pass(path: string, seqNo: int)

  /**
   The fields of the server, followed by what its threads have done: the workers,
   the reviews, the accepted handlers still running, and the log of passed checks.
   */
  datatype State = State(
    timers: map<string, nat>,
    timerRequests: map<string, Request>,
    latestSeq: map<string, int>,
    latestReviewSeq: int,
    clientCount: int,
    workers: seq<Worker>,
    reviews: seq<Review>,
    handlers: nat,
    passed: seq<Pass>)
  {
    function Latest(path: string): int { if path in latestSeq then latestSeq[path] else 0 }

    predicate Stale(w: nat) requires w < |workers| {
      workers[w].req.seqNo < Latest(workers[w].req.path)
    }

    /** Worker w is the one that the timer table names for its path. */
    predicate Tabled(w: nat) requires w < |workers| {
      workers[w].req.path in timers && timers[workers[w].req.path] == w
    }

    function Put(w: nat, worker: Worker): State requires w < |workers| {
      this.(workers := workers[w := worker])
    }

    function PutReview(r: nat, review: Review): State requires r < |reviews| {
      this.(reviews := reviews[r := review])
    }
  }

  const Init := State(map[], map[], map[], 0, 0, [], [], 0, [])

  datatype Step =
    | Schedule(req: Request)
    | Fire(w: nat)
    | Start(w: nat)
    | Compute(w: nat, changes: nat)
    | ComputeFail(w: nat)
    | Check(w: nat)
    | Send(w: nat)
    | SendFail(w: nat)
    | CancelPath(path: string, n: int)
    | CancelSeq(n: int)
    | Stop
    | ReviewBegin(n: int)
    | ReviewCheck(r: nat)
    | ReviewSkip(r: nat)
    | ReviewSend(r: nat, last: bool)
    | ReviewFail(r: nat)
    | Accept
    | HandlerExit
  {
    /** The steps other than a client's cancellation and the server's shutdown. */
    predicate Ordinary() { !CancelPath? && !CancelSeq? && !Stop? }
  }

  predicate Enabled(s: State, step: Step) {
    match step
    case Fire(w) => w < |s.workers| && s.workers[w].phase.Armed?
    case Start(w) => w < |s.workers| && s.workers[w].phase.Fired?
    case Compute(w, _) => w < |s.workers| && s.workers[w].phase.Computing?
    case ComputeFail(w) => w < |s.workers| && s.workers[w].phase.Computing?
    case Check(w) => w < |s.workers| && s.workers[w].phase.Replying?
    case Send(w) => w < |s.workers| && s.workers[w].phase.Passed?
    case SendFail(w) => w < |s.workers| && s.workers[w].phase.Passed?
    case ReviewCheck(r) => r < |s.reviews| && s.reviews[r].phase.Working?
    case ReviewSkip(r) => r < |s.reviews| && s.reviews[r].phase.Cleared?
    case ReviewSend(r, _) => r < |s.reviews| && s.reviews[r].phase.Cleared?
    case ReviewFail(r) => r < |s.reviews| && !s.reviews[r].phase.Ended?
    case HandlerExit => s.handlers > 0
    case _ => true
  }

  function Apply(s: State, step: Step): State
    requires Enabled(s, step)
  {
    match step
    case Schedule(req) => ApplySchedule(s, req)
    case Fire(w) => s.Put(w, s.workers[w].(phase := Fired))
    case Start(w) => ApplyStart(s, w)
    case Compute(w, n) => s.Put(w, s.workers[w].(phase := Replying(0), changes := n))
    case ComputeFail(w) => s.Put(w, Fail(s.workers[w]))
    case Check(w) => ApplyCheck(s, w)
    case Send(w) => s.Put(w, Write(s.workers[w]))
    case SendFail(w) => s.Put(w, Fail(s.workers[w]))
    case CancelPath(path, n) => ApplyCancelPath(s, path, n)
    case CancelSeq(n) => ApplyCancelSeq(s, n)
    case Stop =>
      s.(workers := CancelAll(s, s.timers.Keys), timers := map[], timerRequests := map[])
    case ReviewBegin(n) =>
      s.(latestReviewSeq := Max(s.latestReviewSeq, n), reviews := s.reviews + [Review(n, Working, 0)])
    case ReviewCheck(r) =>
      s.PutReview(r, s.reviews[r].(phase := if s.reviews[r].seqNo < s.latestReviewSeq then Ended else Cleared))
    case ReviewSkip(r) => s.PutReview(r, s.reviews[r].(phase := Working))
    case ReviewSend(r, last) =>
      s.PutReview(r, s.reviews[r].(phase := if last then Ended else Working, lines := s.reviews[r].lines + 1))
    case ReviewFail(r) => s.PutReview(r, s.reviews[r].(phase := Ended, lines := s.reviews[r].lines + 1))
    case Accept =>
      if s.clientCount >= MAX_CLIENTS then s
      else s.(clientCount := s.clientCount + 1, handlers := s.handlers + 1)
    case HandlerExit => s.(clientCount := Max(0, s.clientCount - 1), handlers := s.handlers - 1)
  }

  /** An exception while computing or writing is reported without a staleness check. */
  function Fail(worker: Worker): Worker {
    worker.(phase := Finished, lines := worker.lines + [Error])
  }

  function Write(worker: Worker): Worker
    requires worker.phase.Passed?
  {
    var next := worker.phase.next;
    worker.(
      lines := worker.lines + [worker.LineAt(next)],
      phase := if next + 1 < worker.Total() then Replying(next + 1) else Finished)
  }

  /** Pops the entries of a path and cancels the timer popped. */
  function PopTimer(s: State, path: string): State {
    s.(workers := if path in s.timers && s.timers[path] < |s.workers|
         then s.workers[s.timers[path] := s.workers[s.timers[path]].Cancel()]
         else s.workers,
       timers := s.timers - {path},
       timerRequests := s.timerRequests - {path})
  }

  function ApplySchedule(s: State, req: Request): State {
    var popped := PopTimer(s, req.path);
    popped.(
      latestSeq := s.latestSeq[req.path := Max(s.Latest(req.path), req.seqNo)],
      timers := popped.timers[req.path := |s.workers|],
      timerRequests := popped.timerRequests[req.path := req],
      workers := popped.workers + [Worker(req, Armed, 0, [])])
  }

  /** The locked block of _run_diff, which pops the entry of the path unconditionally. */
  function ApplyStart(s: State, w: nat): State
    requires w < |s.workers|
  {
    var req := s.workers[w].req;
    var popped := s.(timers := s.timers - {req.path}, timerRequests := s.timerRequests - {req.path});
    if s.Stale(w) then popped.Put(w, s.workers[w].(phase := Dropped))
    else popped.(passed := s.passed + [Pass(req.path, req.seqNo)]).Put(w, s.workers[w].(phase := Computing))
  }

  function ApplyCheck(s: State, w: nat): State
    requires w < |s.workers| && s.workers[w].phase.Replying?
  {
    var req := s.workers[w].req;
    if s.Stale(w) then s.Put(w, s.workers[w].(phase := Dropped))
    else s.(passed := s.passed + [Pass(req.path, req.seqNo)])
          .Put(w, s.workers[w].(phase := Passed(s.workers[w].phase.next)))
  }

  /** The seq below which a path cancellation makes the requests of its path stale. */
  function StaleAfter(s: State, path: string, n: int): int {
    if n != 0 then n else if path in s.timerRequests then s.timerRequests[path].seqNo + 1 else 1
  }

  function ApplyCancelPath(s: State, path: string, n: int): State {
    PopTimer(s, path).(
      latestSeq := s.latestSeq[path := Max(s.Latest(path), StaleAfter(s, path, n))])
  }

  /** The paths of `among` whose tabled request a seq-only cancellation of n reaches. */
  function Hit(s: State, n: int, among: set<string>): set<string> {
    set p | p in among && p in s.timerRequests && s.timerRequests[p].seqNo <= n
  }

  function ApplyCancelSeq(s: State, n: int): State {
    if n == 0 then s
    else CancelHits(s.(latestReviewSeq := Max(s.latestReviewSeq, n + 1)), n, s.timerRequests.Keys)
  }

  function CancelHits(s: State, n: int, among: set<string>): State {
    CancelSet(s, n, Hit(s, n, among))
  }

  function CancelSet(s: State, n: int, hit: set<string>): State {
    s.(workers := CancelAll(s, hit),
       timers := s.timers - hit,
       timerRequests := s.timerRequests - hit,
       latestSeq := map p | p in s.latestSeq.Keys + hit ::
         if p in hit then Max(s.Latest(p), n + 1) else s.latestSeq[p])
  }

  /** Cancels the timers that the table holds for `paths`. */
  function CancelAll(s: State, paths: set<string>): seq<Worker> {
    seq(|s.workers|, i requires 0 <= i < |s.workers| =>
      if s.workers[i].req.path in paths && s.Tabled(i) then s.workers[i].Cancel() else s.workers[i])
  }

  // ---------------------------------------------------------------- runs

  predicate ValidRun(s: State, steps: seq<Step>)
    decreases |steps|
  {
    steps == [] || (Enabled(s, steps[0]) && ValidRun(Apply(s, steps[0]), steps[1..]))
  }

  function Run(s: State, steps: seq<Step>): State
    requires ValidRun(s, steps)
    decreases |steps|
  {
    if steps == [] then s else Run(Apply(s, steps[0]), steps[1..])
  }

  /** Some run takes s to t. */
  ghost predicate Leads(s: State, t: State) {
    exists steps :: ValidRun(s, steps) && Run(s, steps) == t
  }

  /** A run without cancellation or shutdown takes s to t. */
  ghost predicate OrdinarilyLeads(s: State, t: State) {
    exists steps :: ValidRun(s, steps) && AllOrdinary(steps) && Run(s, steps) == t
  }

  predicate AllOrdinary(steps: seq<Step>) {
    forall i :: 0 <= i < |steps| ==> steps[i].Ordinary()
  }

  lemma {:induction false} RunSnoc(s: State, steps: seq<Step>, step: Step)
    requires ValidRun(s, steps) && Enabled(Run(s, steps), step)
    ensures ValidRun(s, steps + [step])
    ensures Run(s, steps + [step]) == Apply(Run(s, steps), step)
    decreases |steps|
  {
    if steps == [] {
      assert ([step])[1..] == [];
    } else {
      RunSnoc(Apply(s, steps[0]), steps[1..], step);
      assert (steps + [step])[1..] == steps[1..] + [step];
    }
  }

  lemma LeadsThen(s: State, t: State, step: Step)
    requires OrdinarilyLeads(s, t) && Enabled(t, step) && step.Ordinary()
    ensures OrdinarilyLeads(s, Apply(t, step))
  {
    var steps :| ValidRun(s, steps) && AllOrdinary(steps) && Run(s, steps) == t;
    RunSnoc(s, steps, step);
    assert AllOrdinary(steps + [step]);
  }

  lemma OrdinarilyLeadsToItself(s: State)
    ensures OrdinarilyLeads(s, s)
  {
    assert ValidRun(s, []) && AllOrdinary([]) && Run(s, []) == s;
  }

  // ---------------------------------------------------------------- invariant

  /** The debounce timer has not handed its request to the locked block yet. */
  predicate Pending(worker: Worker) { worker.phase.Armed? || worker.phase.Fired? }

  /** Both tables have the same paths, and each names a timer that has not started yet. */
  predicate TablesAgree(s: State) {
    && s.timers.Keys == s.timerRequests.Keys
    && (forall p :: p in s.timers ==>
      && s.timers[p] < |s.workers|
      && s.workers[s.timers[p]].req == s.timerRequests[p]
      && s.timerRequests[p].path == p
      && Pending(s.workers[s.timers[p]]))
  }

  /** No request is ahead of the latest seq of its path, and no review of the latest review seq. */
  predicate NothingAhead(s: State) {
    && (forall w :: 0 <= w < |s.workers| ==> s.workers[w].req.seqNo <= s.Latest(s.workers[w].req.path))
    && (forall r :: 0 <= r < |s.reviews| ==> s.reviews[r].seqNo <= s.latestReviewSeq)
  }

  /** The seqs of the passed checks of a path never decrease. */
  predicate PassesOrdered(s: State) {
    && (forall i :: 0 <= i < |s.passed| ==> s.passed[i].seqNo <= s.Latest(s.passed[i].path))
    && (forall i, j :: 0 <= i < j < |s.passed| && s.passed[i].path == s.passed[j].path ==>
      s.passed[i].seqNo <= s.passed[j].seqNo)
  }

  predicate Events(lines: seq<Line>, n: nat) {
    |lines| == n && forall i :: 0 <= i < n ==> lines[i] == Event(i)
  }

  /** What a worker has written: its events in order, then one closing line. */
  predicate WellWritten(worker: Worker) {
    match worker.phase
    case Replying(next) => next < worker.Total() && Events(worker.lines, next)
    case Passed(next) => next < worker.Total() && Events(worker.lines, next)
    case Dropped => Events(worker.lines, |worker.lines|)
    case Finished =>
      && 0 < |worker.lines|
      && var n := |worker.lines| - 1;
      && Events(worker.lines[..n], n)
      && match worker.lines[n] {
           case Error => true
           case Done => worker.req.stream && n == worker.changes
           case Diff => !worker.req.stream && n == 0
           case Event(_) => false
         }
    case _ => worker.lines == []
  }

  predicate ClientsCounted(s: State) { s.clientCount == s.handlers <= MAX_CLIENTS }

  predicate Inv(s: State) {
    && TablesAgree(s)
    && NothingAhead(s)
    && PassesOrdered(s)
    && AllWellWritten(s.workers)
    && ClientsCounted(s)
  }

  lemma KeepsRequests(s: State, step: Step)
    requires Enabled(s, step)
    ensures var t := Apply(s, step);
      && |s.workers| <= |t.workers|
      && (forall w :: 0 <= w < |s.workers| ==> t.workers[w].req == s.workers[w].req)
  {
  }

  lemma KeepsReviews(s: State, step: Step)
    requires Enabled(s, step)
    ensures var t := Apply(s, step);
      && |s.reviews| <= |t.reviews|
      && (forall r :: 0 <= r < |s.reviews| ==> t.reviews[r].seqNo == s.reviews[r].seqNo)
  {
  }

  /** No step forgets a worker or a review, or changes what was requested. */
  lemma Persistent(s: State, step: Step)
    requires Enabled(s, step)
    ensures var t := Apply(s, step);
      && |s.workers| <= |t.workers|
      && (forall w :: 0 <= w < |s.workers| ==> t.workers[w].req == s.workers[w].req)
      && |s.reviews| <= |t.reviews|
      && (forall r :: 0 <= r < |s.reviews| ==> t.reviews[r].seqNo == s.reviews[r].seqNo)
  {
    hide Apply;
    KeepsRequests(s, step);
    KeepsReviews(s, step);
  }

  /** No step takes back a written line or a passed check. */
  lemma WrittenStays(s: State, step: Step)
    requires Enabled(s, step)
    ensures var t := Apply(s, step);
      && s.passed <= t.passed
      && |s.workers| <= |t.workers|
      && (forall w :: 0 <= w < |s.workers| ==> s.workers[w].lines <= t.workers[w].lines)
  {
  }

  lemma ReviewLinesStay(s: State, step: Step)
    requires Enabled(s, step)
    ensures var t := Apply(s, step);
      && |s.reviews| <= |t.reviews|
      && (forall r :: 0 <= r < |s.reviews| ==> s.reviews[r].lines <= t.reviews[r].lines)
  {
  }

  /** No step lowers a latest seq. */
  lemma LatestGrows(s: State, step: Step)
    requires Enabled(s, step)
    ensures forall p :: s.Latest(p) <= Apply(s, step).Latest(p)
    ensures s.latestReviewSeq <= Apply(s, step).latestReviewSeq
  {
    hide CancelAll;
  }

  lemma CancelTablesAgree(s: State, t: State, paths: set<string>)
    requires TablesAgree(s)
    requires t.workers == CancelAll(s, paths)
    requires t.timers == s.timers - paths && t.timerRequests == s.timerRequests - paths
    ensures TablesAgree(t)
  {
    forall p | p in t.timers
      ensures t.workers[t.timers[p]] == s.workers[s.timers[p]]
    {
    }
  }

  lemma PutTablesAgree(s: State, w: nat, worker: Worker)
    requires TablesAgree(s) && w < |s.workers| && worker.req == s.workers[w].req
    requires Pending(s.workers[w]) ==> Pending(worker)
    ensures TablesAgree(s.Put(w, worker))
  {
  }

  lemma PopTimerTablesAgree(s: State, path: string)
    requires TablesAgree(s)
    ensures TablesAgree(PopTimer(s, path))
  {
    var t := PopTimer(s, path);
    forall p | p in t.timers
      ensures t.workers[t.timers[p]] == s.workers[s.timers[p]]
    {
      if path in s.timers {
        assert s.workers[s.timers[path]].req.path == path;
      }
    }
  }

  lemma ScheduleTablesAgree(s: State, req: Request)
    requires TablesAgree(s)
    ensures TablesAgree(ApplySchedule(s, req))
  {
    PopTimerTablesAgree(s, req.path);
  }

  lemma StartTablesAgree(s: State, w: nat)
    requires TablesAgree(s) && w < |s.workers|
    ensures TablesAgree(ApplyStart(s, w))
  {
    var t := ApplyStart(s, w);
    forall p | p in t.timers
      ensures t.workers[t.timers[p]] == s.workers[s.timers[p]]
    {
    }
  }

  /** The worker that a step moves by itself, or -1. */
  function Mover(step: Step): int {
    match step
    case Fire(w) => w
    case Start(w) => w
    case Compute(w, _) => w
    case ComputeFail(w) => w
    case Check(w) => w
    case Send(w) => w
    case SendFail(w) => w
    case _ => -1
  }

  lemma MoveTablesAgree(s: State, step: Step)
    requires Enabled(s, step) && TablesAgree(s) && Mover(step) >= 0 && !step.Start?
    ensures TablesAgree(Apply(s, step))
  {
    PutTablesAgree(s, Mover(step), Apply(s, step).workers[Mover(step)]);
  }

  lemma TablesAgreeStep(s: State, step: Step)
    requires Enabled(s, step) && TablesAgree(s)
    ensures TablesAgree(Apply(s, step))
  {
    var t := Apply(s, step);
    match step
    case Schedule(req) => ScheduleTablesAgree(s, req);
    case Start(w) => StartTablesAgree(s, w);
    case CancelPath(path, _) => PopTimerTablesAgree(s, path);
    case CancelSeq(n) =>
      if n != 0 {
        CancelTablesAgree(s, t, Hit(s, n, s.timerRequests.Keys));
      }
    case Stop => CancelTablesAgree(s, t, s.timers.Keys);
    case _ =>
      if Mover(step) >= 0 {
        MoveTablesAgree(s, step);
      }
  }

  lemma NothingAheadStep(s: State, step: Step)
    requires Enabled(s, step) && NothingAhead(s)
    ensures NothingAhead(Apply(s, step))
  {
    Persistent(s, step);
    LatestGrows(s, step);
  }

  lemma PassesOrderedStep(s: State, step: Step)
    requires Enabled(s, step) && NothingAhead(s) && PassesOrdered(s)
    ensures PassesOrdered(Apply(s, step))
  {
    var t := Apply(s, step);
    Persistent(s, step);
    LatestGrows(s, step);
    assert forall i :: 0 <= i < |s.passed| ==> t.passed[i] == s.passed[i];
  }

  predicate AllWellWritten(workers: seq<Worker>) {
    forall w :: 0 <= w < |workers| ==> WellWritten(workers[w])
  }

  lemma WriteKeepsWellWritten(worker: Worker)
    requires WellWritten(worker) && worker.phase.Passed?
    ensures WellWritten(Write(worker))
  {
  }

  lemma FailKeepsWellWritten(worker: Worker)
    requires WellWritten(worker) && (worker.phase.Passed? || worker.phase.Computing?)
    ensures WellWritten(Fail(worker))
  {
    assert Fail(worker).lines[..|worker.lines|] == worker.lines;
  }

  lemma CancelKeepsWellWritten(s: State, paths: set<string>, path: string)
    requires AllWellWritten(s.workers)
    ensures AllWellWritten(CancelAll(s, paths))
    ensures AllWellWritten(PopTimer(s, path).workers)
  {
  }

  lemma PutKeepsWellWritten(workers: seq<Worker>, w: nat, worker: Worker)
    requires AllWellWritten(workers) && w < |workers| && WellWritten(worker)
    ensures AllWellWritten(workers[w := worker])
  {
  }

  lemma AllMeansEach(workers: seq<Worker>, w: nat)
    requires AllWellWritten(workers) && w < |workers|
    ensures WellWritten(workers[w])
  {
  }

  lemma ScheduleKeepsWellWritten(s: State, req: Request)
    requires AllWellWritten(s.workers)
    ensures AllWellWritten(ApplySchedule(s, req).workers)
  {
    CancelKeepsWellWritten(s, {}, req.path);
  }

  lemma CancelSeqKeepsWellWritten(s: State, n: int)
    requires AllWellWritten(s.workers)
    ensures AllWellWritten(ApplyCancelSeq(s, n).workers)
  {
    if n != 0 {
      var reviewed := s.(latestReviewSeq := Max(s.latestReviewSeq, n + 1));
      CancelKeepsWellWritten(reviewed, Hit(reviewed, n, s.timerRequests.Keys), "");
    }
  }

  lemma MovedIsPut(s: State, step: Step)
    requires Enabled(s, step) && Mover(step) >= 0
    ensures var w := Mover(step); var t := Apply(s, step);
      && w < |s.workers| == |t.workers| && t.workers == s.workers[w := t.workers[w]]
  {
  }

  /** A move that writes nothing. */
  predicate PhaseMove(worker: Worker, after: Worker) {
    && after.req == worker.req && after.lines == worker.lines
    && match worker.phase
       case Armed => after.phase.Fired?
       case Fired => after.phase.Dropped? || after.phase.Computing?
       case Computing => after.phase == Replying(0)
       case Replying(next) => after.changes == worker.changes && (after.phase.Dropped? || after.phase == Passed(next))
       case _ => false
  }

  lemma PhaseMoveKeepsWellWritten(worker: Worker, after: Worker)
    requires WellWritten(worker) && PhaseMove(worker, after)
    ensures WellWritten(after)
  {
  }

  lemma MovedWellWritten(s: State, step: Step)
    requires Enabled(s, step) && Mover(step) >= 0 && WellWritten(s.workers[Mover(step)])
    ensures WellWritten(Apply(s, step).workers[Mover(step)])
  {
    hide WellWritten;
    match step
    case ComputeFail(w) => FailKeepsWellWritten(s.workers[w]);
    case Send(w) => WriteKeepsWellWritten(s.workers[w]);
    case SendFail(w) => FailKeepsWellWritten(s.workers[w]);
    case Fire(w) => PhaseMoveKeepsWellWritten(s.workers[w], Apply(s, step).workers[w]);
    case Start(w) => PhaseMoveKeepsWellWritten(s.workers[w], Apply(s, step).workers[w]);
    case Compute(w, _) => PhaseMoveKeepsWellWritten(s.workers[w], Apply(s, step).workers[w]);
    case Check(w) => PhaseMoveKeepsWellWritten(s.workers[w], Apply(s, step).workers[w]);
    case _ =>
  }

  lemma WellWrittenStep(s: State, step: Step)
    requires Enabled(s, step) && AllWellWritten(s.workers)
    ensures AllWellWritten(Apply(s, step).workers)
  {
    hide AllWellWritten, WellWritten;
    if Mover(step) >= 0 {
      MovedIsPut(s, step);
      AllMeansEach(s.workers, Mover(step));
      MovedWellWritten(s, step);
      PutKeepsWellWritten(s.workers, Mover(step), Apply(s, step).workers[Mover(step)]);
    } else {
      match step
      case Schedule(req) => ScheduleKeepsWellWritten(s, req);
      case CancelPath(path, _) => CancelKeepsWellWritten(s, {}, path);
      case CancelSeq(n) => CancelSeqKeepsWellWritten(s, n);
      case Stop => CancelKeepsWellWritten(s, s.timers.Keys, "");
      case _ =>
    }
  }

  lemma InvStep(s: State, step: Step)
    requires Enabled(s, step) && Inv(s)
    ensures Inv(Apply(s, step))
  {
    TablesAgreeStep(s, step);
    NothingAheadStep(s, step);
    PassesOrderedStep(s, step);
    WellWrittenStep(s, step);
  }

  lemma {:induction false} InvRun(s: State, steps: seq<Step>)
    requires ValidRun(s, steps) && Inv(s)
    ensures Inv(Run(s, steps))
    decreases |steps|
  {
    if steps != [] {
      InvStep(s, steps[0]);
      InvRun(Apply(s, steps[0]), steps[1..]);
    }
  }

  /** Safety over whole runs: the invariant holds in every reachable state. */
  lemma InvReachable(s: State)
    requires Leads(Init, s)
    ensures Inv(s)
  {
    var steps :| ValidRun(Init, steps) && Run(Init, steps) == s;
    InvRun(Init, steps);
  }

  /** A diff request passes a staleness check exactly when its seq is the latest of its path. */
  lemma PassesIffLatest(s: State, step: Step, w: nat)
    requires Inv(s) && Enabled(s, step) && (step == Start(w) || step == Check(w))
    ensures var req := s.workers[w].req;
      Apply(s, step).passed ==
        if req.seqNo == s.Latest(req.path) then s.passed + [Pass(req.path, req.seqNo)] else s.passed
  {
  }
}
