/**
 The server object.  Each method is one locked block of the server, and its
 contract says which step of the protocol it takes.  A client's connection is
 not part of the state: what a worker writes is in its `lines`.
 */
module LiveServer {
  import opened Common
  import opened LiveProtocol

  class Server {
    var timers: map<string, nat>
    var timerRequests: map<string, Request>
    var latestSeq: map<string, int>
    var latestReviewSeq: int
    var clientCount: int
    // The threads that the server has started, and what they have done.
    var workers: seq<Worker>
    var reviews: seq<Review>
    var handlers: nat
    var passed: seq<Pass>

    ghost function View(): State
      reads this
    {
      State(timers, timerRequests, latestSeq, latestReviewSeq, clientCount, workers, reviews, handlers, passed)
    }

    /**
     What the locked blocks rely on.  Everything else that holds of a running
     server follows from the steps: its view starts at Init, and every method
     takes one step.
     */
    ghost predicate Valid()
      reads this
    {
      TablesAgree(View())
    }

    constructor ()
      ensures Valid() && View() == Init
    {
      timers, timerRequests, latestSeq := map[], map[], map[];
      latestReviewSeq, clientCount, handlers := 0, 0, 0;
      workers, reviews, passed := [], [], [];
    }

    function Latest(path: string): int
      reads this
    {
      if path in latestSeq then latestSeq[path] else 0
    }

    /** Timer.cancel(): it stops a waiting timer and does nothing to a fired one. */
    method CancelTimer(timer: nat)
      requires timer < |workers|
      modifies this`workers
      ensures workers == old(workers)[timer := old(workers)[timer].Cancel()]
    {
      if workers[timer].phase.Armed? {
        workers := workers[timer := workers[timer].(phase := Cancelled)];
      }
    }

    /** Pops the entries of a path and cancels the timer popped; true if there was one. */
    method PopPending(path: string) returns (found: bool)
      requires path in timers ==> timers[path] < |workers|
      modifies this`timers, this`timerRequests, this`workers
      ensures View() == PopTimer(old(View()), path)
      ensures found <==> path in old(timers)
    {
      found := path in timers;
      if found {
        var existing := timers[path];
        CancelTimer(existing);
      }
      timers := timers - {path};
      timerRequests := timerRequests - {path};
    }

    /** The locked block of _schedule_request. */
    method ScheduleRequest(req: Request)
      requires Valid()
      modifies this
      ensures Valid() && View() == Apply(old(View()), Schedule(req))
    {
      ScheduleTablesAgree(View(), req);
      latestSeq := latestSeq[req.path := Max(Latest(req.path), req.seqNo)];
      var _ := PopPending(req.path);
      var timer := |workers|;
      workers := workers + [Worker(req, Armed, 0, [])];
      timers := timers[req.path := timer];
      timerRequests := timerRequests[req.path := req];
    }

    /** The locked block of _run_diff and the comparison after it; false drops the request. */
    method RunDiff(w: nat) returns (proceed: bool)
      requires Valid() && Enabled(View(), Start(w))
      modifies this
      ensures Valid() && View() == Apply(old(View()), Start(w))
      ensures proceed <==> workers[w].phase.Computing?
    {
      ghost var before := View();
      var req := workers[w].req;
      timers := timers - {req.path};
      timerRequests := timerRequests - {req.path};
      var latest := Latest(req.path);
      if req.seqNo < latest {
        workers := workers[w := workers[w].(phase := Dropped)];
        proceed := false;
      } else {
        passed := passed + [Pass(req.path, req.seqNo)];
        workers := workers[w := workers[w].(phase := Computing)];
        proceed := true;
      }
      TablesAgreeStep(before, Start(w));
    }

    /** _is_stale, as the reply loop uses it: a stale worker stops there. */
    method IsStale(w: nat) returns (stale: bool)
      requires Valid() && Enabled(View(), Check(w))
      modifies this`workers, this`passed
      ensures Valid() && View() == Apply(old(View()), Check(w))
      ensures stale <==> workers[w].phase.Dropped?
    {
      ghost var before := View();
      var worker := workers[w];
      stale := worker.req.seqNo < Latest(worker.req.path);
      if stale {
        workers := workers[w := worker.(phase := Dropped)];
      } else {
        passed := passed + [Pass(worker.req.path, worker.req.seqNo)];
        workers := workers[w := worker.(phase := Passed(worker.phase.next))];
      }
      TablesAgreeStep(before, Check(w));
    }

    /**
     _cancel_request, for the normalised path if the request has one.  The count
     is that of the tabled timers popped, including those already fired.
     */
    method CancelRequest(path: Option<string>, n: int) returns (cancelled: nat)
      requires Valid()
      modifies this
      ensures Valid()
      ensures View() == Apply(old(View()), if path.Some? then CancelPath(path.value, n) else CancelSeq(n))
      ensures cancelled == |Popped(old(View()), path, n)|
    {
      if path.Some? {
        cancelled := CancelAt(path.value, n);
      } else if n != 0 {
        cancelled := CancelUpTo(n);
      } else {
        cancelled := 0;
      }
    }

    /** The branch of a cancellation that names a path. */
    method CancelAt(path: string, n: int) returns (cancelled: nat)
      requires Valid()
      modifies this
      ensures Valid() && View() == ApplyCancelPath(old(View()), path, n)
      ensures cancelled == if path in old(timers) then 1 else 0
    {
      TablesAgreeStep(View(), CancelPath(path, n));
      var staleAfter := if n != 0 then n else if path in timerRequests then timerRequests[path].seqNo + 1 else 1;
      var found := PopPending(path);
      cancelled := if found then 1 else 0;
      latestSeq := latestSeq[path := Max(Latest(path), staleAfter)];
    }

    /** The branch of a cancellation that names no path but a seq. */
    method CancelUpTo(n: int) returns (cancelled: nat)
      requires Valid() && n != 0
      modifies this
      ensures Valid() && View() == Apply(old(View()), CancelSeq(n))
      ensures cancelled == |Hit(old(View()), n, old(timerRequests).Keys)|
    {
      ghost var start := View().(latestReviewSeq := Max(latestReviewSeq, n + 1));
      assert Hit(View(), n, timerRequests.Keys) == Hit(start, n, timerRequests.Keys);
      TablesAgreeStep(View(), CancelSeq(n));
      latestReviewSeq := Max(latestReviewSeq, n + 1);
      cancelled := CancelPending(n);
    }

    /** Its loop over the tabled requests. */
    method CancelPending(n: int) returns (cancelled: nat)
      requires TablesAgree(View())
      modifies this
      ensures View() == CancelHits(old(View()), n, old(timerRequests).Keys)
      ensures cancelled == |Hit(old(View()), n, old(timerRequests).Keys)|
    {
      ghost var start := View();
      CancelNone(start, n);
      hide TablesAgree, CancelHits, CancelAll, Hit;
      cancelled := 0;
      var pending := timerRequests;
      var todo := pending.Keys;
      assert pending.Keys - todo == {};
      while todo != {}
        invariant todo <= pending.Keys
        invariant View() == CancelHits(start, n, pending.Keys - todo)
        invariant cancelled == |Hit(start, n, pending.Keys - todo)|
        decreases todo
      {
        var path :| path in todo;
        assert pending.Keys - (todo - {path}) == (pending.Keys - todo) + {path};
        var one := CancelIfReached(pending, path, n, start, pending.Keys - todo);
        cancelled := cancelled + one;
        todo := todo - {path};
      }
      assert pending.Keys - todo == pending.Keys;
    }

    /** One round of that loop. */
    method CancelIfReached(pending: map<string, Request>, path: string, n: int,
                           ghost start: State, ghost done: set<string>)
      returns (one: nat)
      requires TablesAgree(start) && pending == start.timerRequests && path in pending && path !in done
      requires View() == CancelHits(start, n, done)
      modifies this
      ensures View() == CancelHits(start, n, done + {path})
      ensures |Hit(start, n, done + {path})| == |Hit(start, n, done)| + one
    {
      if pending[path].seqNo <= n {
        HitMore(start, n, done, path);
        hide TablesAgree, CancelHits, CancelAll, Hit;
        var found := PopPending(path);
        latestSeq := latestSeq[path := Max(Latest(path), n + 1)];
        one := 1;
      } else {
        HitLess(start, n, done, path);
        one := 0;
      }
    }

    /** The locked block of stop(). */
    method Stop()
      requires Valid()
      modifies this
      ensures Valid() && View() == Apply(old(View()), LiveProtocol.Stop)
    {
      ghost var before := View();
      var todo := timers.Keys;
      ghost var done: set<string> := {};
      CancelNone(before, 0);
      while todo != {}
        invariant done !! todo && done + todo == timers.Keys
        invariant View() == before.(workers := CancelAll(before, done))
        decreases todo
      {
        var path :| path in todo;
        CancelOne(before, done, path);
        CancelTimer(timers[path]);
        todo, done := todo - {path}, done + {path};
      }
      timers, timerRequests := map[], map[];
      assert done == before.timers.Keys;
    }

    /** The locked block with which a review starts. */
    method BeginReview(n: int)
      requires Valid()
      modifies this
      ensures Valid() && View() == Apply(old(View()), ReviewBegin(n))
    {
      TablesAgreeStep(View(), ReviewBegin(n));
      latestReviewSeq := Max(latestReviewSeq, n);
      reviews := reviews + [Review(n, Working, 0)];
    }

    /** The check of a review before a file event and before its result. */
    method ReviewIsStale(r: nat) returns (stale: bool)
      requires Valid() && Enabled(View(), ReviewCheck(r))
      modifies this`reviews
      ensures Valid() && View() == Apply(old(View()), ReviewCheck(r))
      ensures stale <==> reviews[r].phase.Ended?
    {
      TablesAgreeStep(View(), ReviewCheck(r));
      stale := reviews[r].seqNo < latestReviewSeq;
      reviews := reviews[r := reviews[r].(phase := if stale then Ended else Cleared)];
    }

    /** The admission block of the accept loop; false rejects the connection. */
    method AcceptClient() returns (accepted: bool)
      requires Valid()
      modifies this`clientCount, this`handlers
      ensures Valid() && View() == Apply(old(View()), Accept)
      ensures accepted <==> old(clientCount) < 4
    {
      TablesAgreeStep(View(), Accept);
      if clientCount >= MAX_CLIENTS {
        return false;
      }
      clientCount := clientCount + 1;
      handlers := handlers + 1;
      return true;
    }

    /** The last block of a client handler. */
    method ClientExit()
      requires Valid() && Enabled(View(), HandlerExit)
      modifies this`clientCount, this`handlers
      ensures Valid() && View() == Apply(old(View()), HandlerExit)
    {
      TablesAgreeStep(View(), HandlerExit);
      clientCount := Max(0, clientCount - 1);
      handlers := handlers - 1;
    }
  }

  /** The paths whose table entries a cancellation pops. */
  function Popped(s: State, path: Option<string>, n: int): set<string> {
    if path.Some? then (if path.value in s.timers then {path.value} else {})
    else if n != 0 then Hit(s, n, s.timerRequests.Keys) else {}
  }

  /** The count a cancellation reports is that of the entries it takes out of the table: the entry of
    * the named path, or those of the requests up to the named seq.
    */
  lemma PoppedAreRemoved(s: State, path: Option<string>, n: int)
    requires TablesAgree(s)
    ensures var t := match path case Some(p) => Apply(s, CancelPath(p, n)) case None => Apply(s, CancelSeq(n));
      Popped(s, path, n) == s.timers.Keys - t.timers.Keys && t.timers.Keys <= s.timers.Keys
    ensures forall p :: p in Popped(s, path, n) <==>
      && p in s.timers
      && match path
         case Some(named) => p == named
         case None => n != 0 && s.workers[s.timers[p]].req.seqNo <= n
  {
  }

  lemma CancelNone(s: State, n: int)
    ensures CancelHits(s, n, {}) == s && CancelAll(s, {}) == s.workers && Hit(s, n, {}) == {}
  {
    assert Hit(s, n, {}) == {};
  }

  /** Cancelling the tabled timer of one more path. */
  lemma CancelOne(s: State, paths: set<string>, path: string)
    requires TablesAgree(s) && path !in paths
    ensures CancelAll(s, paths + {path}) ==
      if path in s.timers
      then CancelAll(s, paths)[s.timers[path] := CancelAll(s, paths)[s.timers[path]].Cancel()]
      else CancelAll(s, paths)
    ensures path in s.timers ==> CancelAll(s, paths)[s.timers[path]] == s.workers[s.timers[path]]
    ensures CancelAll(s, {}) == s.workers
  {
  }

  /** One more path of the loop that is reached. */
  lemma HitMore(s: State, n: int, done: set<string>, path: string)
    requires TablesAgree(s)
    requires path in s.timerRequests && path !in done && s.timerRequests[path].seqNo <= n
    ensures var t := CancelHits(s, n, done);
      && path in t.timers && t.timers[path] < |t.workers|
      && CancelHits(s, n, done + {path}) ==
        PopTimer(t, path).(latestSeq := t.latestSeq[path := Max(t.Latest(path), n + 1)])
    ensures |Hit(s, n, done + {path})| == |Hit(s, n, done)| + 1
  {
    var hit := Hit(s, n, done);
    assert Hit(s, n, done + {path}) == hit + {path} && path !in hit;
    CancelOne(s, hit, path);
    CancelMore(s, n, hit, path);
  }

  lemma CancelMore(s: State, n: int, hit: set<string>, path: string)
    requires path in s.timers && s.timers[path] < |s.workers| && path !in hit
    requires CancelAll(s, hit + {path}) ==
      CancelAll(s, hit)[s.timers[path] := CancelAll(s, hit)[s.timers[path]].Cancel()]
    ensures var t := CancelSet(s, n, hit);
      && path in t.timers && t.timers[path] < |t.workers|
      && CancelSet(s, n, hit + {path}) ==
        PopTimer(t, path).(latestSeq := t.latestSeq[path := Max(t.Latest(path), n + 1)])
  {
    assert |CancelAll(s, hit)| == |s.workers|;
    hide CancelAll;
    var t, u := CancelSet(s, n, hit), CancelSet(s, n, hit + {path});
    assert u.timers == t.timers - {path};
    assert u.timerRequests == t.timerRequests - {path};
    assert u.latestSeq == t.latestSeq[path := Max(t.Latest(path), n + 1)];
  }

  /** One more path of the loop whose tabled request is newer. */
  lemma HitLess(s: State, n: int, done: set<string>, path: string)
    requires path in s.timerRequests && n < s.timerRequests[path].seqNo
    ensures CancelHits(s, n, done + {path}) == CancelHits(s, n, done)
    ensures Hit(s, n, done + {path}) == Hit(s, n, done)
  {
    assert Hit(s, n, done + {path}) == Hit(s, n, done);
  }
}
